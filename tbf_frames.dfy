/**
 * Raw (packed) TBF frames as the TBF multiplexer handles them: the checks made
 * when a frame is wrapped, the two header fields it decodes, the hooks the
 * reordering buffer calls, and the construction of zero-payload fill frames.
 *
 * Layout of a frame (all multi-byte fields big-endian):
 *   bytes  0..3   sync word DE C0 DE 5C
 *   bytes 12..13  first channel of the frame
 *   bytes 16..23  time tag
 *   bytes 24..    12 channels x 256 stands x 2 pols of payload
 */
module TbfFrames {
  import opened Wrappers
  import opened BigEndian
  import PyIndex

  const HeaderSize: nat := 24
  const PayloadSize: nat := 12 * 256 * 2
  /** The size of a packed TBF frame (the reader library's FRAME_SIZE). */
  const FrameSize: nat := HeaderSize + PayloadSize
  const SyncWord: seq<byte> := [0xDE, 0xC0, 0xDE, 0x5C]

  /** The reader library's exceptions raised by the frame code, plus Python's IndexError. */
  datatype FrameError = EOFError | SyncError | IndexError

  predicate HasSync(c: seq<byte>)
  {
    |c| >= 4 && c[..4] == SyncWord
  }

  /**
   * The validation done by RawTBFFrame.__init__: the length is checked first
   * (EOFError), then the four sync bytes (SyncError).
   */
  function Check(c: seq<byte>): (r: Option<FrameError>)
    ensures r == Some(EOFError) <==> |c| != FrameSize
    ensures r == Some(SyncError) <==> |c| == FrameSize && !HasSync(c)
    ensures r == None <==> |c| == FrameSize && HasSync(c)
  {
    if |c| != FrameSize then Some(EOFError)
    else if c[0] != 0xDE || c[1] != 0xC0 || c[2] != 0xDE || c[3] != 0x5C then Some(SyncError)
    else None
  }

  /**
   * The time tag: bytes 16..23 shifted into place and or-ed together; the
   * shifted bytes do not overlap, so the or is the sum written here.
   */
  function TimetagOf(c: seq<byte>): (t: nat)
    requires |c| >= HeaderSize
    ensures t == Decode(c[16..24])
    ensures t < Pow256(8)
  {
    Decode8(c[16..24]);
    DecodeBound(c[16..24]);
    c[16] as int * 0x100_0000_0000_0000 + c[17] as int * 0x1_0000_0000_0000 + c[18] as int * 0x100_0000_0000
    + c[19] as int * 0x1_0000_0000 + c[20] as int * 0x100_0000 + c[21] as int * 0x1_0000 + c[22] as int * 0x100 + c[23]
  }

  /** The first channel: byte 12 shifted up by 8, or-ed with byte 13. */
  function FirstChanOf(c: seq<byte>): (f: nat)
    requires |c| >= HeaderSize
    ensures f == Decode(c[12..14])
    ensures f < 0x1_0000
  {
    DecodeStep(c[12..14], 0);
    DecodeStep(c[12..14], 1);
    assert c[12..14][..0] == [] && c[12..14][..2] == c[12..14];
    c[12] as int * 0x100 + c[13]
  }

  lemma Decode8(s: seq<byte>)
    requires |s| == 8
    ensures Decode(s) == s[0] as int * 0x100_0000_0000_0000 + s[1] as int * 0x1_0000_0000_0000 + s[2] as int * 0x100_0000_0000
      + s[3] as int * 0x1_0000_0000 + s[4] as int * 0x100_0000 + s[5] as int * 0x1_0000 + s[6] as int * 0x100 + s[7]
  {
    var d0 := Decode(s[..0]);
    assert d0 == 0 by { assert s[..0] == []; }
    DecodeStep(s, 0);
    var d1 := Decode(s[..1]);
    DecodeStep(s, 1);
    var d2 := Decode(s[..2]);
    DecodeStep(s, 2);
    var d3 := Decode(s[..3]);
    DecodeStep(s, 3);
    var d4 := Decode(s[..4]);
    DecodeStep(s, 4);
    var d5 := Decode(s[..5]);
    DecodeStep(s, 5);
    var d6 := Decode(s[..6]);
    DecodeStep(s, 6);
    var d7 := Decode(s[..7]);
    DecodeStep(s, 7);
    assert s[..8] == s;
    assert d1 == s[0];
    assert d2 == s[0] as int * 0x100 + s[1];
    assert d3 == s[0] as int * 0x1_0000 + s[1] as int * 0x100 + s[2];
    assert d4 == s[0] as int * 0x100_0000 + s[1] as int * 0x1_0000 + s[2] as int * 0x100 + s[3];
  }

  lemma DecodeStep(s: seq<byte>, k: nat)
    requires k < |s|
    ensures Decode(s[..k + 1]) == Decode(s[..k]) * 256 + s[k]
  {
    assert s[..k + 1][..k] == s[..k];
  }

  /** The two bytes createFill writes at offsets 12 and 13: (chan & 0xFF00) >> 8 and chan & 0xFF. */
  function ChanBytes(chan: int): (b: seq<byte>)
    ensures b == Encode(chan, 2)
  {
    assert Encode(chan, 2)[..1] == Encode(chan / 256, 1);
    [(chan / 256) % 256, chan % 256]
  }

  /**
   * The bytes of the frame createFill returns for template t: the header of t
   * with bytes 12..13 rewritten to the channel, then 12*256*2 zero bytes
   * assigned over everything from offset 24 on.
   */
  function FillBytes(t: seq<byte>, chan: int): (r: seq<byte>)
    requires |t| >= HeaderSize
    ensures |r| == FrameSize
  {
    t[..12] + ChanBytes(chan) + t[14..HeaderSize] + seq(PayloadSize, _ => 0)
  }

  /** A fill frame names the requested channel, reduced to the 16 bits of the field. */
  lemma FillFirstChan(t: seq<byte>, chan: int)
    requires |t| >= HeaderSize
    ensures FirstChanOf(FillBytes(t, chan)) == chan % 0x1_0000
  {
    var f := FillBytes(t, chan);
    assert f[12..14] == Encode(chan, 2);
    DecodeEncode(chan, 2);
  }

  /**
   * A fill frame keeps every header byte of its template except 12..13 (so
   * the sync word and the time tag survive), zeroes the whole payload, and so
   * passes the frame checks whenever the template has the sync word.
   */
  lemma FillKeepsHeader(t: seq<byte>, chan: int)
    requires |t| >= HeaderSize
    ensures forall i :: 0 <= i < HeaderSize && i != 12 && i != 13 ==> FillBytes(t, chan)[i] == t[i]
    ensures forall i :: HeaderSize <= i < FrameSize ==> FillBytes(t, chan)[i] == 0
    ensures TimetagOf(FillBytes(t, chan)) == TimetagOf(t)
    ensures Check(FillBytes(t, chan)) == None <==> HasSync(t)
  {
    var f := FillBytes(t, chan);
    assert f[16..24] == t[16..24];
    assert f[..4] == t[..4];
  }

  /** Filling twice is filling once with the later channel. */
  lemma FillTwice(t: seq<byte>, chan1: int, chan2: int)
    requires |t| >= HeaderSize
    ensures FillBytes(FillBytes(t, chan1), chan2) == FillBytes(t, chan2)
  {
    var f := FillBytes(t, chan1);
    assert f[..12] == t[..12];
    assert f[14..HeaderSize] == t[14..HeaderSize];
  }

  /** A packed TBF frame: a byte array that passed the checks of Check when it was wrapped. */
  class RawTBFFrame {
    var contents: array<byte>

    /** Wraps a copy of bytes already known to pass the checks. */
    constructor Wrap(raw: seq<byte>)
      requires Check(raw) == None
      ensures fresh(contents) && contents[..] == raw
    {
      contents := new byte[|raw|](i requires 0 <= i < |raw| => raw[i]);
    }

    /** RawTBFFrame(contents): copy the bytes, then check them. */
    static method New(raw: seq<byte>) returns (r: Result<RawTBFFrame, FrameError>)
      ensures r.Err? <==> Check(raw).Some?
      ensures r.Err? ==> r.error == Check(raw).value
      ensures r.Ok? ==> fresh(r.value) && fresh(r.value.contents) && r.value.contents[..] == raw
    {
      var e := Check(raw);
      if e.Some? {
        r := Err(e.value);
      } else {
        var f := new RawTBFFrame.Wrap(raw);
        r := Ok(f);
      }
    }

    /** The `timetag` property: the unsigned 64-bit big-endian field at bytes 16..23. */
    function Timetag(): (t: nat)
      reads this, contents
      requires contents.Length >= HeaderSize
      ensures t == Decode(contents[16..24]) && t < Pow256(8)
    {
      TimetagOf(contents[..])
    }

    /** The `first_chan` property: the unsigned 16-bit big-endian field at bytes 12..13. */
    function FirstChan(): (f: nat)
      reads this, contents
      requires contents.Length >= HeaderSize
      ensures f == Decode(contents[12..14]) && f < 0x1_0000
    {
      FirstChanOf(contents[..])
    }

    /** frame[key] with an integer key, Python index semantics. */
    method GetItem(key: int) returns (r: Result<byte, FrameError>)
      ensures PyIndex.Normalize(key, contents.Length).None? ==> r == Err(IndexError)
      ensures PyIndex.Normalize(key, contents.Length).Some? ==>
        r == Ok(contents[PyIndex.Normalize(key, contents.Length).value])
    {
      var k := PyIndex.Normalize(key, contents.Length);
      if k.None? {
        r := Err(IndexError);
      } else {
        r := Ok(contents[k.value]);
      }
    }

    /** frame[key] = value with an integer key, Python index semantics. */
    method SetItem(key: int, value: byte) returns (e: Option<FrameError>)
      modifies contents
      ensures e.Some? <==> PyIndex.Normalize(key, contents.Length).None?
      ensures e.Some? ==> e.value == IndexError && contents[..] == old(contents[..])
      ensures e.None? ==>
        contents[..] == old(contents[..])[PyIndex.Normalize(key, contents.Length).value := value]
    {
      var k := PyIndex.Normalize(key, contents.Length);
      if k.None? {
        e := Some(IndexError);
      } else {
        contents[k.value] := value;
        e := None;
      }
    }

    /** frame[start:] = values, for a replacement as long as the slice it replaces. */
    method SetTail(start: nat, values: seq<byte>)
      requires start + |values| == contents.Length
      modifies contents
      ensures contents[..] == old(contents[..start]) + values
    {
      var i := start;
      while i < contents.Length
        invariant start <= i <= contents.Length
        invariant contents[..start] == old(contents[..start])
        invariant forall j :: start <= j < i ==> contents[j] == values[j - start]
      {
        contents[i] := values[i - start];
        i := i + 1;
      }
      assert contents[..] == contents[..start] + contents[start..];
    }
  }

  /**
   * The TBF specialisation of the reader library's reordering frame buffer:
   * the hooks it overrides. The ring storage, append, get and flush belong to
   * the library base class and are not part of this model.
   */
  class RawTBFFrameBuffer {
    const chans: seq<int>
    const nsegments: int
    const reorder: bool

    constructor (chans: seq<int>, nsegments: int := 25, reorder: bool := false)
      ensures this.chans == chans && this.nsegments == nsegments && this.reorder == reorder
    {
      this.chans := chans;
      this.nsegments := nsegments;
      this.reorder := reorder;
    }

    /** One expected frame per start channel, listed in the buffer's channel order. */
    method GetMaxFrames() returns (nFrames: nat, frameList: seq<int>)
      ensures nFrames == |chans|
      ensures frameList == chans
    {
      nFrames := |chans|;
      frameList := [];
      var i := 0;
      while i < |chans|
        invariant 0 <= i <= |chans|
        invariant frameList == chans[..i]
      {
        frameList := frameList + [chans[i]];
        i := i + 1;
      }
    }

    /** Frames are ordered by their 64-bit big-endian time tag. */
    function GetFigureOfMerit(frame: RawTBFFrame): (m: nat)
      reads frame, frame.contents
      requires frame.contents.Length >= HeaderSize
      ensures m == Decode(frame.contents[16..24]) && m < Pow256(8)
    {
      frame.Timetag()
    }

    /** Frames are identified by their 16-bit big-endian first channel. */
    function FrameID(frame: RawTBFFrame): (id: nat)
      reads frame, frame.contents
      requires frame.contents.Length >= HeaderSize
      ensures id == Decode(frame.contents[12..14]) && id < 0x1_0000
    {
      frame.FirstChan()
    }

    /**
     * createFill: copy the first frame held for the key being filled (held),
     * re-check it, point bytes 12..13 at chan and zero the payload. The
     * template itself is left as it was.
     */
    method CreateFill(held: seq<RawTBFFrame>, chan: int) returns (r: Result<RawTBFFrame, FrameError>)
      ensures held == [] ==> r == Err(IndexError)
      ensures held != [] ==> (r.Err? <==> Check(held[0].contents[..]).Some?)
      ensures held != [] && r.Err? ==> r.error == Check(held[0].contents[..]).value
      ensures r.Ok? ==> held != [] && fresh(r.value) && fresh(r.value.contents)
      ensures r.Ok? ==> r.value.contents[..] == FillBytes(held[0].contents[..], chan)
    {
      if held == [] {
        return Err(IndexError);
      }
      var template := held[0].contents[..];
      var f := RawTBFFrame.New(template);
      if f.Err? {
        return Err(f.error);
      }
      var fill := f.value;
      var _ := fill.SetItem(12, (chan / 256) % 256);
      var _ := fill.SetItem(13, chan % 256);
      fill.SetTail(HeaderSize, seq(PayloadSize, _ => 0));
      assert fill.contents[..] == FillBytes(template, chan);
      r := Ok(fill);
    }
  }
}
