/**
 * The bookkeeping of the DRX power plotter: the beam/tuning/polarisation
 * code of a frame and its inverse, the chunk sizing and file-length checks,
 * the first-seen table that maps codes to rows of the power array, and the
 * order in which rows are plotted.
 *
 * Python 2 integer `/` and `%` with a positive divisor floor, which is what
 * Dafny's `/` and `%` do for a positive divisor, so they are written as is.
 */
module DrxPower {
  import opened Wrappers
  import Arith
  import Sorting

  /** Samples carried by one DRX frame. */
  const SamplesPerFrame: nat := 4096
  /** The configured upper bound on frames held in memory per chunk. */
  const ConfiguredMaxFrames: nat := 19144 * 3

  /*
   * Beam / tuning / polarisation codes.
   */

  datatype DrxId = DrxId(beam: int, tune: int, pol: int)

  /** The ids a DRX frame header can carry: beams from 1, tunings 1 and 2, polarisations 0 and 1. */
  predicate ValidId(id: DrxId)
  {
    id.beam >= 1 && 1 <= id.tune <= 2 && 0 <= id.pol <= 1
  }

  /** `4*(beam-1) + 2*(tune-1) + pol`: the code a frame is filed under. */
  function StandCode(id: DrxId): (code: int)
    ensures ValidId(id) ==> code >= 0 && code % 2 == id.pol && code % 4 / 2 == id.tune - 1
  {
    var low := 2 * (id.tune - 1) + id.pol;
    var code := 4 * (id.beam - 1) + low;
    assert ValidId(id) ==> code % 2 == id.pol && code % 4 / 2 == id.tune - 1 by {
      if ValidId(id) {
        Arith.ModUnique(code, 2, 2 * (id.beam - 1) + id.tune - 1, id.pol);
        Arith.ModUnique(code, 4, id.beam - 1, low);
        assert low / 2 == id.tune - 1;
      }
    }
    code
  }

  /** The plot title's decoding: beam `s/4+1`, tuning `s%4/2+1`, polarisation `s%2`. */
  function DecodeCode(s: int): (id: DrxId)
    ensures 1 <= id.tune <= 2 && 0 <= id.pol <= 1
    ensures ValidId(id) <==> s >= 0
  {
    DrxId(s / 4 + 1, s % 4 / 2 + 1, s % 2)
  }

  /** Decoding a valid id's code gives the id back. */
  lemma DecodeStandCode(id: DrxId)
    requires ValidId(id)
    ensures DecodeCode(StandCode(id)) == id
  {
  }

  /** Every integer is the code of its decoding, so distinct codes have distinct titles. */
  lemma StandCodeDecode(s: int)
    ensures StandCode(DecodeCode(s)) == s
  {
  }

  /** Distinct valid ids get distinct codes. */
  lemma StandCodeInjective(a: DrxId, b: DrxId)
    requires ValidId(a) && ValidId(b) && StandCode(a) == StandCode(b)
    ensures a == b
  {
    DecodeStandCode(a);
    DecodeStandCode(b);
  }

  /*
   * Chunk sizing and the file-length checks.
   */

  datatype SizeError =
    | ZeroDivisionError
    | OffsetPastEnd        // "Requested offset is greater than file length"
    | IntegrationPastEnd   // "Requested integration time+offset is greater than file length"

  /** `int(maxFrames/beampols)*beampols`: the largest multiple of beampols not above the bound. */
  function MaxFrames(configured: nat, beampols: nat): (r: Result<nat, SizeError>)
    ensures r.Err? <==> beampols == 0
    ensures r.Err? ==> r.error == ZeroDivisionError
    ensures r.Ok? ==> r.value % beampols == 0 && r.value <= configured && configured < r.value + beampols
  {
    if beampols == 0 then Err(ZeroDivisionError)
    else
      var q := configured / beampols;
      Arith.ModUnique(q * beampols, beampols, q, 0);
      assert configured == q * beampols + configured % beampols;
      Ok(q * beampols)
  }

  /**
   * The configured bound is a multiple of every beampols from 1 to 4 (one to
   * four tuning/polarisation streams), so for those the chunk limit is the
   * configured bound itself.
   */
  lemma ConfiguredLimitKept(beampols: nat)
    requires 1 <= beampols <= 4
    ensures MaxFrames(ConfiguredMaxFrames, beampols) == Ok(ConfiguredMaxFrames)
  {
    var c := ConfiguredMaxFrames;
    assert c == (c / beampols) * beampols by {
      if beampols == 1 {
      } else if beampols == 2 {
        assert c == 28716 * 2;
      } else if beampols == 3 {
        assert c == 19144 * 3;
      } else {
        assert c == 14358 * 4;
      }
    }
  }

  /** `int(ceil(1.0*nFrames/maxFrames))`, the number of chunks, computed exactly. */
  function NumChunks(nFrames: nat, maxFrames: nat): (r: Result<nat, SizeError>)
    ensures r.Err? <==> maxFrames == 0
    ensures r.Err? ==> r.error == ZeroDivisionError
    ensures r.Ok? ==> r.value * maxFrames >= nFrames && (r.value - 1) * maxFrames < nFrames
  {
    if maxFrames == 0 then Err(ZeroDivisionError)
    else
      var c := (nFrames + maxFrames - 1) / maxFrames;
      assert nFrames + maxFrames - 1 == c * maxFrames + (nFrames + maxFrames - 1) % maxFrames;
      Ok(c)
  }

  /** The two sanity checks, in the order they are made. */
  function SanityCheck(offset: int, nFrames: int, nFramesFile: int): (r: Option<SizeError>)
    ensures r == Some(OffsetPastEnd) <==> offset > nFramesFile
    ensures r == Some(IntegrationPastEnd) <==> offset <= nFramesFile && offset + nFrames > nFramesFile
    ensures r == None <==> offset <= nFramesFile && offset + nFrames <= nFramesFile
  {
    if offset > nFramesFile then Some(OffsetPastEnd)
    else if nFrames > nFramesFile - offset then Some(IntegrationPastEnd)
    else None
  }

  /** The frames read in chunk i: what remains, but never more than maxFrames. */
  function FramesWork(nFrames: int, maxFrames: int, i: nat): (w: int)
    ensures w <= maxFrames && w <= nFrames - i * maxFrames
    ensures w == maxFrames || w == nFrames - i * maxFrames
  {
    var framesRemaining := nFrames - i * maxFrames;
    if framesRemaining > maxFrames then maxFrames else framesRemaining
  }

  /** The frames read by the first k chunks. */
  function ChunkTotal(nFrames: int, maxFrames: int, k: nat): (t: int)
    ensures t <= k * maxFrames
  {
    if k == 0 then 0
    else
      assert (k - 1) * maxFrames + maxFrames == k * maxFrames;
      ChunkTotal(nFrames, maxFrames, k - 1) + FramesWork(nFrames, maxFrames, k - 1)
  }

  lemma MulMonotone(a: int, b: int, m: nat)
    requires a <= b
    ensures a * m <= b * m
  {
  }

  /** Every chunk reads at least one frame and at most maxFrames. */
  lemma ChunkSizes(nFrames: nat, maxFrames: nat, i: nat)
    requires NumChunks(nFrames, maxFrames).Ok? && i < NumChunks(nFrames, maxFrames).value
    ensures 1 <= FramesWork(nFrames, maxFrames, i) <= maxFrames
  {
    MulMonotone(i, NumChunks(nFrames, maxFrames).value - 1, maxFrames);
  }

  /** The first k chunks read min(nFrames, k*maxFrames) frames. */
  lemma {:induction false} ChunkTotalPrefix(nFrames: nat, maxFrames: nat, k: nat)
    requires NumChunks(nFrames, maxFrames).Ok? && k <= NumChunks(nFrames, maxFrames).value
    ensures ChunkTotal(nFrames, maxFrames, k) == if k * maxFrames <= nFrames then k * maxFrames else nFrames
  {
    if k > 0 {
      ChunkTotalPrefix(nFrames, maxFrames, k - 1);
      MulMonotone(k - 1, NumChunks(nFrames, maxFrames).value - 1, maxFrames);
      assert k * maxFrames == (k - 1) * maxFrames + maxFrames;
    }
  }

  /**
   * Together the chunks read exactly nFrames frames, and when the sanity
   * checks pass they stay inside the file.
   */
  lemma ChunksCoverIntegration(offset: int, nFrames: nat, maxFrames: nat, nFramesFile: int)
    requires NumChunks(nFrames, maxFrames).Ok?
    ensures ChunkTotal(nFrames, maxFrames, NumChunks(nFrames, maxFrames).value) == nFrames
    ensures SanityCheck(offset, nFrames, nFramesFile) == None ==>
              offset + ChunkTotal(nFrames, maxFrames, NumChunks(nFrames, maxFrames).value) <= nFramesFile
  {
    ChunkTotalPrefix(nFrames, maxFrames, NumChunks(nFrames, maxFrames).value);
  }

  /*
   * The first-seen code table.
   */

  predicate NoDuplicates(s: seq<int>)
  {
    forall a, b :: 0 <= a < b < |s| ==> s[a] != s[b]
  }

  /** `list.index`: the position of the first occurrence of x. */
  function IndexOf(s: seq<int>, x: int): (i: nat)
    requires x in s
    ensures i < |s| && s[i] == x
    ensures forall k :: 0 <= k < i ==> s[k] != x
  {
    if s[0] == x then 0
    else
      assert s == [s[0]] + s[1..];
      1 + IndexOf(s[1..], x)
  }

  /** Without duplicates, the position of an element is the only one holding it. */
  lemma IndexOfUnique(s: seq<int>, i: nat)
    requires NoDuplicates(s) && i < |s|
    ensures IndexOf(s, s[i]) == i
  {
  }

  /** Appending never moves an element already in the table. */
  lemma IndexOfStable(s: seq<int>, t: seq<int>, x: int)
    requires x in s
    ensures IndexOf(s + t, x) == IndexOf(s, x)
  {
    var i := IndexOf(s, x);
    var j := IndexOf(s + t, x);
    assert (s + t)[i] == x;

  }

  /** The table after a frame with this code arrives: appended on first sight only. */
  function Registered(mapper: seq<int>, code: int): (r: seq<int>)
    ensures NoDuplicates(mapper) ==> NoDuplicates(r)
    ensures code in r && |r| <= |mapper| + 1
    ensures forall x :: x in mapper ==> x in r && IndexOf(r, x) == IndexOf(mapper, x)
    ensures forall x :: x in r ==> x in mapper || x == code
    ensures code in mapper ==> r == mapper
    ensures code !in mapper ==> r == mapper + [code] && IndexOf(r, code) == |mapper|
  {
    var r := if code in mapper then mapper else mapper + [code];
    forall x | x in mapper
      ensures IndexOf(r, x) == IndexOf(mapper, x)
    {
      IndexOfStable(mapper, r[|mapper|..], x);
      assert mapper + r[|mapper|..] == r;
    }
    r
  }

  datatype RecordError =
    | IndexError   // the row index is past the array's first dimension
    | ValueError   // the frame's 4096 samples do not fit in the rest of the row

  /**
   * One chunk's state: the code table (kept across chunks), the per-row frame
   * counters and the power array (both rebuilt for every chunk).
   */
  class PowerChunk {
    var standMapper: seq<int>
    var count: map<nat, nat>
    var data: array2<real>

    /** Every code once; counters only for known rows, never past the row's end. */
    predicate Valid()
      reads this
    {
      NoDuplicates(standMapper) &&
      forall idx :: idx in count ==> idx < |standMapper| && count[idx] * SamplesPerFrame <= data.Length1
    }

    /** The state before the first chunk: `standMapper = []`. */
    constructor ()
      ensures Valid() && standMapper == [] && count == map[]
    {
      standMapper := [];
      count := map[];
      data := new real[0, 0];
    }

    /** `count = {}` and a zeroed `(beampols, framesWork*4096/beampols)` array. */
    method NewChunk(beampols: nat, framesWork: nat)
      requires beampols > 0 && Valid()
      modifies this
      ensures Valid() && fresh(data)
      ensures standMapper == old(standMapper) && count == map[]
      ensures data.Length0 == beampols && data.Length1 == framesWork * SamplesPerFrame / beampols
      ensures forall a, b :: 0 <= a < data.Length0 && 0 <= b < data.Length1 ==> data[a, b] == 0.0
    {
      count := map[];
      data := new real[beampols, framesWork * SamplesPerFrame / beampols]((_, _) => 0.0);
    }

    /** The counter a row has before the next frame is stored. */
    function Prior(idx: nat): nat
      reads this
    {
      if idx in count then count[idx] else 0
    }

    /**
     * Files one frame's sample powers: registers the code on first sight,
     * starts the row's counter at 0 if needed, writes the powers to samples
     * [4096n, 4096(n+1)) of the row for the row's n-th frame and bumps the
     * counter. A row past the array or a frame overrunning the row is an
     * error raised after the table and counter have been updated.
     */
    method Record(id: DrxId, power: seq<real>) returns (r: Result<nat, RecordError>)
      requires Valid() && |power| == SamplesPerFrame
      modifies this, data
      ensures Valid() && data == old(data)
      ensures standMapper == Registered(old(standMapper), StandCode(id))
      ensures var idx := IndexOf(standMapper, StandCode(id));
              var n := old(Prior(idx));
              && (r.Ok? <==> idx < data.Length0 && (n + 1) * SamplesPerFrame <= data.Length1)
              && (r.Err? ==> (r.error == IndexError <==> idx >= data.Length0))
              && (r.Ok? ==> r.value == idx && count == old(count)[idx := n + 1])
              && (r.Err? ==> count == old(count)[idx := n] && unchanged(data))
              && forall a, b :: 0 <= a < data.Length0 && 0 <= b < data.Length1 ==>
                   data[a, b] == if r.Ok? && a == idx && n * SamplesPerFrame <= b < (n + 1) * SamplesPerFrame
                                 then power[b - n * SamplesPerFrame] else old(data[a, b])
    {
      var code := StandCode(id);
      standMapper := Registered(standMapper, code);
      var idx := IndexOf(standMapper, code);
      var n := Prior(idx);
      count := count[idx := n];
      if idx >= data.Length0 {
        return Err(IndexError);
      }
      var start := n * SamplesPerFrame;
      if start + SamplesPerFrame > data.Length1 {
        return Err(ValueError);
      }
      forall s | 0 <= s < SamplesPerFrame {
        data[idx, start + s] := power[s];
      }
      count := count[idx := n + 1];
      r := Ok(idx);
    }
  }

  /** Two frames of one row, filed as its m-th and n-th, occupy disjoint sample ranges. */
  lemma FrameSlotsDisjoint(m: nat, n: nat, b: int)
    requires m != n
    ensures !(m * SamplesPerFrame <= b < (m + 1) * SamplesPerFrame && n * SamplesPerFrame <= b < (n + 1) * SamplesPerFrame)
  {
  }

  /*
   * Plotting order: `sorted(standMapper)`, each mapped back with `index`.
   */

  /** The array rows visited by the plotting loop, in plotting order. */
  function PlotRows(mapper: seq<int>): (rows: seq<nat>)
    ensures |rows| == |mapper|
    ensures forall k :: 0 <= k < |rows| ==> rows[k] < |mapper|
  {
    var sorted := Sorting.Sort(mapper, Sorting.IntLe);
    assert |sorted| == |multiset(sorted)| == |multiset(mapper)| == |mapper|;
    seq(|mapper|, k requires 0 <= k < |mapper| =>
      assert sorted[k] in multiset(mapper);
      IndexOf(mapper, sorted[k]))
  }

  lemma {:induction false} NoDuplicatesCount(s: seq<int>, x: int)
    requires NoDuplicates(s)
    ensures multiset(s)[x] <= 1
  {
    if s != [] {
      assert s == [s[0]] + s[1..];
      NoDuplicatesCount(s[1..], x);
      if x == s[0] {
        assert x !in s[1..];
      }
    }
  }

  lemma RepeatCount(s: seq<int>, a: nat, b: nat)
    requires a < b < |s| && s[a] == s[b]
    ensures multiset(s)[s[a]] >= 2
  {
    assert s == s[..b] + s[b..];
    assert s[a] == s[..b][a];
    assert s[b] == s[b..][0];
  }

  /**
   * With a duplicate-free table, the plotting loop visits every row of the
   * array exactly once, in ascending order of the codes they hold.
   */
  lemma PlotVisitsEachRowOnce(mapper: seq<int>)
    requires NoDuplicates(mapper)
    ensures forall a, b :: 0 <= a < b < |mapper| ==> PlotRows(mapper)[a] != PlotRows(mapper)[b]
    ensures forall row :: 0 <= row < |mapper| ==> row in PlotRows(mapper)
    ensures forall a, b :: 0 <= a < b < |mapper| ==> mapper[PlotRows(mapper)[a]] < mapper[PlotRows(mapper)[b]]
  {
    var rows, sorted := PlotRows(mapper), Sorting.Sort(mapper, Sorting.IntLe);
    Sorting.IntLeTotal();
    Sorting.SortSorted(mapper, Sorting.IntLe);
    assert |sorted| == |multiset(sorted)| == |multiset(mapper)| == |mapper|;
    forall k | 0 <= k < |mapper|
      ensures mapper[rows[k]] == sorted[k]
    {
      assert sorted[k] in multiset(mapper);
    }
    forall a, b | 0 <= a < b < |mapper|
      ensures mapper[rows[a]] < mapper[rows[b]]
    {
      if sorted[a] == sorted[b] {
        RepeatCount(sorted, a, b);
        NoDuplicatesCount(mapper, sorted[a]);
      }
    }
    forall row | 0 <= row < |mapper|
      ensures row in rows
    {
      assert mapper[row] in multiset(sorted);
      var k :| 0 <= k < |sorted| && sorted[k] == mapper[row];
      IndexOfUnique(mapper, row);
      assert rows[k] == row;
    }
  }
}
