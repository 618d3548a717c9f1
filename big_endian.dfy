/**
 * Unsigned big-endian integers over bytes: the encoding of the TBF header
 * fields (the 64-bit time tag and the 16-bit first channel).
 */
module BigEndian {
  import opened Arith

  type byte = x: int | 0 <= x < 256

  /** 256^n */
  function Pow256(n: nat): (r: nat)
    ensures r >= 1
  {
    if n == 0 then 1 else 256 * Pow256(n - 1)
  }

  /** The value of s read most-significant byte first. */
  function Decode(s: seq<byte>): nat
  {
    if s == [] then 0 else Decode(s[..|s| - 1]) * 256 + s[|s| - 1]
  }

  /** The n low-order bytes of v (taken modulo 256^n), most significant first. */
  function Encode(v: int, n: nat): (r: seq<byte>)
    ensures |r| == n
    decreases n
  {
    if n == 0 then [] else Encode(v / 256, n - 1) + [v % 256]
  }

  /** An n-byte field holds less than 256^n. */
  lemma {:induction false} DecodeBound(s: seq<byte>)
    ensures Decode(s) < Pow256(|s|)
  {
    if s != [] {
      DecodeBound(s[..|s| - 1]);
    }
  }

  lemma DivMod256(v: int, n: nat)
    ensures (v / 256) % Pow256(n) * 256 + v % 256 == v % Pow256(n + 1)
  {
    var q := v / 256;
    var p := Pow256(n);
    var a := q / p;
    var b := q % p;
    assert q == a * p + b;
    assert v == q * 256 + v % 256;
    assert v == a * (p * 256) + (b * 256 + v % 256) by {
      assert q * 256 == a * (p * 256) + b * 256;
    }
    ModUnique(v, p * 256, a, b * 256 + v % 256);
  }

  /** Decoding an encoding gives the value back, reduced modulo 256^n. */
  lemma {:induction false} DecodeEncode(v: int, n: nat)
    ensures Decode(Encode(v, n)) == v % Pow256(n)
    decreases n
  {
    if n > 0 {
      var e := Encode(v, n);
      assert e[..n - 1] == Encode(v / 256, n - 1);
      DecodeEncode(v / 256, n - 1);
      DivMod256(v, n - 1);
    }
  }

  /** Encoding a decoded field gives the same bytes: the codec loses nothing. */
  lemma {:induction false} EncodeDecode(s: seq<byte>)
    ensures Encode(Decode(s), |s|) == s
  {
    if s != [] {
      var init := s[..|s| - 1];
      var v := Decode(s);
      assert v / 256 == Decode(init) && v % 256 == s[|s| - 1];
      EncodeDecode(init);
      assert s == init + [s[|s| - 1]];
    }
  }
}
