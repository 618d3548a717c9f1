/**
 * Splitting a multi-frequency TBN visibility file into one file per centre
 * frequency. The rows of the input are grouped by the distinct values of
 * their centre frequency (ascending, as numpy.unique returns them); the last
 * row of every group is dropped because it may straddle a frequency change;
 * groups left with fewer than 20 rows are skipped; the others become output
 * records named after the input with `.npz` replaced by `-NNN.npz`, NNN the
 * 1-based rank of the frequency among all distinct frequencies.
 */
module SplitMultiVis {
  import opened Wrappers

  /** The extension replaced in the output names. */
  const Extension: string := ".npz"
  /** Groups with fewer kept rows than this are skipped. */
  const MinIntegrations: nat := 20

  /** The scalar entries copied unchanged into every output. */
  datatype Header = Header(refAnt: int, refX: real, refY: real, tInt: real)

  /** One `numpy.savez` call: the output name and the arrays written. */
  datatype SplitFile<V> = SplitFile(name: string, header: Header, centralFreq: real, times: seq<real>, simpleVis: seq<V>)

  /** `uFreq.min()` on an empty frequency array. */
  datatype SplitError = ValueError

  /*
   * numpy.unique
   */

  predicate StrictlyIncreasing(s: seq<real>)
  {
    forall a, b :: 0 <= a < b < |s| ==> s[a] < s[b]
  }

  lemma IncreasingCons(h: real, t: seq<real>)
    requires StrictlyIncreasing(t) && forall y :: y in t ==> h < y
    ensures StrictlyIncreasing([h] + t)
  {
    var r := [h] + t;
    forall a, b | 0 <= a < b < |r|
      ensures r[a] < r[b]
    {
      assert r[b] == t[b - 1] && t[b - 1] in t;
      if a > 0 {
        assert r[a] == t[a - 1];
      }
    }
  }

  /** Adds x to an ascending list of distinct values. */
  function InsertUnique(x: real, u: seq<real>): (r: seq<real>)
    ensures forall y :: y in r <==> y == x || y in u
  {
    if u == [] || x < u[0] then [x] + u
    else if x == u[0] then u
    else
      assert u == [u[0]] + u[1..];
      [u[0]] + InsertUnique(x, u[1..])
  }

  lemma {:induction false} InsertUniqueIncreasing(x: real, u: seq<real>)
    requires StrictlyIncreasing(u)
    ensures StrictlyIncreasing(InsertUnique(x, u))
  {
    if u == [] || x < u[0] {
      forall y | y in u
        ensures x < y
      {
        var k :| 0 <= k < |u| && u[k] == y;
        assert u[0] <= u[k];
      }
      IncreasingCons(x, u);
    } else if x > u[0] {
      InsertUniqueIncreasing(x, u[1..]);
      forall y | y in InsertUnique(x, u[1..])
        ensures u[0] < y
      {
        if y != x {
          var k :| 0 <= k < |u[1..]| && u[1..][k] == y;
          assert u[k + 1] == y;
        }
      }
      IncreasingCons(u[0], InsertUnique(x, u[1..]));
    }
  }

  /** `numpy.unique`: the distinct values, ascending. */
  function Unique(xs: seq<real>): (u: seq<real>)
    ensures StrictlyIncreasing(u)
    ensures forall y :: y in u <==> y in xs
  {
    if xs == [] then []
    else
      var front := Unique(xs[..|xs| - 1]);
      assert xs == xs[..|xs| - 1] + [xs[|xs| - 1]];
      InsertUniqueIncreasing(xs[|xs| - 1], front);
      InsertUnique(xs[|xs| - 1], front)
  }

  /** The head of an ascending list is its least element. */
  lemma IncreasingHeadLeast(a: seq<real>, y: real)
    requires StrictlyIncreasing(a) && y in a
    ensures a[0] <= y
  {
    var k :| 0 <= k < |a| && a[k] == y;
    if k > 0 {
      assert a[0] < a[k];
    }
  }

  /** With equal heads and equal elements, what follows the head of a follows the head of b. */
  lemma IncreasingTailMember(a: seq<real>, b: seq<real>, y: real)
    requires StrictlyIncreasing(a) && StrictlyIncreasing(b) && a != [] && b != [] && a[0] == b[0]
    requires forall z :: z in a <==> z in b
    requires y in a[1..]
    ensures y in b[1..]
  {
    var k :| 0 <= k < |a[1..]| && a[1..][k] == y;
    assert a[0] < a[k + 1] && a[k + 1] in a;
    var m :| 0 <= m < |b| && b[m] == y;
    assert m > 0 && b[1..][m - 1] == y;
  }

  /** An ascending list of distinct values is determined by its elements. */
  lemma {:induction false} IncreasingDeterminedByElements(a: seq<real>, b: seq<real>)
    requires StrictlyIncreasing(a) && StrictlyIncreasing(b)
    requires forall y :: y in a <==> y in b
    ensures a == b
  {
    if a != [] {
      assert a[0] in a;
    }
    if b != [] {
      assert b[0] in b;
    }
    if a != [] && b != [] {
      IncreasingHeadLeast(a, b[0]);
      IncreasingHeadLeast(b, a[0]);
      forall y
        ensures y in a[1..] <==> y in b[1..]
      {
        if y in a[1..] {
          IncreasingTailMember(a, b, y);
        }
        if y in b[1..] {
          IncreasingTailMember(b, a, y);
        }
      }
      IncreasingDeterminedByElements(a[1..], b[1..]);
      assert a == [a[0]] + a[1..] && b == [b[0]] + b[1..];
    }
  }

  /*
   * numpy.where(centralFreqs == f)[0] and the trim `[:-1]`.
   */

  predicate IncreasingIndices(s: seq<nat>)
  {
    forall a, b :: 0 <= a < b < |s| ==> s[a] < s[b]
  }

  /** The ascending positions holding f. */
  function Positions(xs: seq<real>, f: real): (p: seq<nat>)
    ensures |p| <= |xs|
  {
    if xs == [] then []
    else
      var n := |xs| - 1;
      Positions(xs[..n], f) + (if xs[n] == f then [n] else [])
  }

  /** numpy.where: exactly the positions holding f, ascending. */
  lemma PositionsSpec(xs: seq<real>, f: real)
    ensures var p := Positions(xs, f);
            && (forall k: nat :: k in p <==> k < |xs| && xs[k] == f)
            && IncreasingIndices(p)
  {
    PositionsMembers(xs, f);
    PositionsIncreasing(xs, f);
  }

  lemma {:induction false} PositionsMembers(xs: seq<real>, f: real)
    ensures forall k: nat :: k in Positions(xs, f) <==> k < |xs| && xs[k] == f
  {
    if xs != [] {
      var n := |xs| - 1;
      var front := Positions(xs[..n], f);
      var extra: seq<nat> := if xs[n] == f then [n] else [];
      PositionsMembers(xs[..n], f);
      assert Positions(xs, f) == front + extra;
      forall k: nat
        ensures k in front + extra <==> k < |xs| && xs[k] == f
      {
        assert k in front + extra <==> k in front || k in extra;
        if k < n {
          assert xs[..n][k] == xs[k];
        }
      }
    }
  }

  lemma {:induction false} PositionsIncreasing(xs: seq<real>, f: real)
    ensures IncreasingIndices(Positions(xs, f))
  {
    if xs != [] {
      var n := |xs| - 1;
      var front := Positions(xs[..n], f);
      var extra: seq<nat> := if xs[n] == f then [n] else [];
      PositionsIncreasing(xs[..n], f);
      PositionsMembers(xs[..n], f);
      var p := front + extra;
      assert Positions(xs, f) == p;
      forall a, b | 0 <= a < b < |p|
        ensures p[a] < p[b]
      {
        if b >= |front| {
          assert p[b] == n && p[a] == front[a] && front[a] in front;
        }
      }
    }
  }

  /** There are as many positions as occurrences. */
  lemma {:induction false} PositionsCount(xs: seq<real>, f: real)
    ensures |Positions(xs, f)| == multiset(xs)[f]
  {
    if xs != [] {
      var n := |xs| - 1;
      PositionsCount(xs[..n], f);
      var extra: seq<nat> := if xs[n] == f then [n] else [];
      assert Positions(xs, f) == Positions(xs[..n], f) + extra;
      assert multiset(xs)[f] == multiset(xs[..n])[f] + |extra| by {
        assert xs == xs[..n] + [xs[n]];
        assert multiset(xs) == multiset(xs[..n]) + multiset{xs[n]};
      }
    }
  }

  /** `toKeep[:-1]`: everything but the last element (nothing, for an empty list). */
  function DropLast(p: seq<nat>): (q: seq<nat>)
    ensures |q| == if p == [] then 0 else |p| - 1
    ensures forall a :: 0 <= a < |q| ==> q[a] == p[a]
  {
    if p == [] then [] else p[..|p| - 1]
  }

  /** The rows kept for the group of frequency f. */
  function Kept(freqs: seq<real>, f: real): seq<nat>
  {
    DropLast(Positions(freqs, f))
  }

  /**
   * The kept rows of a frequency present in the input all hold f, in
   * ascending order, and there is one fewer than its occurrences.
   */
  lemma KeptRows(freqs: seq<real>, f: real)
    requires f in freqs
    ensures var kept := Kept(freqs, f);
            && |kept| == multiset(freqs)[f] - 1
            && IncreasingIndices(kept)
            && forall a :: 0 <= a < |kept| ==> kept[a] < |freqs| && freqs[kept[a]] == f
  {
    PositionsCount(freqs, f);
    PositionsSpec(freqs, f);
    var p := Positions(freqs, f);
    var kept := Kept(freqs, f);
    forall a | 0 <= a < |kept|
      ensures kept[a] < |freqs| && freqs[kept[a]] == f
    {
      assert kept[a] == p[a] && p[a] in p;
    }
  }

  /**
   * Exactly one occurrence of a present frequency is not kept, the last
   * one: every kept row precedes it and every other occurrence is kept.
   */
  lemma KeptDropsLast(freqs: seq<real>, f: real)
    requires f in freqs
    ensures exists last :: 0 <= last < |freqs| && freqs[last] == f && last !in Kept(freqs, f) &&
              (forall a :: 0 <= a < |Kept(freqs, f)| ==> Kept(freqs, f)[a] < last) &&
              (forall k :: 0 <= k < |freqs| && freqs[k] == f && k != last ==> k in Kept(freqs, f))
  {
    PositionsSpec(freqs, f);
    var p := Positions(freqs, f);
    var k0 :| 0 <= k0 < |freqs| && freqs[k0] == f;
    assert k0 in p;
    var kept := Kept(freqs, f);
    var last := p[|p| - 1];
    assert last in p;
    forall a | 0 <= a < |kept|
      ensures kept[a] < last
    {
      assert kept[a] == p[a];
    }
    forall k | 0 <= k < |freqs| && freqs[k] == f && k != last
      ensures k in kept
    {
      assert k in p;
      var a :| 0 <= a < |p| && p[a] == k;
      assert kept[a] == k;
    }
    assert last !in kept;
  }

  /*
   * Output names: `filename.replace('.npz', '-%03i.npz' % rank)`.
   */

  function DigitChar(d: nat): char
    requires d < 10
  {
    "0123456789"[d]
  }

  function DigitValue(c: char): nat
  {
    if '0' <= c <= '9' then (c - '0') as nat else 0
  }

  predicate AllDigits(s: string)
  {
    forall a :: 0 <= a < |s| ==> '0' <= s[a] <= '9'
  }

  /** `%i`: the decimal digits of n, without leading zeros. */
  function Decimal(n: nat): (s: string)
    ensures |s| >= 1 && AllDigits(s)
    ensures n >= 10 ==> s[0] != '0'
  {
    if n < 10 then [DigitChar(n)] else Decimal(n / 10) + [DigitChar(n % 10)]
  }

  /** `%03i`: the decimal digits, zero-padded on the left to at least three characters. */
  function Pad3(n: nat): (s: string)
    ensures AllDigits(s) && |s| >= 3
    ensures n < 1000 ==> |s| == 3
  {
    var digits := Decimal(n);
    DecimalLength(n);
    if |digits| >= 3 then digits else seq(3 - |digits|, _ => '0') + digits
  }

  lemma {:induction false} DecimalLength(n: nat)
    ensures n < 10 ==> |Decimal(n)| == 1
    ensures n < 100 ==> |Decimal(n)| <= 2
    ensures n < 1000 ==> |Decimal(n)| <= 3
  {
    if n >= 10 {
      DecimalLength(n / 10);
    }
  }

  /** Reads a string of decimal digits back. */
  function ParseDecimal(s: string): nat
  {
    if s == [] then 0 else ParseDecimal(s[..|s| - 1]) * 10 + DigitValue(s[|s| - 1])
  }

  lemma DigitRoundTrip(d: nat)
    requires d < 10
    ensures DigitValue(DigitChar(d)) == d
  {
  }

  lemma {:induction false} ParseDecimalRoundTrip(n: nat)
    ensures ParseDecimal(Decimal(n)) == n
  {
    if n < 10 {
      DigitRoundTrip(n);
      assert Decimal(n)[..0] == [];
    } else {
      ParseDecimalRoundTrip(n / 10);
      DigitRoundTrip(n % 10);
      var s := Decimal(n);
      assert s[..|s| - 1] == Decimal(n / 10) && s[|s| - 1] == DigitChar(n % 10);
    }
  }

  lemma {:induction false} LeadingZeros(z: nat, d: string)
    ensures ParseDecimal(seq(z, _ => '0') + d) == ParseDecimal(d)
    decreases |d|
  {
    var s := seq(z, _ => '0') + d;
    if d == [] {
      assert s == seq(z, _ => '0');
      Zeros(z);
    } else {
      assert s[..|s| - 1] == seq(z, _ => '0') + d[..|d| - 1];
      LeadingZeros(z, d[..|d| - 1]);
    }
  }

  lemma {:induction false} Zeros(z: nat)
    ensures ParseDecimal(seq(z, _ => '0')) == 0
  {
    if z > 0 {
      assert seq(z, _ => '0')[..z - 1] == seq(z - 1, _ => '0');
      Zeros(z - 1);
    }
  }

  /** The padded rank reads back as the rank, so distinct ranks get distinct names. */
  lemma Pad3RoundTrip(n: nat)
    ensures ParseDecimal(Pad3(n)) == n
  {
    ParseDecimalRoundTrip(n);
    var digits := Decimal(n);
    if |digits| < 3 {
      LeadingZeros(3 - |digits|, digits);
    }
  }

  /** pat occurs in s starting at position p. */
  predicate OccursAt(s: string, pat: string, p: int)
  {
    0 <= p && p + |pat| <= |s| && s[p..p + |pat|] == pat
  }

  /** pat does not occur anywhere in s. */
  predicate Absent(s: string, pat: string)
  {
    forall p :: 0 <= p <= |s| ==> !OccursAt(s, pat, p)
  }

  /** `str.replace`: every non-overlapping occurrence of pat, left to right, replaced by rep. */
  function ReplaceAll(s: string, pat: string, rep: string): (r: string)
    requires pat != []
    decreases |s|
  {
    if |s| < |pat| then s
    else if s[..|pat|] == pat then rep + ReplaceAll(s[|pat|..], pat, rep)
    else [s[0]] + ReplaceAll(s[1..], pat, rep)
  }

  /** Dropping the first character keeps an absent pattern absent. */
  lemma AbsentTail(s: string, pat: string)
    requires s != [] && Absent(s, pat)
    ensures Absent(s[1..], pat)
  {
    forall p | OccursAt(s[1..], pat, p)
      ensures false
    {
      assert s[1..][p..p + |pat|] == s[p + 1..p + 1 + |pat|];
      assert OccursAt(s, pat, p + 1);
    }
  }

  /** A name without the extension anywhere is returned unchanged. */
  lemma {:induction false} ReplaceAbsent(s: string, pat: string, rep: string)
    requires pat != [] && Absent(s, pat)
    ensures ReplaceAll(s, pat, rep) == s
    decreases |s|
  {
    if |s| >= |pat| {
      assert !OccursAt(s, pat, 0);
      AbsentTail(s, pat);
      ReplaceAbsent(s[1..], pat, rep);
      assert s == [s[0]] + s[1..];
    }
  }

  /**
   * A name `stem.npz` whose stem does not contain `.npz` has exactly its
   * final extension replaced.
   */
  lemma {:induction false} ReplaceExtension(stem: string, rep: string)
    requires Absent(stem, Extension)
    ensures ReplaceAll(stem + Extension, Extension, rep) == stem + rep
    decreases |stem|
  {
    var s := stem + Extension;
    if stem == [] {
      assert s[|Extension|..] == [];
    } else {
      if |stem| >= 4 {
        assert !OccursAt(stem, Extension, 0);
        assert s[..4] == stem[0..4];
      } else {
        assert s[..4][|stem|] == Extension[0];
        assert Extension[|stem|] != Extension[0];
      }
      AbsentTail(stem, Extension);
      ReplaceExtension(stem[1..], rep);
      assert s[1..] == stem[1..] + Extension;
    }
  }

  /** What each `.npz` becomes: `-NNN.npz`, NNN the zero-padded rank. */
  function Numbered(rank: nat): string
  {
    "-" + Pad3(rank) + Extension
  }

  /** The output name for the group of the rank-th distinct frequency (1-based). */
  function OutputName(filename: string, rank: nat): (r: string)
    ensures Absent(filename, Extension) ==> r == filename
  {
    var rep := Numbered(rank);
    if Absent(filename, Extension) then
      ReplaceAbsent(filename, Extension, rep);
      ReplaceAll(filename, Extension, rep)
    else
      ReplaceAll(filename, Extension, rep)
  }

  /** `stem.npz`, with no other `.npz` in it, gives `stem-NNN.npz`. */
  lemma OutputNameOfNpz(stem: string, rank: nat)
    requires Absent(stem, Extension)
    ensures OutputName(stem + Extension, rank) == stem + Numbered(rank)
  {
    ReplaceExtension(stem, Numbered(rank));
  }

  lemma OutputNameReplaces(filename: string, rank: nat)
    ensures OutputName(filename, rank) == ReplaceAll(filename, Extension, Numbered(rank))
  {
  }

  /**
   * Occurrence by occurrence: the text before the first occurrence is kept,
   * that occurrence becomes rep, and the rest is replaced on its own.
   */
  lemma {:induction false} ReplaceFirst(a: string, pat: string, b: string, rep: string)
    requires pat != []
    requires forall p :: 0 <= p < |a| ==> !OccursAt(a + pat + b, pat, p)
    ensures ReplaceAll(a + pat + b, pat, rep) == a + rep + ReplaceAll(b, pat, rep)
    decreases |a|
  {
    var s := a + pat + b;
    if a == [] {
      assert s[..|pat|] == pat && s[|pat|..] == b;
    } else {
      assert !OccursAt(s, pat, 0);
      var t := a[1..] + pat + b;
      assert s[1..] == t;
      assert ReplaceAll(s, pat, rep) == [s[0]] + ReplaceAll(t, pat, rep);
      forall p | 0 <= p < |a| - 1
        ensures !OccursAt(t, pat, p)
      {
        assert !OccursAt(s, pat, p + 1);
        assert t[p..p + |pat|] == s[p + 1..p + 1 + |pat|];
      }
      ReplaceFirst(a[1..], pat, b, rep);
      assert [s[0]] + (a[1..] + rep + ReplaceAll(b, pat, rep)) == a + rep + ReplaceAll(b, pat, rep) by {
        assert a == [a[0]] + a[1..];
      }
    }
  }

  /**
   * A name with `.npz` first at the end of a: a kept, that `.npz` numbered,
   * and the rest of the name (further `.npz` included) numbered the same way.
   */
  lemma OutputNameAtFirstExtension(a: string, b: string, rank: nat)
    requires forall p :: 0 <= p < |a| ==> !OccursAt(a + Extension + b, Extension, p)
    ensures OutputName(a + Extension + b, rank) == a + Numbered(rank) + OutputName(b, rank)
  {
    ReplaceFirst(a, Extension, b, Numbered(rank));
    OutputNameReplaces(a + Extension + b, rank);
    OutputNameReplaces(b, rank);
  }

  /*
   * The split.
   */

  /**
   * The record written for frequency f, the rank-th distinct one (1-based),
   * or None when its group is skipped.
   */
  function GroupFile<V>(filename: string, header: Header, freqs: seq<real>, times: seq<real>, vis: seq<V>, f: real, rank: nat): (g: Option<SplitFile<V>>)
    requires |times| == |freqs| && |vis| == |freqs|
    ensures g.Some? <==> |Kept(freqs, f)| >= MinIntegrations
    ensures g.Some? ==> g.value.name == OutputName(filename, rank) && g.value.header == header && g.value.centralFreq == f
  {
    var kept := Kept(freqs, f);
    if |kept| < MinIntegrations then None
    else
      PositionsSpec(freqs, f);
      assert forall a :: 0 <= a < |kept| ==> kept[a] in Positions(freqs, f);
      Some(SplitFile(OutputName(filename, rank), header, f,
                     seq(|kept|, a requires 0 <= a < |kept| => times[kept[a]]),
                     seq(|kept|, a requires 0 <= a < |kept| => vis[kept[a]])))
  }

  /**
   * A written record for a frequency present in the input holds one row
   * fewer than the frequency's occurrences, at least 20, and its times and
   * visibilities are taken from the same kept rows, all of which carry f.
   */
  lemma GroupFileRows<V>(filename: string, header: Header, freqs: seq<real>, times: seq<real>, vis: seq<V>, f: real, rank: nat)
    requires |times| == |freqs| && |vis| == |freqs| && f in freqs
    ensures var g := GroupFile(filename, header, freqs, times, vis, f, rank);
            && (g.Some? <==> multiset(freqs)[f] > MinIntegrations)
            && (g.Some? ==>
                  && |g.value.times| == |g.value.simpleVis| == multiset(freqs)[f] - 1
                  && forall a :: 0 <= a < |g.value.times| ==>
                       var row := Kept(freqs, f)[a];
                       row < |freqs| && freqs[row] == f && g.value.times[a] == times[row] && g.value.simpleVis[a] == vis[row])
  {
    KeptRows(freqs, f);
  }

  /** The values of the present entries, in order. */
  function Somes<T>(gs: seq<Option<T>>): (r: seq<T>)
    ensures |r| <= |gs|
  {
    if gs == [] then [] else (if gs[0].Some? then [gs[0].value] else []) + Somes(gs[1..])
  }

  /** A position at which a kept value was found. */
  lemma SomeAt<T>(gs: seq<Option<T>>, x: T) returns (j: nat)
    requires x in Somes(gs)
    ensures j < |gs| && gs[j] == Some(x)
  {
    SomesIff(gs, x);
    j :| 0 <= j < |gs| && gs[j] == Some(x);
  }

  lemma {:induction false} SomesIff<T>(gs: seq<Option<T>>, x: T)
    ensures x in Somes(gs) <==> Some(x) in gs
  {
    if gs != [] {
      SomesIff(gs[1..], x);
      assert gs == [gs[0]] + gs[1..];
    }
  }

  /** Present entries whose keys ascend with their position keep ascending once the gaps are dropped. */
  lemma {:induction false} SomesAscending<T>(gs: seq<Option<T>>, key: T -> real)
    requires forall i, j :: 0 <= i < j < |gs| && gs[i].Some? && gs[j].Some? ==> key(gs[i].value) < key(gs[j].value)
    ensures forall a, b :: 0 <= a < b < |Somes(gs)| ==> key(Somes(gs)[a]) < key(Somes(gs)[b])
  {
    if gs != [] {
      var rest := Somes(gs[1..]);
      SomesAscending(gs[1..], key);
      var out := Somes(gs);
      if gs[0].Some? {
        forall x | x in rest
          ensures key(gs[0].value) < key(x)
        {
          SomesIff(gs[1..], x);
          var j :| 0 <= j < |gs[1..]| && gs[1..][j] == Some(x);
          assert gs[j + 1] == Some(x);
        }
        forall a, b | 0 <= a < b < |out|
          ensures key(out[a]) < key(out[b])
        {
          assert out[b] == rest[b - 1] && rest[b - 1] in rest;
          if a > 0 {
            assert out[a] == rest[a - 1];
          }
        }
      }
    }
  }

  /** One entry per distinct frequency, in ascending order: its record, or None if skipped. */
  function Groups<V>(filename: string, header: Header, freqs: seq<real>, times: seq<real>, vis: seq<V>): (gs: seq<Option<SplitFile<V>>>)
    requires |times| == |freqs| && |vis| == |freqs|
    ensures |gs| == |Unique(freqs)|
    ensures forall j :: 0 <= j < |gs| ==> gs[j] == GroupFile(filename, header, freqs, times, vis, Unique(freqs)[j], j + 1)
  {
    var u := Unique(freqs);
    seq(|u|, j requires 0 <= j < |u| => GroupFile(filename, header, freqs, times, vis, u[j], j + 1))
  }

  /** The whole script: ValueError on an empty input, otherwise the records in rank order. */
  function Split<V>(filename: string, header: Header, freqs: seq<real>, times: seq<real>, vis: seq<V>): (r: Result<seq<SplitFile<V>>, SplitError>)
    requires |times| == |freqs| && |vis| == |freqs|
    ensures r.Err? <==> freqs == []
  {
    if freqs == [] then Err(ValueError)
    else Ok(Somes(Groups(filename, header, freqs, times, vis)))
  }

  /** The records come out in strictly ascending order of frequency. */
  lemma SplitAscending<V>(filename: string, header: Header, freqs: seq<real>, times: seq<real>, vis: seq<V>)
    requires |times| == |freqs| && |vis| == |freqs| && freqs != []
    ensures var out := Split(filename, header, freqs, times, vis).value;
            forall a, b :: 0 <= a < b < |out| ==> out[a].centralFreq < out[b].centralFreq
  {
    var u := Unique(freqs);
    var gs := Groups(filename, header, freqs, times, vis);
    var key := (file: SplitFile<V>) => file.centralFreq;
    forall i, j | 0 <= i < j < |gs| && gs[i].Some? && gs[j].Some?
      ensures key(gs[i].value) < key(gs[j].value)
    {
      assert key(gs[i].value) == u[i] && key(gs[j].value) == u[j];
    }
    SomesAscending(gs, key);
  }

  /** The record written for the rank j + 1 frequency is file. */
  ghost predicate WrittenFor<V>(filename: string, header: Header, freqs: seq<real>, times: seq<real>, vis: seq<V>, j: nat, file: SplitFile<V>)
    requires |times| == |freqs| && |vis| == |freqs|
  {
    j < |Unique(freqs)| && GroupFile(filename, header, freqs, times, vis, Unique(freqs)[j], j + 1) == Some(file)
  }

  /**
   * Every record the split writes belongs to one distinct frequency: its
   * group kept at least 20 rows and the record is named by its rank.
   */
  lemma {:induction false} SplitWritesOnlyGroups<V>(filename: string, header: Header, freqs: seq<real>, times: seq<real>, vis: seq<V>, file: SplitFile<V>)
    requires |times| == |freqs| && |vis| == |freqs| && freqs != []
    requires file in Split(filename, header, freqs, times, vis).value
    ensures exists j :: WrittenFor(filename, header, freqs, times, vis, j, file)
  {
    var gs := Groups(filename, header, freqs, times, vis);
    var j := SomeAt(gs, file);
    assert WrittenFor(filename, header, freqs, times, vis, j, file);
  }

  /** Every distinct frequency whose group keeps at least 20 rows gets its record written. */
  lemma {:induction false} SplitWritesEveryGroup<V>(filename: string, header: Header, freqs: seq<real>, times: seq<real>, vis: seq<V>, j: nat)
    requires |times| == |freqs| && |vis| == |freqs| && freqs != [] && j < |Unique(freqs)|
    requires |Kept(freqs, Unique(freqs)[j])| >= MinIntegrations
    ensures var g := GroupFile(filename, header, freqs, times, vis, Unique(freqs)[j], j + 1);
            g.Some? && g.value in Split(filename, header, freqs, times, vis).value
  {
    var gs := Groups(filename, header, freqs, times, vis);
    var g := GroupFile(filename, header, freqs, times, vis, Unique(freqs)[j], j + 1);
    assert gs[j] == g;
    SomesIff(gs, g.value);
  }
}
