/**
 * The two pieces of pure logic in the TBF multiplexer's main routine: the
 * check that the (sorted) start channels of all input files form one
 * contiguous run, and the derivation of the default output file name from the
 * longest suffix the input file names share.
 */
module TbfMuxMain {
  import opened Wrappers
  import Sorting

  /** Consecutive start channels are exactly 12 apart (one TBF frame holds 12 channels). */
  predicate StepsBy12(chans: seq<int>)
  {
    forall i :: 1 <= i < |chans| ==> chans[i] == chans[i - 1] + 12
  }

  /**
   * The channel continuity loop, run over the channel list as given (main
   * sorts it first, see CheckChannels).
   * On failure the RuntimeError carries the first increment that is not 12.
   */
  method CheckChannelIncrement(chans: seq<int>) returns (badIncrement: Option<int>)
    ensures badIncrement.None? <==> StepsBy12(chans)
    ensures badIncrement.Some? ==>
      exists i :: 1 <= i < |chans| && StepsBy12(chans[..i]) && chans[i] != chans[i - 1] + 12
        && badIncrement.value == chans[i] - chans[i - 1]
  {
    var i := 1;
    while i < |chans|
      invariant 1 <= i
      invariant |chans| > 0 ==> i <= |chans|
      invariant forall k :: 1 <= k < i && k < |chans| ==> chans[k] == chans[k - 1] + 12
    {
      if chans[i] != chans[i - 1] + 12 {
        assert StepsBy12(chans[..i]);
        return Some(chans[i] - chans[i - 1]);
      }
      i := i + 1;
    }
    badIncrement := None;
  }

  /** Channels that pass the check are the arithmetic run chans[0], chans[0] + 12, ... */
  lemma {:induction false} StepsBy12IsRun(chans: seq<int>, i: nat)
    requires StepsBy12(chans) && i < |chans|
    ensures chans[i] == chans[0] + 12 * i
  {
    if i > 0 {
      StepsBy12IsRun(chans, i - 1);
    }
  }

  /** ... and so no channel is listed twice. */
  lemma StepsBy12Distinct(chans: seq<int>, i: nat, j: nat)
    requires StepsBy12(chans) && i < j < |chans|
    ensures chans[i] < chans[j]
  {
    StepsBy12IsRun(chans, i);
    StepsBy12IsRun(chans, j);
  }

  /** The run c0, c0 + 12, ..., n channels long. */
  function Run(c0: int, n: nat): (r: seq<int>)
    ensures |r| == n && forall i :: 0 <= i < n ==> r[i] == c0 + 12 * i
  {
    seq(n, i => c0 + 12 * i)
  }

  /** The channels, in whatever order the files list them, are one run. */
  ghost predicate ContiguousChannels(chans: seq<int>)
  {
    chans == [] || exists c0 :: multiset(chans) == multiset(Run(c0, |chans|))
  }

  /** After `chans.sort()` the check passes exactly when the channels form one run. */
  lemma SortedStepsIffContiguous(chans: seq<int>)
    ensures StepsBy12(Sorting.Sort(chans, Sorting.IntLe)) <==> ContiguousChannels(chans)
  {
    var s := Sorting.Sort(chans, Sorting.IntLe);
    if chans != [] {
      if StepsBy12(s) {
        var run := Run(s[0], |s|);
        forall i | 0 <= i < |s|
          ensures s[i] == run[i]
        {
          StepsBy12IsRun(s, i);
        }
        assert s == run;
      }
      if ContiguousChannels(chans) {
        var c0 :| multiset(chans) == multiset(Run(c0, |chans|));
        var run := Run(c0, |chans|);
        assert Sorting.SortedBy(run, Sorting.IntLe);
        Sorting.IntLeTotal();
        Sorting.SortSorted(chans, Sorting.IntLe);
        Sorting.SortedUnique(s, run, Sorting.IntLe);
        assert StepsBy12(run);
      }
    }
  }

  /**
   * `chans.sort()` followed by the continuity check: the sorted list the
   * buffer is built from, and the first bad increment in it, if any.
   */
  method CheckChannels(chans: seq<int>) returns (sorted: seq<int>, badIncrement: Option<int>)
    ensures multiset(sorted) == multiset(chans) && Sorting.SortedBy(sorted, Sorting.IntLe)
    ensures badIncrement.None? <==> ContiguousChannels(chans)
    ensures badIncrement.Some? ==>
      exists i :: 1 <= i < |sorted| && StepsBy12(sorted[..i]) && sorted[i] != sorted[i - 1] + 12
        && badIncrement.value == sorted[i] - sorted[i - 1]
  {
    sorted := Sorting.Sort(chans, Sorting.IntLe);
    Sorting.IntLeTotal();
    Sorting.SortSorted(chans, Sorting.IntLe);
    SortedStepsIffContiguous(chans);
    badIncrement := CheckChannelIncrement(sorted);
  }

  /** os.path.basename: the text after the last '/'. */
  function Basename(path: string): (b: string)
    ensures '/' !in b
    ensures |b| <= |path| && path[|path| - |b|..] == b
    ensures |b| < |path| ==> path[|path| - |b| - 1] == '/'
  {
    if path == [] || path[|path| - 1] == '/' then []
    else Basename(path[..|path| - 1]) + [path[|path| - 1]]
  }

  predicate EndsWith(s: string, suffix: string)
  {
    |suffix| <= |s| && s[|s| - |suffix|..] == suffix
  }

  /**
   * Python's s[-k:] for k >= 1: the last k characters, or all of s when it is
   * shorter. (For k = 0 Python gives all of s; the loop never asks for that.)
   */
  function LastChars(s: string, k: nat): (r: string)
    requires k >= 1
    ensures |r| == if k <= |s| then k else |s|
    ensures EndsWith(s, r)
  {
    if k <= |s| then s[|s| - k..] else s
  }

  /** Every name ends with suffix (stated name by name; AllEndIff gives the quantified form). */
  predicate AllEnd(names: seq<string>, suffix: string)
    decreases |names|
  {
    names == [] || (AllEnd(names[..|names| - 1], suffix) && EndsWith(names[|names| - 1], suffix))
  }

  lemma {:induction false} AllEndIff(names: seq<string>, suffix: string)
    ensures AllEnd(names, suffix) <==> forall j :: 0 <= j < |names| ==> EndsWith(names[j], suffix)
    decreases |names|
  {
    if names != [] {
      var init := names[..|names| - 1];
      AllEndIff(init, suffix);
      assert forall j :: 0 <= j < |init| ==> init[j] == names[j];
    }
  }

  /** Every name ends with the last k characters of the first name. */
  predicate SharedSuffix(names: seq<string>, k: nat)
    requires |names| >= 1 && k <= |names[0]|
  {
    AllEnd(names, names[0][|names[0]| - k..])
  }

  lemma SharedSuffixDown(names: seq<string>, k: nat, k': nat)
    requires |names| >= 1 && k' <= k <= |names[0]|
    requires SharedSuffix(names, k)
    ensures SharedSuffix(names, k')
  {
    var n0 := names[0];
    AllEndIff(names, n0[|n0| - k..]);
    AllEndIff(names, n0[|n0| - k'..]);
    forall j | 0 <= j < |names|
      ensures EndsWith(names[j], n0[|n0| - k'..])
    {
      var n := names[j];
      assert n[|n| - k..] == n0[|n0| - k..];
      assert n[|n| - k'..] == n[|n| - k..][k - k'..];
      assert n0[|n0| - k'..] == n0[|n0| - k..][k - k'..];
    }
  }

  /** Every name ends with the empty string. */
  lemma SharedSuffixZero(names: seq<string>)
    requires |names| >= 1
    ensures SharedSuffix(names, 0)
  {
    var empty := names[0][|names[0]|..];
    forall j | 0 <= j < |names|
      ensures EndsWith(names[j], empty)
    {
      assert names[j][|names[j]|..] == [];
    }
    AllEndIff(names, empty);
  }

  /**
   * The longest shared suffix length, searched upwards from k, capped at one
   * character less than the first name.
   */
  function CommonSuffixLen(names: seq<string>, k: nat): (m: nat)
    requires |names| >= 1 && 1 <= |names[0]| && k < |names[0]|
    requires SharedSuffix(names, k)
    ensures k <= m < |names[0]| && SharedSuffix(names, m)
    ensures m + 1 < |names[0]| ==> !SharedSuffix(names, m + 1)
    decreases |names[0]| - k
  {
    if k + 1 < |names[0]| && SharedSuffix(names, k + 1) then CommonSuffixLen(names, k + 1) else k
  }

  /** No longer shared suffix fits under the cap: CommonSuffixLen is the maximum. */
  lemma CommonSuffixLenMaximal(names: seq<string>, k: nat, j: nat)
    requires |names| >= 1 && 1 <= |names[0]| && k < |names[0]| && SharedSuffix(names, k)
    requires CommonSuffixLen(names, k) < j < |names[0]|
    ensures !SharedSuffix(names, j)
  {
    var m := CommonSuffixLen(names, k);
    if SharedSuffix(names, j) {
      SharedSuffixDown(names, j, m + 1);
    }
  }

  /** Any shared length m at the cap or followed by an unshared length is the one CommonSuffixLen finds. */
  lemma CommonSuffixLenUnique(names: seq<string>, m: nat)
    requires |names| >= 1 && 1 <= |names[0]| && m < |names[0]|
    requires SharedSuffix(names, m)
    requires m + 1 < |names[0]| ==> !SharedSuffix(names, m + 1)
    ensures SharedSuffix(names, 0) && CommonSuffixLen(names, 0) == m
  {
    SharedSuffixDown(names, m, 0);
    var c := CommonSuffixLen(names, 0);
    if c < m {
      CommonSuffixLenMaximal(names, 0, m);
    } else if m < c {
      SharedSuffixDown(names, c, m + 1);
    }
  }

  datatype NameError = IndexError

  /**
   * The name-deriving loop never ends when the last name is itself a shared
   * suffix shorter than the first name: its suffix cannot grow any further.
   */
  predicate LoopSpins(names: seq<string>)
    requires |names| >= 1
  {
    var last := names[|names| - 1];
    1 <= |last| < |names[0]| && SharedSuffix(names, |last|)
  }

  /** When the loop spins, the last name is the suffix of that length of the first name. */
  lemma SpinningLastShared(names: seq<string>)
    requires |names| >= 1 && LoopSpins(names)
    ensures var first, last := names[0], names[|names| - 1];
      first[|first| - |last|..] == last
  {
    var first, last := names[0], names[|names| - 1];
    AllEndIff(names, first[|first| - |last|..]);
    assert last[|last| - |last|..] == last;
  }

  /** When the loop spins, every name ends with every non-empty suffix of the last name. */
  lemma SpinningSuffixShared(names: seq<string>, k: nat)
    requires |names| >= 1 && LoopSpins(names) && 1 <= k <= |names[|names| - 1]|
    ensures AllEnd(names, LastChars(names[|names| - 1], k))
  {
    var first, last := names[0], names[|names| - 1];
    SpinningLastShared(names);
    SharedSuffixDown(names, |last|, k);
    assert last[|last| - k..] == first[|first| - |last|..][|last| - k..];
  }

  /**
   * One round of the name-deriving loop as written, on values: when every
   * name ends with the candidate, the next candidate is cut from the last
   * name (the for-loop's variable); otherwise the candidate stays and the
   * loop is told to stop.
   */
  function RoundOf(names: seq<string>, common: string): (r: (string, bool))
    requires |names| >= 1 && |common| >= 1
    ensures |r.0| >= 1
  {
    if AllEnd(names, common) then
      AllEndIff(names, common);
      assert EndsWith(names[|names| - 1], common);
      (LastChars(names[|names| - 1], |common| + 1), true)
    else (common, false)
  }

  /**
   * The loop's (common, valid) after n rounds, starting from the last
   * character of the first name; once the loop condition fails the state no
   * longer changes.
   */
  function Rounds(names: seq<string>, n: nat): (r: (string, bool))
    requires |names| >= 1 && |names[0]| >= 1
    ensures |r.0| >= 1
  {
    if n == 0 then (names[0][|names[0]| - 1..], true)
    else
      var s := Rounds(names, n - 1);
      if s.1 && |s.0| < |names[0]| then RoundOf(names, s.0) else s
  }

  /**
   * When the last name is a shared suffix shorter than the first name, the
   * loop never ends: after n rounds the candidate is the last n + 1
   * characters of the last name (all of it once n + 1 reaches its length),
   * still valid and still shorter than the first name.
   */
  lemma {:induction false} SpinningLoopNeverExits(names: seq<string>, n: nat)
    requires |names| >= 1 && LoopSpins(names)
    ensures var last := names[|names| - 1];
      Rounds(names, n) == (LastChars(last, Min(n + 1, |last|)), true)
    ensures Rounds(names, n).1 && |Rounds(names, n).0| < |names[0]|
  {
    var last := names[|names| - 1];
    if n == 0 {
      SpinningStart(names);
    } else {
      SpinningLoopNeverExits(names, n - 1);
      var k := Min(n, |last|);
      SpinningRound(names, k, Min(n + 1, |last|));
      RoundsStep(names, n - 1, LastChars(last, k));
    }
  }

  function Min(a: int, b: int): int
  {
    if a <= b then a else b
  }

  /** A round taken from a valid candidate shorter than the first name. */
  lemma RoundsStep(names: seq<string>, n: nat, c: string)
    requires |names| >= 1 && |names[0]| >= 1 && |c| >= 1
    requires Rounds(names, n) == (c, true) && |c| < |names[0]|
    ensures Rounds(names, n + 1) == RoundOf(names, c)
  {
  }

  /** When the loop spins, its first candidate is the last character of the last name. */
  lemma SpinningStart(names: seq<string>)
    requires |names| >= 1 && LoopSpins(names)
    ensures Rounds(names, 0) == (LastChars(names[|names| - 1], 1), true)
  {
    var first, last := names[0], names[|names| - 1];
    SpinningLastShared(names);
    assert last[|last| - 1..] == first[|first| - |last|..][|last| - 1..];
  }

  /** When the loop spins, a round grows a suffix of the last name by one character, up to all of it. */
  lemma SpinningRound(names: seq<string>, k: nat, j: nat)
    requires |names| >= 1 && LoopSpins(names) && 1 <= k <= |names[|names| - 1]|
    requires j == Min(k + 1, |names[|names| - 1]|)
    ensures RoundOf(names, LastChars(names[|names| - 1], k)) == (LastChars(names[|names| - 1], j), true)
  {
    SpinningSuffixShared(names, k);
  }

  /** A path without '/' is its own base name. */
  lemma BasenameBare(p: string)
    requires '/' !in p
    ensures Basename(p) == p
  {
    var b := Basename(p);
    assert p[|p| - |b|..] == p;
  }

  /** The base names of the input files, in the order `filenames.sort()` leaves the paths. */
  function SortedBasenames(filenames: seq<string>): (names: seq<string>)
    ensures |names| == |filenames|
  {
    var sorted := Sorting.Sort(filenames, Sorting.StrLe);
    assert |sorted| == |multiset(sorted)| == |filenames|;
    seq(|sorted|, i requires 0 <= i < |sorted| => Basename(sorted[i]))
  }

  /** The loop sees the base names of the sorted paths, one by one. */
  lemma BasenamesOf(filenames: seq<string>, sorted: seq<string>)
    requires Sorting.Sort(filenames, Sorting.StrLe) == sorted
    ensures |SortedBasenames(filenames)| == |sorted|
    ensures forall i :: 0 <= i < |sorted| ==> SortedBasenames(filenames)[i] == Basename(sorted[i])
  {
  }

  /** The order the files are given in does not change the names the loop sees. */
  lemma SortedBasenamesOrderFree(a: seq<string>, b: seq<string>)
    requires multiset(a) == multiset(b)
    ensures SortedBasenames(a) == SortedBasenames(b)
  {
    Sorting.StrLeTotal();
    Sorting.SortSorted(a, Sorting.StrLe);
    Sorting.SortSorted(b, Sorting.StrLe);
    Sorting.SortedUnique(Sorting.Sort(a, Sorting.StrLe), Sorting.Sort(b, Sorting.StrLe), Sorting.StrLe);
  }

  /** Two file names without a directory part, given in either order, reach the loop sorted. */
  lemma TwoBareFiles(a: string, b: string)
    requires Sorting.StrLe(a, b) && '/' !in a && '/' !in b
    ensures SortedBasenames([b, a]) == [a, b]
  {
    Sorting.SortTwoStrings(a, b);
    BasenameBare(a);
    BasenameBare(b);
    BasenamesOf([b, a], [a, b]);
  }

  /** Every name of `a_x`, `x` ends with the last one, which is shorter than the first. */
  lemma SpinsOnSuffixName()
    ensures LoopSpins(["a_x", "x"])
  {
    var names := ["a_x", "x"];
    assert names[0][|names[0]| - 1..] == "x";
    assert EndsWith(names[0], "x") && EndsWith(names[1], "x");
    AllEndIff(names, "x");
  }

  /**
   * For instance the files `x` and `a_x` of one directory, given in either
   * order: sorting puts `a_x` first, every name ends with the last name `x`,
   * and the loop spins.
   */
  lemma SpinsInOneDirectory()
    ensures SortedBasenames(["x", "a_x"]) == ["a_x", "x"]
    ensures LoopSpins(SortedBasenames(["x", "a_x"]))
  {
    Sorting.StrLeAt("a_x", "x", 0);
    TwoBareFiles("a_x", "x");
    SpinsOnSuffixName();
  }

  /**
   * The default output name: the longest suffix shared by every name, at most
   * one character shorter than the first name, without one leading '_'. An
   * empty suffix fails with IndexError, as does an empty first name.
   */
  function OutputName(names: seq<string>): (r: Result<string, NameError>)
    requires |names| >= 1
    ensures r.Ok? ==> EndsWith(names[0], r.value) && |r.value| < |names[0]|
  {
    if |names[0]| == 0 then Err(IndexError)
    else
      SharedSuffixZero(names);
      NameFromSuffix(names[0], CommonSuffixLen(names, 0))
  }

  /** The name made from the last m characters of first: none is an IndexError. */
  function NameFromSuffix(first: string, m: nat): (r: Result<string, NameError>)
    requires m <= |first|
    ensures r.Ok? ==> EndsWith(first, r.value) && |r.value| <= m
  {
    if m == 0 then Err(IndexError) else Ok(StripUnderscore(first[|first| - m..]))
  }

  /** At most one leading '_' is removed. */
  function StripUnderscore(s: string): (r: string)
    requires |s| >= 1
    ensures if s[0] == '_' then r == s[1..] else r == s
  {
    if s[0] == '_' then s[1..] else s
  }

  /**
   * Every name ends with the derived output name, and the derivation fails
   * exactly when the first name is too short or the names do not all end in
   * the same character.
   */
  lemma OutputNameShared(names: seq<string>)
    requires |names| >= 1
    ensures OutputName(names).Ok? ==>
      forall j :: 0 <= j < |names| ==> EndsWith(names[j], OutputName(names).value)
    ensures OutputName(names).Err? <==> |names[0]| <= 1 || !SharedSuffix(names, 1)
  {
    if |names[0]| > 0 {
      SharedSuffixZero(names);
      var m := CommonSuffixLen(names, 0);
      var n0 := names[0];
      if m > 0 {
        var common := n0[|n0| - m..];
        AllEndIff(names, common);
        forall j | 0 <= j < |names|
          ensures EndsWith(names[j], OutputName(names).value)
        {
          var n := names[j];
          assert n[|n| - m..] == common;
          if common[0] == '_' {
            assert n[|n| - (m - 1)..] == common[1..];
          }
        }
      }
    }
  }

  /** A candidate cut from the first or the last name is shared by all names exactly when its length is. */
  lemma CandidateShared(names: seq<string>, common: string)
    requires |names| >= 1 && |common| <= |names[0]|
    requires EndsWith(names[0], common) || EndsWith(names[|names| - 1], common)
    ensures SharedSuffix(names, |common|) <==> AllEnd(names, common)
  {
    AllEndIff(names, common);
    AllEndIff(names, names[0][|names[0]| - |common|..]);
  }

  /** One successful round of the loop: the candidate grows by one character cut from the last name. */
  lemma GrowStep(names: seq<string>, common: string)
    requires |names| >= 1 && !LoopSpins(names)
    requires 1 <= |common| < |names[0]|
    requires AllEnd(names, common)
    ensures var grown := LastChars(names[|names| - 1], |common| + 1);
      && |grown| == |common| + 1
      && SharedSuffix(names, |common|)
      && grown[1..] == names[0][|names[0]| - |common|..]
  {
    var first, last := names[0], names[|names| - 1];
    CandidateShared(names, common);
    AllEndIff(names, common);
    assert EndsWith(last, common);
    var grown := LastChars(last, |common| + 1);
    assert grown[1..] == last[|last| - |common|..];
  }

  /** What one round of the name-deriving loop establishes. */
  lemma LoopStep(names: seq<string>, common: string, valid: bool, bad: nat, next: string) returns (failing: nat)
    requires |names| >= 1 && !LoopSpins(names)
    requires 1 <= |common| < |names[0]|
    requires EndsWith(names[0], common) || EndsWith(names[|names| - 1], common)
    requires valid == AllEnd(names, common)
    requires !valid ==> bad < |names| && !EndsWith(names[bad], common)
    requires valid ==> next == LastChars(names[|names| - 1], |common| + 1)
    ensures valid ==> |next| == |common| + 1 && EndsWith(names[|names| - 1], next)
    ensures valid ==> SharedSuffix(names, |next| - 1) && next[1..] == names[0][|names[0]| - (|next| - 1)..]
    ensures !valid ==> failing < |names| && !EndsWith(names[failing], names[0][|names[0]| - |common|..])
  {
    CandidateShared(names, common);
    failing := 0;
    if valid {
      GrowStep(names, common);
    } else if EndsWith(names[0], common) {
      failing := bad;
    } else {
      failing := |names| - 1;
    }
  }

  /**
   * The inner for-loop of the name derivation: does every name end with
   * common? When it does, the loop variable is left at the last name.
   */
  method AllEndWith(names: seq<string>, common: string) returns (valid: bool, name: string, j: nat)
    requires |names| >= 1 && |common| >= 1
    ensures valid == AllEnd(names, common)
    ensures valid ==> name == names[|names| - 1]
    ensures !valid ==> j < |names| && !EndsWith(names[j], common)
  {
    valid := true;
    name := names[0];
    j := 0;
    while j < |names|
      invariant 0 <= j <= |names|
      invariant j > 0 ==> name == names[j - 1]
      invariant forall i :: 0 <= i < j ==> EndsWith(names[i], common)
    {
      name := names[j];
      if LastChars(name, |common|) != common {
        assert !EndsWith(names[j], common);
        AllEndIff(names, common);
        valid := false;
        return;
      }
      j := j + 1;
    }
    AllEndIff(names, common);
  }

  /** OutputName in terms of the shared length that the loop finds. */
  lemma OutputNameFrom(names: seq<string>, m: nat, bad: nat)
    requires |names| >= 1 && 1 <= |names[0]| && m < |names[0]|
    requires SharedSuffix(names, m)
    requires m + 1 < |names[0]| ==> bad < |names| && !EndsWith(names[bad], names[0][|names[0]| - (m + 1)..])
    ensures OutputName(names) == NameFromSuffix(names[0], m)
  {
    if m + 1 < |names[0]| {
      AllEndIff(names, names[0][|names[0]| - (m + 1)..]);
    }
    CommonSuffixLenUnique(names, m);
  }

  /** What the name-deriving loop leaves behind determines the derived name. */
  lemma LoopExit(names: seq<string>, common: string, valid: bool, bad: nat)
    requires |names| >= 1 && 1 <= |common| <= |names[0]|
    requires SharedSuffix(names, |common| - 1)
    requires common[1..] == names[0][|names[0]| - (|common| - 1)..]
    requires !valid ==> bad < |names| && !EndsWith(names[bad], names[0][|names[0]| - |common|..])
    requires !(valid && |common| < |names[0]|)
    ensures OutputName(names) == if |common| == 1 then Err(IndexError) else Ok(StripUnderscore(common[1..]))
  {
    OutputNameFrom(names, |common| - 1, bad);
    NameFromCandidate(names[0], common);
  }

  lemma NameFromCandidate(first: string, common: string)
    requires 1 <= |common| <= |first|
    requires common[1..] == first[|first| - (|common| - 1)..]
    ensures NameFromSuffix(first, |common| - 1) == if |common| == 1 then Err(IndexError) else Ok(StripUnderscore(common[1..]))
  {
  }

  /**
   * What the name-deriving loop keeps true of its candidate: it is a suffix
   * of the first or the last name, and all but its first character is a
   * suffix of the first name that every name shares.
   */
  ghost predicate Candidate(names: seq<string>, common: string)
    requires |names| >= 1
  {
    && 1 <= |common| <= |names[0]|
    && (EndsWith(names[0], common) || EndsWith(names[|names| - 1], common))
    && SharedSuffix(names, |common| - 1)
    && common[1..] == names[0][|names[0]| - (|common| - 1)..]
  }

  /** The loop's first candidate, the last character of the first name. */
  lemma FirstCandidate(names: seq<string>)
    requires |names| >= 1 && 1 <= |names[0]|
    ensures Candidate(names, names[0][|names[0]| - 1..])
  {
    SharedSuffixZero(names);
  }

  /**
   * One round of the name-deriving loop: check every name against the
   * candidate and, when all pass, cut the next candidate from the last name.
   */
  method Round(names: seq<string>, common: string) returns (next: string, valid: bool, ghost bad: nat)
    requires |names| >= 1 && !LoopSpins(names)
    requires Candidate(names, common) && |common| < |names[0]|
    ensures (next, valid) == RoundOf(names, common)
    ensures Candidate(names, next)
    ensures valid ==> |next| == |common| + 1
    ensures !valid ==> next == common && bad < |names| && !EndsWith(names[bad], names[0][|names[0]| - |common|..])
  {
    var name, j;
    valid, name, j := AllEndWith(names, common);
    next := common;
    if valid {
      next := LastChars(name, |common| + 1);
    }
    bad := LoopStep(names, common, valid, j, next);
  }

  /**
   * The name-deriving loop of main as written: grow a candidate suffix one
   * character at a time (each new candidate cut from the last name) until a
   * name does not end with it or it is as long as the first name.
   */
  method GrowCandidate(names: seq<string>) returns (common: string, valid: bool, ghost bad: nat)
    requires |names| >= 1 && 1 <= |names[0]|
    requires !LoopSpins(names)
    ensures Candidate(names, common) && !(valid && |common| < |names[0]|)
    ensures !valid ==> bad < |names| && !EndsWith(names[bad], names[0][|names[0]| - |common|..])
  {
    common := names[0][|names[0]| - 1..];
    FirstCandidate(names);
    valid := true;
    bad := 0;
    while valid && |common| < |names[0]|
      invariant Candidate(names, common)
      invariant !valid ==> bad < |names| && !EndsWith(names[bad], names[0][|names[0]| - |common|..])
      decreases if valid then 1 else 0, |names[0]| - |common|
    {
      common, valid, bad := Round(names, common);
    }
  }

  /**
   * The output-name derivation of main as written: the loop, then drop the
   * character too many and at most one leading '_'.
   */
  method DeriveOutputName(names: seq<string>) returns (r: Result<string, NameError>)
    requires |names| >= 1
    requires !LoopSpins(names)
    ensures r == OutputName(names)
  {
    if |names[0]| == 0 {
      return Err(IndexError);
    }
    var common, valid, bad := GrowCandidate(names);
    LoopExit(names, common, valid, bad);
    common := common[1..];
    if |common| == 0 {
      return Err(IndexError);
    }
    if common[0] == '_' {
      common := common[1..];
    }
    r := Ok(common);
  }

  /**
   * The default output name of main: the input paths are sorted, their base
   * names taken, and the name derived from those.
   */
  method DefaultOutputName(filenames: seq<string>) returns (r: Result<string, NameError>)
    requires |filenames| >= 1 && !LoopSpins(SortedBasenames(filenames))
    ensures r == OutputName(SortedBasenames(filenames))
  {
    var names := SortedBasenames(filenames);
    r := DeriveOutputName(names);
  }
}
