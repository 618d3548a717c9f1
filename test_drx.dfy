/**
 * How the DRX script tests get their names: a script path such as
 * `../DRX/HDF/hdfWaterfall.py` loses its extension, is cut into path
 * components, loses everything up to and including the first `..`
 * component, and the rest is joined with `_`; the test method is `test_`
 * followed by that name, and the scripts are registered in sorted order.
 *
 * The path operations are the POSIX ones: `/` separates components and `.`
 * starts an extension.
 */
module TestDrx {
  import opened Wrappers
  import Sorting

  const Sep: char := '/'
  const ExtSep: char := '.'
  const Parent: string := ".."

  /** `list.index` finding no `..` component. */
  datatype NameError = ValueError

  /*
   * os.path.splitext
   */

  /** `str.rfind` for one character: its last position, or -1. */
  function RFind(s: string, c: char): (i: int)
    ensures -1 <= i < |s|
  {
    if s == [] then -1
    else if s[|s| - 1] == c then |s| - 1
    else RFind(s[..|s| - 1], c)
  }

  /** rfind finds c, and no c follows it. */
  lemma {:induction false} RFindSpec(s: string, c: char)
    ensures var i := RFind(s, c);
            && (i >= 0 ==> s[i] == c)
            && forall k :: i < k < |s| ==> s[k] != c
  {
    if s != [] && s[|s| - 1] != c {
      var front := s[..|s| - 1];
      RFindSpec(front, c);
      forall k | RFind(s, c) < k < |s|
        ensures s[k] != c
      {
        if k < |s| - 1 {
          assert s[k] == front[k];
        }
      }
    }
  }

  /** Only dots in p[lo..hi]: the leading dots splitext skips. */
  predicate DotsOnly(p: string, lo: int, hi: int)
  {
    forall k :: lo <= k < hi && 0 <= k < |p| ==> p[k] == ExtSep
  }

  /**
   * `os.path.splitext(p)[0]`: the path without the extension of its last
   * component. The extension runs from the component's last '.', and is
   * only split off when some character other than '.' precedes that dot
   * within the component (so `.bashrc` and `..` keep their dots).
   */
  function SplitExtRoot(p: string): (root: string)
    ensures |root| <= |p| && root == p[..|root|]
  {
    var sepIndex := RFind(p, Sep);
    var dotIndex := RFind(p, ExtSep);
    if dotIndex > sepIndex && !DotsOnly(p, sepIndex + 1, dotIndex) then p[..dotIndex] else p
  }

  /** The extension splitext removes is a '.' and then neither '.' nor '/'. */
  lemma SplitExtRemovesExtension(p: string)
    ensures var root := SplitExtRoot(p);
            root != p ==>
              && p[|root|] == ExtSep
              && (forall k :: |root| < k < |p| ==> p[k] != ExtSep && p[k] != Sep)
              && exists k :: RFind(p, Sep) < k < |root| && p[k] != ExtSep
  {
    var root := SplitExtRoot(p);
    if root != p {
      var sepIndex := RFind(p, Sep);
      var dotIndex := RFind(p, ExtSep);
      RFindSpec(p, Sep);
      RFindSpec(p, ExtSep);
      var k :| sepIndex + 1 <= k < dotIndex && 0 <= k < |p| && p[k] != ExtSep;
    }
  }

  /**
   * Nothing is removed exactly when no '.' of the last component is
   * preceded, within the component, by a character other than '.'.
   */
  lemma SplitExtKeeps(p: string)
    ensures SplitExtRoot(p) == p <==>
            forall d, k :: RFind(p, Sep) < k < d < |p| && p[d] == ExtSep ==> p[k] == ExtSep
  {
    if SplitExtRoot(p) != p {
      CutComponentHasExtension(p);
    } else {
      KeptComponentHasNoExtension(p);
    }
  }

  lemma CutComponentHasExtension(p: string)
    requires SplitExtRoot(p) != p
    ensures exists d, k :: RFind(p, Sep) < k < d < |p| && p[d] == ExtSep && p[k] != ExtSep
  {
    var sepIndex := RFind(p, Sep);
    var dotIndex := RFind(p, ExtSep);
    RFindSpec(p, ExtSep);
    var k :| sepIndex + 1 <= k < dotIndex && 0 <= k < |p| && p[k] != ExtSep;
    assert sepIndex < k < dotIndex < |p| && p[dotIndex] == ExtSep && p[k] != ExtSep;
  }

  lemma KeptComponentHasNoExtension(p: string)
    requires SplitExtRoot(p) == p
    ensures forall d, k :: RFind(p, Sep) < k < d < |p| && p[d] == ExtSep ==> p[k] == ExtSep
  {
    var sepIndex := RFind(p, Sep);
    var dotIndex := RFind(p, ExtSep);
    RFindSpec(p, ExtSep);
    forall d, k | sepIndex < k < d < |p| && p[d] == ExtSep
      ensures p[k] == ExtSep
    {
      assert d <= dotIndex;
    }
  }

  /** The last occurrence in a concatenation. */
  lemma {:induction false} RFindAppend(s: string, t: string, c: char)
    ensures RFind(s + t, c) == if c in t then |s| + RFind(t, c) else RFind(s, c)
  {
    var u := s + t;
    if t == [] {
      assert u == s;
    } else if t[|t| - 1] == c {
      assert u[|u| - 1] == c;
      assert RFind(u, c) == |u| - 1 && RFind(t, c) == |t| - 1;
    } else {
      var t' := t[..|t| - 1];
      RFindAppend(s, t', c);
      assert u[|u| - 1] != c;
      assert u[..|u| - 1] == s + t';
      assert RFind(u, c) == RFind(s + t', c) && RFind(t, c) == RFind(t', c);
      assert t == t' + [t[|t| - 1]];
      assert c in t <==> c in t';
    }
  }

  /*
   * str.split and str.join
   */

  /** `s.split(c)`: the pieces between occurrences of c, empty pieces included. */
  function SplitOn(s: string, c: char): (parts: seq<string>)
    ensures |parts| >= 1
    ensures forall i :: 0 <= i < |parts| ==> c !in parts[i]
  {
    if s == [] then [[]]
    else
      var rest := SplitOn(s[1..], c);
      if s[0] == c then [[]] + rest else [[s[0]] + rest[0]] + rest[1..]
  }

  /** `c.join(parts)`. */
  function Join(parts: seq<string>, c: char): string
  {
    if parts == [] then []
    else if |parts| == 1 then parts[0]
    else parts[0] + [c] + Join(parts[1..], c)
  }

  /** Joining the pieces with the separator gives the string back. */
  lemma {:induction false} JoinSplit(s: string, c: char)
    ensures Join(SplitOn(s, c), c) == s
  {
    if s != [] {
      var rest := SplitOn(s[1..], c);
      JoinSplit(s[1..], c);
      if s[0] != c {
        var parts := SplitOn(s, c);
        assert parts[1..] == rest[1..];
        assert s == [s[0]] + s[1..];
      }
    }
  }

  /** Splitting after a separator-free first piece. */
  lemma {:induction false} SplitPrefix(x: string, y: string, c: char)
    requires c !in x
    ensures SplitOn(x + [c] + y, c) == [x] + SplitOn(y, c)
  {
    if x != [] {
      SplitPrefix(x[1..], y, c);
      assert (x + [c] + y)[1..] == x[1..] + [c] + y;
      var rest := SplitOn(x[1..] + [c] + y, c);
      assert rest[0] == x[1..] && rest[1..] == SplitOn(y, c);
      assert x == [x[0]] + x[1..];
    } else {
      assert (x + [c] + y)[1..] == y;
    }
  }

  lemma {:induction false} SplitWhole(x: string, c: char)
    requires c !in x
    ensures SplitOn(x, c) == [x]
  {
    if x != [] {
      SplitWhole(x[1..], c);
      assert x == [x[0]] + x[1..];
    }
  }

  /** Splitting joined separator-free pieces gives the pieces back. */
  lemma {:induction false} SplitJoin(parts: seq<string>, c: char)
    requires |parts| >= 1 && forall i :: 0 <= i < |parts| ==> c !in parts[i]
    ensures SplitOn(Join(parts, c), c) == parts
  {
    if |parts| == 1 {
      SplitWhole(parts[0], c);
    } else {
      SplitJoin(parts[1..], c);
      SplitPrefix(parts[0], Join(parts[1..], c), c);
      assert parts == [parts[0]] + parts[1..];
    }
  }

  /*
   * list.index and _name_to_name
   */

  /** `parts.index(x)`, or None where Python raises ValueError. */
  function Find(parts: seq<string>, x: string): (r: Option<nat>)
    ensures r.None? <==> x !in parts
    ensures r.Some? ==> r.value < |parts| && parts[r.value] == x &&
                        forall k :: 0 <= k < r.value ==> parts[k] != x
  {
    if parts == [] then None
    else if parts[0] == x then Some(0)
    else
      var r := Find(parts[1..], x);
      assert parts == [parts[0]] + parts[1..];
      if r.None? then None else Some(r.value + 1)
  }

  /** The path components of a script without its extension. */
  function Components(filename: string): seq<string>
  {
    SplitOn(SplitExtRoot(filename), Sep)
  }

  /**
   * `_name_to_name`: the components after the first `..`, joined with '_';
   * ValueError when no component is `..`.
   */
  function NameToName(filename: string): (r: Result<string, NameError>)
    ensures r.Err? <==> Parent !in Components(filename)
  {
    var parts := Components(filename);
    match Find(parts, Parent)
    case None => Err(ValueError)
    case Some(start) => Ok(Join(parts[start + 1..], '_'))
  }

  /**
   * Only the first `..` is cut: the name is the components after it,
   * later `..` components included, joined with '_'.
   */
  lemma NameAfterFirstParent(filename: string, start: nat)
    requires start < |Components(filename)| && Components(filename)[start] == Parent
    requires forall k :: 0 <= k < start ==> Components(filename)[k] != Parent
    ensures NameToName(filename) == Ok(Join(Components(filename)[start + 1..], '_'))
  {
    var r := Find(Components(filename), Parent);
    assert r.Some?;
    assert r.value == start;
  }

  /**
   * A script `../c1/.../cn.ext`, whose components contain no '/' and whose
   * file name has no '.' before the extension, is named `c1_..._cn`.
   */
  lemma ScriptName(cs: seq<string>, ext: string, script: string)
    requires |cs| >= 1 && forall i :: 0 <= i < |cs| ==> Sep !in cs[i]
    requires ExtSep !in cs[|cs| - 1]
    requires ext == [] || (cs[|cs| - 1] != [] && ext[0] == ExtSep && ExtSep !in ext[1..] && Sep !in ext)
    requires script == Parent + [Sep] + Join(cs, Sep) + ext
    ensures NameToName(script) == Ok(Join(cs, '_'))
  {
    var body := Join(cs, Sep);
    assert SplitExtRoot(script) == Parent + [Sep] + body by {
      RootOfScript(cs, ext);
    }
    SplitJoin(cs, Sep);
    SplitPrefix(Parent, body, Sep);
    assert Components(script) == [Parent] + cs;
    NameAfterFirstParent(script, 0);
    assert Components(script)[1..] == cs;
  }

  /** Join from the other end: everything but the last piece, the separator, the last piece. */
  lemma {:induction false} JoinSnoc(cs: seq<string>, c: char)
    requires |cs| >= 2
    ensures Join(cs, c) == Join(cs[..|cs| - 1], c) + [c] + cs[|cs| - 1]
  {
    if |cs| > 2 {
      JoinSnoc(cs[1..], c);
      assert cs[1..][..|cs| - 2] == cs[..|cs| - 1][1..];
    }
  }

  /**
   * splitext on `front + last + ext`, where front ends its directory part
   * with '/', `last` has no '/' or '.', and ext is empty or an extension.
   */
  lemma RootOfFile(front: string, last: string, ext: string)
    requires front != [] && front[|front| - 1] == Sep
    requires Sep !in last && ExtSep !in last
    requires ext == [] || (last != [] && ext[0] == ExtSep && ExtSep !in ext[1..] && Sep !in ext)
    ensures SplitExtRoot(front + last + ext) == front + last
  {
    var p := front + last + ext;
    assert Sep !in last + ext;
    RFindAppend(front, last + ext, Sep);
    assert front + (last + ext) == p;
    var sepIndex := RFind(p, Sep);
    assert sepIndex == |front| - 1;
    if ext == [] {
      assert p == front + last;
      RFindAppend(front, last, ExtSep);
      assert RFind(p, ExtSep) <= sepIndex;
    } else {
      var head := front + last;
      RFindAppend(head + [ExtSep], ext[1..], ExtSep);
      assert head + [ExtSep] + ext[1..] == p;
      var dotIndex := RFind(p, ExtSep);
      assert dotIndex == |head|;
      assert p[sepIndex + 1] == last[0] != ExtSep;
      assert p[..dotIndex] == head;
    }
  }

  lemma RootOfScript(cs: seq<string>, ext: string)
    requires |cs| >= 1 && forall i :: 0 <= i < |cs| ==> Sep !in cs[i]
    requires ExtSep !in cs[|cs| - 1]
    requires ext == [] || (cs[|cs| - 1] != [] && ext[0] == ExtSep && ExtSep !in ext[1..] && Sep !in ext)
    ensures SplitExtRoot(Parent + [Sep] + Join(cs, Sep) + ext) == Parent + [Sep] + Join(cs, Sep)
  {
    var last := cs[|cs| - 1];
    var p := Parent + [Sep] + Join(cs, Sep);
    assert Sep !in last;
    if |cs| == 1 {
      assert p == (Parent + [Sep]) + last;
      RootOfFile(Parent + [Sep], last, ext);
    } else {
      var front := Parent + [Sep] + Join(cs[..|cs| - 1], Sep) + [Sep];
      JoinSnoc(cs, Sep);
      assert p == front + last;
      RootOfFile(front, last, ext);
    }
  }

  /*
   * Registration: `_SCRIPTS.sort()` and `'test_%s' % _name_to_name(script)`.
   */

  /** f applied to every element, in order. */
  function Map<A, B>(f: A -> B, s: seq<A>): (r: seq<B>)
    ensures |r| == |s|
  {
    seq(|s|, i requires 0 <= i < |s| => f(s[i]))
  }

  /** `_name_to_name` of every script, in order. */
  function NamesOf(scripts: seq<string>): (names: seq<Result<string, NameError>>)
    ensures |names| == |scripts|
  {
    Map(NameToName, scripts)
  }

  /** `'test_%s' % name` for every name, in order; the first failure aborts. */
  function Register(names: seq<Result<string, NameError>>): Result<seq<string>, NameError>
  {
    if names == [] then Ok([])
    else
      var rest := Register(names[1..]);
      match names[0]
      case Err(e) => Err(e)
      case Ok(name) => if rest.Err? then rest else Ok(["test_" + name] + rest.value)
  }

  /**
   * Every name gets a test, in the order given; one failed name fails the
   * whole registration.
   */
  lemma {:induction false} RegisterSpec(names: seq<Result<string, NameError>>)
    ensures Register(names).Ok? <==> forall i :: 0 <= i < |names| ==> names[i].Ok?
    ensures Register(names).Ok? ==>
              (|Register(names).value| == |names| &&
               forall i :: 0 <= i < |names| ==> Register(names).value[i] == "test_" + names[i].value)
  {
    if names != [] {
      RegisterSpec(names[1..]);
      assert forall i :: 1 <= i < |names| ==> names[i] == names[1..][i - 1];
    }
  }

  /** The scripts the DRX tests run, as listed. */
  const Scripts: seq<string> :=
    ["../DRX/checkTimetags.py", "../DRX/drxFileCheck.py", "../DRX/fastDRXCheck.py", "../DRX/HDF/hdfWaterfall.py"]

  /** The test methods registered, in registration order. */
  function TestNames(scripts: seq<string>): (r: Result<seq<string>, NameError>)
    ensures r.Ok? <==> forall i :: 0 <= i < |scripts| ==> NameToName(scripts[i]).Ok?
    ensures r.Ok? ==> |r.value| == |scripts|
  {
    var sorted := Sorting.Sort(scripts, Sorting.StrLe);
    RegisterNames(sorted);
    PermutedNamesOk(scripts, sorted);
    assert |sorted| == |multiset(sorted)| == |scripts|;
    Register(NamesOf(sorted))
  }

  /** Registration succeeds exactly when every script has a '..' component, with one test each. */
  lemma RegisterNames(scripts: seq<string>)
    ensures Register(NamesOf(scripts)).Ok? <==> forall i :: 0 <= i < |scripts| ==> NameToName(scripts[i]).Ok?
    ensures Register(NamesOf(scripts)).Ok? ==> |Register(NamesOf(scripts)).value| == |scripts|
  {
    var names := NamesOf(scripts);
    RegisterSpec(names);
    assert forall i :: 0 <= i < |scripts| ==> names[i] == NameToName(scripts[i]);
  }

  /** Reordering the scripts neither adds nor removes a script without a '..' component. */
  lemma PermutedNamesOk(a: seq<string>, b: seq<string>)
    requires multiset(a) == multiset(b)
    ensures (forall i :: 0 <= i < |a| ==> NameToName(a[i]).Ok?) <==> (forall j :: 0 <= j < |b| ==> NameToName(b[j]).Ok?)
  {
    if forall i :: 0 <= i < |a| ==> NameToName(a[i]).Ok? {
      PermutedNamesOkFrom(a, b);
    }
    if forall j :: 0 <= j < |b| ==> NameToName(b[j]).Ok? {
      PermutedNamesOkFrom(b, a);
    }
  }

  lemma PermutedNamesOkFrom(a: seq<string>, b: seq<string>)
    requires multiset(a) == multiset(b)
    requires forall i :: 0 <= i < |a| ==> NameToName(a[i]).Ok?
    ensures forall j :: 0 <= j < |b| ==> NameToName(b[j]).Ok?
  {
    forall j | 0 <= j < |b|
      ensures NameToName(b[j]).Ok?
    {
      assert b[j] in multiset(a);
      var i :| 0 <= i < |a| && a[i] == b[j];
    }
  }

  lemma JoinCons(a: string, rest: seq<string>, c: char)
    requires rest != []
    ensures Join([a] + rest, c) == a + [c] + Join(rest, c)
  {
    assert ([a] + rest)[1..] == rest;
  }

  /** The scripts in the order `sort` leaves them. */
  const SortedScripts: seq<string> :=
    ["../DRX/HDF/hdfWaterfall.py", "../DRX/checkTimetags.py", "../DRX/drxFileCheck.py", "../DRX/fastDRXCheck.py"]

  lemma LastFirst<T>(x: seq<T>)
    requires x != []
    ensures multiset([x[|x| - 1]] + x[..|x| - 1]) == multiset(x)
  {
    assert x == x[..|x| - 1] + [x[|x| - 1]];
  }

  lemma ScriptsPermuted()
    ensures multiset(SortedScripts) == multiset(Scripts)
  {
    assert SortedScripts == [Scripts[3]] + Scripts[..3];
    LastFirst(Scripts);
  }

  /** Upper-case 'H' sorts before the lower-case initials. */
  lemma HdfFirst()
    ensures Sorting.StrLe(SortedScripts[0], SortedScripts[1])
  {
    Sorting.StrLeAt(SortedScripts[0], SortedScripts[1], 7);
  }

  lemma CheckTimetagsSecond()
    ensures Sorting.StrLe(SortedScripts[1], SortedScripts[2])
  {
    Sorting.StrLeAt(SortedScripts[1], SortedScripts[2], 7);
  }

  lemma DrxFileCheckThird()
    ensures Sorting.StrLe(SortedScripts[2], SortedScripts[3])
  {
    Sorting.StrLeAt(SortedScripts[2], SortedScripts[3], 7);
  }

  lemma AscendingFour(s: seq<string>)
    requires |s| == 4 && Sorting.StrLe(s[0], s[1]) && Sorting.StrLe(s[1], s[2]) && Sorting.StrLe(s[2], s[3])
    ensures Sorting.SortedBy(s, Sorting.StrLe)
  {
    Sorting.StrLeTotal();
    Sorting.AdjacentSorted(s, Sorting.StrLe);
  }

  lemma ScriptsSorted()
    ensures Sorting.Sort(Scripts, Sorting.StrLe) == SortedScripts
  {
    HdfFirst();
    CheckTimetagsSecond();
    DrxFileCheckThird();
    AscendingFour(SortedScripts);
    Sorting.StrLeTotal();
    ScriptsPermuted();
    Sorting.SortSorted(Scripts, Sorting.StrLe);
    Sorting.SortedUnique(Sorting.Sort(Scripts, Sorting.StrLe), SortedScripts, Sorting.StrLe);
  }

  lemma JoinTwo(d: string, f: string, c: char)
    ensures Join([d, f], c) == d + [c] + f
  {
    JoinCons(d, [f], c);
  }

  lemma JoinThree(d: string, e: string, f: string, c: char)
    ensures Join([d, e, f], c) == d + [c] + e + [c] + f
  {
    JoinCons(e, [f], c);
    JoinCons(d, [e, f], c);
    assert [d] + [e, f] == [d, e, f];
  }

  /** `../d/f.ext` is named `d_f`. */
  lemma OneDirName(d: string, f: string, ext: string, script: string)
    requires Sep !in d && Sep !in f && ExtSep !in f && f != []
    requires ext != [] && ext[0] == ExtSep && ExtSep !in ext[1..] && Sep !in ext
    requires script == Parent + [Sep] + d + [Sep] + f + ext
    ensures NameToName(script) == Ok(d + ['_'] + f)
  {
    JoinTwo(d, f, Sep);
    JoinTwo(d, f, '_');
    var body := d + [Sep] + f;
    assert script == Parent + [Sep] + body + ext;
    ScriptName([d, f], ext, script);
  }

  /** `../d/e/f.ext` is named `d_e_f`. */
  lemma TwoDirName(d: string, e: string, f: string, ext: string, script: string)
    requires Sep !in d && Sep !in e && Sep !in f && ExtSep !in f && f != []
    requires ext != [] && ext[0] == ExtSep && ExtSep !in ext[1..] && Sep !in ext
    requires script == Parent + [Sep] + d + [Sep] + e + [Sep] + f + ext
    ensures NameToName(script) == Ok(d + ['_'] + e + ['_'] + f)
  {
    JoinThree(d, e, f, Sep);
    JoinThree(d, e, f, '_');
    var body := d + [Sep] + e + [Sep] + f;
    assert script == Parent + [Sep] + body + ext;
    ScriptName([d, e, f], ext, script);
  }

  /** A script directly in `../DRX/` is named `DRX_` and its file name. */
  lemma DrxName(f: string, script: string, name: string)
    requires Sep !in f && ExtSep !in f && f != []
    requires script == Parent + [Sep] + "DRX" + [Sep] + f + ".py" && name == "DRX" + ['_'] + f
    ensures NameToName(script) == Ok(name)
  {
    OneDirName("DRX", f, ".py", script);
  }

  lemma HdfWaterfallShape()
    ensures SortedScripts[0] == Parent + [Sep] + "DRX" + [Sep] + "HDF" + [Sep] + "hdfWaterfall" + ".py"
  {
  }

  lemma HdfWaterfallName()
    ensures NameToName(SortedScripts[0]) == Ok("DRX_HDF_hdfWaterfall")
  {
    HdfWaterfallShape();
    assert "DRX_HDF_hdfWaterfall" == "DRX" + ['_'] + "HDF" + ['_'] + "hdfWaterfall";
    TwoDirName("DRX", "HDF", "hdfWaterfall", ".py", SortedScripts[0]);
  }

  lemma CheckTimetagsName()
    ensures NameToName(SortedScripts[1]) == Ok("DRX_checkTimetags")
  {
    var script, name := SortedScripts[1], "DRX_checkTimetags";
    assert script == Parent + [Sep] + "DRX" + [Sep] + "checkTimetags" + ".py";
    DrxName("checkTimetags", script, name);
  }

  lemma DrxFileCheckName()
    ensures NameToName(SortedScripts[2]) == Ok("DRX_drxFileCheck")
  {
    var script, name := SortedScripts[2], "DRX_drxFileCheck";
    assert script == Parent + [Sep] + "DRX" + [Sep] + "drxFileCheck" + ".py";
    DrxName("drxFileCheck", script, name);
  }

  lemma FastDrxCheckName()
    ensures NameToName(SortedScripts[3]) == Ok("DRX_fastDRXCheck")
  {
    var script, name := SortedScripts[3], "DRX_fastDRXCheck";
    assert script == Parent + [Sep] + "DRX" + [Sep] + "fastDRXCheck" + ".py";
    DrxName("fastDRXCheck", script, name);
  }

  lemma RegisterCons(n: string, rest: seq<Result<string, NameError>>)
    requires Register(rest).Ok?
    ensures Register([Ok(n)] + rest) == Ok(["test_" + n] + Register(rest).value)
  {
    assert ([Ok(n)] + rest)[1..] == rest;
  }

  /** Four successful names register four tests, in order. */
  lemma FourTests(n0: string, n1: string, n2: string, n3: string, t0: string, t1: string, t2: string, t3: string)
    requires t0 == "test_" + n0 && t1 == "test_" + n1 && t2 == "test_" + n2 && t3 == "test_" + n3
    ensures Register([Ok(n0), Ok(n1), Ok(n2), Ok(n3)]) == Ok([t0, t1, t2, t3])
  {
    var r0, r1, r2, r3: Result<string, NameError> := Ok(n0), Ok(n1), Ok(n2), Ok(n3);
    var e: seq<Result<string, NameError>> := [];
    RegisterCons(n3, e);
    assert [r3] + e == [r3] && [t3] + [] == [t3];
    RegisterCons(n2, [r3]);
    assert [r2] + [r3] == [r2, r3];
    RegisterCons(n1, [r2, r3]);
    assert [r1] + [r2, r3] == [r1, r2, r3];
    RegisterCons(n0, [r1, r2, r3]);
    assert [r0] + [r1, r2, r3] == [r0, r1, r2, r3];
    assert [t0] + ([t1] + ([t2] + [t3])) == [t0, t1, t2, t3];
  }

  /** Mapping over four elements. */
  lemma MapFour<A, B>(f: A -> B, s: seq<A>)
    requires |s| == 4
    ensures Map(f, s) == [f(s[0]), f(s[1]), f(s[2]), f(s[3])]
  {
    var r := Map(f, s);
    assert r[0] == f(s[0]) && r[1] == f(s[1]) && r[2] == f(s[2]) && r[3] == f(s[3]);
  }

  /* Each test name is the literal concatenation; one fact per lemma keeps the proofs small. */

  lemma HdfWaterfallTest()
    ensures "test_" + "DRX_HDF_hdfWaterfall" == "test_DRX_HDF_hdfWaterfall"
  {
  }

  lemma CheckTimetagsTest()
    ensures "test_" + "DRX_checkTimetags" == "test_DRX_checkTimetags"
  {
  }

  lemma DrxFileCheckTest()
    ensures "test_" + "DRX_drxFileCheck" == "test_DRX_drxFileCheck"
  {
  }

  lemma FastDrxCheckTest()
    ensures "test_" + "DRX_fastDRXCheck" == "test_DRX_fastDRXCheck"
  {
  }

  /** The derived names of the sorted scripts. */
  lemma SortedNames()
    ensures NamesOf(SortedScripts) ==
            [Ok("DRX_HDF_hdfWaterfall"), Ok("DRX_checkTimetags"), Ok("DRX_drxFileCheck"), Ok("DRX_fastDRXCheck")]
  {
    MapFour(NameToName, SortedScripts);
    HdfWaterfallName();
    CheckTimetagsName();
    DrxFileCheckName();
    FastDrxCheckName();
  }

  /**
   * The four DRX scripts register these tests, in this order.
   */
  lemma RegisteredTests()
    ensures TestNames(Scripts) ==
            Ok(["test_DRX_HDF_hdfWaterfall", "test_DRX_checkTimetags", "test_DRX_drxFileCheck", "test_DRX_fastDRXCheck"])
  {
    ScriptsSorted();
    SortedNames();
    HdfWaterfallTest();
    CheckTimetagsTest();
    DrxFileCheckTest();
    FastDrxCheckTest();
    FourTests("DRX_HDF_hdfWaterfall", "DRX_checkTimetags", "DRX_drxFileCheck", "DRX_fastDRXCheck",
      "test_DRX_HDF_hdfWaterfall", "test_DRX_checkTimetags", "test_DRX_drxFileCheck", "test_DRX_fastDRXCheck");
  }
}
