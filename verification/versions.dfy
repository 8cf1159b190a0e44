/** The update planner of update.py: dotted-version comparison, the
    per-tool "updates available" diff, the operator's selection, the
    version write-back after installing, and the 24-hour freshness rule of
    the cached remote manifest. Downloads, archive extraction and folder
    copies are not modelled; their outcomes are inputs. */
module Versions {
  import opened Common
  import opened Text

  /** The "tools" object of a version manifest: tool name to dotted version string. */
  type Manifest = map<string, string>

  /** The version assumed for a tool the local manifest does not list. */
  const Baseline: string := "0.0.0"

  /** All the values, when every one is present. */
  function Collect(xs: seq<Option<int>>): (r: Option<seq<int>>)
    ensures r.Some? <==> forall i :: 0 <= i < |xs| ==> xs[i].Some?
    ensures r.Some? ==> |r.value| == |xs|
    ensures r.Some? ==> forall i :: 0 <= i < |xs| ==> xs[i] == Some(r.value[i])
    decreases |xs|
  {
    if |xs| == 0 then Some([])
    else
      var tail := Collect(xs[1..]);
      assert forall i :: 1 <= i < |xs| ==> xs[i] == xs[1..][i - 1];
      if xs[0].None? || tail.None? then None else Some([xs[0].value] + tail.value)
  }

  /** `[int(x) for x in parts]`: `None` as soon as one element does not parse. */
  function ParseAll(parts: seq<string>): (r: Option<seq<int>>)
    ensures r.Some? <==> forall i :: 0 <= i < |parts| ==> ParseInt(parts[i]).Some?
    ensures r.Some? ==> |r.value| == |parts|
    ensures r.Some? ==> forall i :: 0 <= i < |parts| ==> ParseInt(parts[i]) == Some(r.value[i])
  {
    Collect(ParseEach(parts))
  }

  /** `int(x)` of each element, failures included. */
  function ParseEach(parts: seq<string>): (r: seq<Option<int>>)
    ensures |r| == |parts|
    ensures forall i :: 0 <= i < |parts| ==> r[i] == ParseInt(parts[i])
    decreases |parts|
  {
    if |parts| == 0 then []
    else
      var tail := ParseEach(parts[1..]);
      assert forall i :: 1 <= i < |parts| ==> parts[i] == parts[1..][i - 1];
      [ParseInt(parts[0])] + tail
  }

  lemma CollectCons(x: Option<int>, xs: seq<Option<int>>)
    ensures Collect([x] + xs) == if x.Some? && Collect(xs).Some? then Some([x.value] + Collect(xs).value) else None
  {
    assert ([x] + xs)[1..] == xs;
  }

  /** The integer components of a dotted version string. */
  function ParseVersion(v: string): Option<seq<int>>
  {
    ParseAll(Split(v, '.'))
  }

  /** `parts + [0] * (n - len(parts))`. */
  function Pad(xs: seq<int>, n: nat): (r: seq<int>)
    ensures |r| == Max(|xs|, n)
    ensures r[..|xs|] == xs
    ensures forall i :: |xs| <= i < |r| ==> r[i] == 0
  {
    if |xs| >= n then xs else xs + seq(n - |xs|, _ => 0)
  }

  /** Python's `a < b` on lists of integers. */
  predicate LexLess(a: seq<int>, b: seq<int>)
    decreases |a|
  {
    if |b| == 0 then false
    else if |a| == 0 then true
    else if a[0] != b[0] then a[0] < b[0]
    else LexLess(a[1..], b[1..])
  }

  /** `is_newer_version(current, latest)`: both strings parse, and after
      zero-padding to a common length `latest` is lexicographically greater.
      A parse failure makes the answer false. */
  function IsNewerVersion(current: string, latest: string): bool
  {
    match (ParseVersion(current), ParseVersion(latest))
    case (Some(c), Some(l)) =>
      var n := Max(|c|, |l|);
      LexLess(Pad(c, n), Pad(l, n))
    case _ => false
  }

  /** Equal-length `a` lies below `b` at the first position where they differ. */
  ghost predicate FirstDifferenceBelow(a: seq<int>, b: seq<int>)
  {
    |a| == |b| && exists k :: 0 <= k < |a| && a[..k] == b[..k] && a[k] < b[k]
  }

  lemma {:induction false} LexLessEqualLength(a: seq<int>, b: seq<int>)
    requires |a| == |b|
    ensures LexLess(a, b) <==> FirstDifferenceBelow(a, b)
    decreases |a|
  {
    if |a| > 0 {
      assert forall k :: 0 < k <= |a| ==> a[..k][0] == a[0] && b[..k][0] == b[0];
      if a[0] != b[0] {
        if a[0] < b[0] {
          assert a[..0] == b[..0];
        }
      } else {
        LexLessEqualLength(a[1..], b[1..]);
        if FirstDifferenceBelow(a[1..], b[1..]) {
          var k :| 0 <= k < |a| - 1 && a[1..][..k] == b[1..][..k] && a[1..][k] < b[1..][k];
          assert a[..k + 1] == [a[0]] + a[1..][..k];
          assert b[..k + 1] == [b[0]] + b[1..][..k];
        }
        if FirstDifferenceBelow(a, b) {
          var k :| 0 <= k < |a| && a[..k] == b[..k] && a[k] < b[k];
          assert k != 0;
          assert a[1..][..k - 1] == a[..k][1..];
          assert b[1..][..k - 1] == b[..k][1..];
        }
      }
    }
  }

  /** The comparator pads the shorter component list with zeros and then
      decides on the first component where the padded lists differ. */
  lemma IsNewerVersionIff(current: string, latest: string)
    ensures IsNewerVersion(current, latest) <==>
      && ParseVersion(current).Some?
      && ParseVersion(latest).Some?
      && var c := ParseVersion(current).value;
         var l := ParseVersion(latest).value;
         var n := Max(|c|, |l|);
         FirstDifferenceBelow(Pad(c, n), Pad(l, n))
  {
    if ParseVersion(current).Some? && ParseVersion(latest).Some? {
      var c := ParseVersion(current).value;
      var l := ParseVersion(latest).value;
      var n := Max(|c|, |l|);
      LexLessEqualLength(Pad(c, n), Pad(l, n));
    }
  }

  /** A component that is not an integer (an empty one included) makes the
      comparison false in both directions. */
  lemma MalformedIsNeverNewer(current: string, latest: string)
    requires
      || (exists i :: 0 <= i < |Split(current, '.')| && ParseInt(Split(current, '.')[i]).None?)
      || (exists i :: 0 <= i < |Split(latest, '.')| && ParseInt(Split(latest, '.')[i]).None?)
    ensures !IsNewerVersion(current, latest)
    ensures !IsNewerVersion(latest, current)
  {
  }

  lemma {:induction false} LexLessIrreflexive(a: seq<int>)
    ensures !LexLess(a, a)
    decreases |a|
  {
    if |a| > 0 {
      LexLessIrreflexive(a[1..]);
    }
  }

  lemma {:induction false} LexLessAsymmetric(a: seq<int>, b: seq<int>)
    ensures LexLess(a, b) ==> !LexLess(b, a)
    decreases |a|
  {
    if |a| > 0 && |b| > 0 && a[0] == b[0] {
      LexLessAsymmetric(a[1..], b[1..]);
    }
  }

  lemma {:induction false} LexLessTransitive(a: seq<int>, b: seq<int>, c: seq<int>)
    ensures LexLess(a, b) && LexLess(b, c) ==> LexLess(a, c)
    decreases |a|
  {
    if |a| > 0 && |b| > 0 && |c| > 0 && a[0] == b[0] && b[0] == c[0] {
      LexLessTransitive(a[1..], b[1..], c[1..]);
    }
  }

  /** Appending a zero to two equal-length lists does not change their order. */
  lemma {:induction false} LexLessAppendZero(x: seq<int>, y: seq<int>)
    requires |x| == |y|
    ensures LexLess(x + [0], y + [0]) == LexLess(x, y)
    decreases |x|
  {
    if |x| == 0 {
      assert LexLess([0], [0]) == LexLess([], []);
    } else {
      assert (x + [0])[1..] == x[1..] + [0];
      assert (y + [0])[1..] == y[1..] + [0];
      LexLessAppendZero(x[1..], y[1..]);
    }
  }

  /** Padding further than the longer list never changes the comparison. */
  lemma {:induction false} PadInvariant(a: seq<int>, b: seq<int>, n: nat)
    requires n >= Max(|a|, |b|)
    ensures LexLess(Pad(a, n), Pad(b, n)) == LexLess(Pad(a, Max(|a|, |b|)), Pad(b, Max(|a|, |b|)))
    decreases n
  {
    var m := Max(|a|, |b|);
    if n > m {
      PadInvariant(a, b, n - 1);
      assert Pad(a, n) == Pad(a, n - 1) + [0];
      assert Pad(b, n) == Pad(b, n - 1) + [0];
      LexLessAppendZero(Pad(a, n - 1), Pad(b, n - 1));
    }
  }

  /** No version is newer than itself. */
  lemma IsNewerVersionIrreflexive(v: string)
    ensures !IsNewerVersion(v, v)
  {
    if ParseVersion(v).Some? {
      var c := ParseVersion(v).value;
      LexLessIrreflexive(Pad(c, |c|));
    }
  }

  /** Two versions are never each newer than the other. */
  lemma IsNewerVersionAsymmetric(a: string, b: string)
    ensures IsNewerVersion(a, b) ==> !IsNewerVersion(b, a)
  {
    if ParseVersion(a).Some? && ParseVersion(b).Some? {
      var x := ParseVersion(a).value;
      var y := ParseVersion(b).value;
      var n := Max(|x|, |y|);
      assert Max(|y|, |x|) == n;
      LexLessAsymmetric(Pad(x, n), Pad(y, n));
    }
  }

  /** "Newer than" chains: the comparator is a strict order. */
  lemma IsNewerVersionTransitive(a: string, b: string, c: string)
    ensures IsNewerVersion(a, b) && IsNewerVersion(b, c) ==> IsNewerVersion(a, c)
  {
    if IsNewerVersion(a, b) && IsNewerVersion(b, c) {
      var x := ParseVersion(a).value;
      var y := ParseVersion(b).value;
      var z := ParseVersion(c).value;
      ParsedComparison(a, b, x, y);
      ParsedComparison(b, c, y, z);
      ParsedComparison(a, c, x, z);
      PaddedTransitive(x, y, z);
    }
  }

  /** Padded comparison is transitive across lists of any lengths. */
  lemma PaddedTransitive(x: seq<int>, y: seq<int>, z: seq<int>)
    requires LexLess(Pad(x, Max(|x|, |y|)), Pad(y, Max(|x|, |y|)))
    requires LexLess(Pad(y, Max(|y|, |z|)), Pad(z, Max(|y|, |z|)))
    ensures LexLess(Pad(x, Max(|x|, |z|)), Pad(z, Max(|x|, |z|)))
  {
    var n := Max(Max(|x|, |y|), |z|);
    PadInvariant(x, y, n);
    PadInvariant(y, z, n);
    PadInvariant(x, z, n);
    LexLessTransitive(Pad(x, n), Pad(y, n), Pad(z, n));
  }

  /** Dotted rendering of version components, as the manifests write them. */
  function FormatVersion(xs: seq<nat>): string
    requires |xs| >= 1
    decreases |xs|
  {
    if |xs| == 1 then ShowNat(xs[0]) else ShowNat(xs[0]) + "." + FormatVersion(xs[1..])
  }

  lemma ComponentRoundTrip(n: nat)
    ensures '.' !in ShowNat(n)
    ensures ParseInt(ShowNat(n)) == Some(n)
  {
    ParseIntShowNat(n);
    assert forall c :: c in ShowNat(n) ==> IsDigit(c);
  }

  lemma ParseAllCons(p: string, ps: seq<string>)
    ensures ParseAll([p] + ps) ==
      if ParseInt(p).Some? && ParseAll(ps).Some? then Some([ParseInt(p).value] + ParseAll(ps).value) else None
  {
    ParseEachCons(p, ps);
    CollectCons(ParseInt(p), ParseEach(ps));
  }

  lemma ParseEachCons(p: string, ps: seq<string>)
    ensures ParseEach([p] + ps) == [ParseInt(p)] + ParseEach(ps)
  {
    assert ([p] + ps)[1..] == ps;
  }

  /** Parsing reads back every rendered version. */
  lemma {:induction false} ParseFormatVersion(xs: seq<nat>)
    requires |xs| >= 1
    ensures ParseVersion(FormatVersion(xs)) == Some(xs)
    decreases |xs|
  {
    if |xs| == 1 {
      FormatVersionSingle(xs);
    } else {
      ParseFormatVersion(xs[1..]);
      FormatVersionCons(xs);
    }
  }

  lemma FormatVersionSingle(xs: seq<nat>)
    requires |xs| == 1
    ensures ParseVersion(FormatVersion(xs)) == Some(xs)
  {
    ComponentRoundTrip(xs[0]);
    ParseVersionSingle(ShowNat(xs[0]), xs[0]);
    assert [xs[0]] == xs;
  }

  lemma FormatVersionCons(xs: seq<nat>)
    requires |xs| > 1 && ParseVersion(FormatVersion(xs[1..])) == Some(xs[1..])
    ensures ParseVersion(FormatVersion(xs)) == Some(xs)
  {
    var n := xs[0];
    var ns := xs[1..];
    FormatVersionUnfold(xs);
    ComponentRoundTrip(n);
    ParseVersionCons(ShowNat(n), FormatVersion(ns), n, ns);
    HeadTail(xs);
  }

  lemma FormatVersionUnfold(xs: seq<nat>)
    requires |xs| > 1
    ensures FormatVersion(xs) == ShowNat(xs[0]) + "." + FormatVersion(xs[1..])
  {
  }

  lemma HeadTail(xs: seq<nat>)
    requires |xs| > 0
    ensures [xs[0]] + xs[1..] == xs
  {
  }

  lemma ParseVersionSingle(head: string, n: int)
    requires '.' !in head && ParseInt(head) == Some(n)
    ensures ParseVersion(head) == Some([n])
  {
    assert Split(head, '.') == [head] + [];
    assert ParseAll([]) == Some([]) by {
      assert ParseEach([]) == [];
    }
    ParseAllCons(head, []);
    assert [n] + [] == [n];
  }

  lemma ParseVersionCons(head: string, rest: string, n: int, ns: seq<int>)
    requires '.' !in head && ParseInt(head) == Some(n) && ParseVersion(rest) == Some(ns)
    ensures ParseVersion(head + "." + rest) == Some([n] + ns)
  {
    SplitAfterPiece(head, '.', rest);
    ParseAllCons(head, Split(rest, '.'));
  }

  /** The documented examples of the comparator. */
  lemma IsNewerVersionExamples()
    ensures IsNewerVersion("1.2.3", "1.2.10")
    ensures !IsNewerVersion("1.10.0", "1.9.9")
    ensures !IsNewerVersion("1.2", "1.2.0")
  {
    NewerExample();
    OlderExample();
    PaddingExample();
  }

  lemma NewerExample()
    ensures IsNewerVersion("1.2.3", "1.2.10")
  {
    assert FormatVersion([1, 2, 3]) == "1.2.3";
    assert ShowNat(10) == "10";
    assert FormatVersion([1, 2, 10]) == "1.2.10";
    ParseFormatVersion([1, 2, 3]);
    ParseFormatVersion([1, 2, 10]);
  }

  lemma OlderExample()
    ensures !IsNewerVersion("1.10.0", "1.9.9")
  {
    assert ShowNat(10) == "10";
    assert FormatVersion([1, 10, 0]) == "1.10.0";
    assert FormatVersion([1, 9, 9]) == "1.9.9";
    ParseFormatVersion([1, 10, 0]);
    ParseFormatVersion([1, 9, 9]);
  }

  lemma PaddingExample()
    ensures !IsNewerVersion("1.2", "1.2.0")
  {
    assert FormatVersion([1, 2]) == "1.2";
    assert FormatVersion([1, 2, 0]) == "1.2.0";
    ParseFormatVersion([1, 2]);
    ParseFormatVersion([1, 2, 0]);
    assert Pad([1, 2], 3) == [1, 2, 0] && Pad([1, 2, 0], 3) == [1, 2, 0];
    LexLessIrreflexive([1, 2, 0]);
  }

  /** Once both versions parse, the comparator is the padded lexicographic order. */
  lemma ParsedComparison(a: string, b: string, x: seq<int>, y: seq<int>)
    requires ParseVersion(a) == Some(x) && ParseVersion(b) == Some(y)
    ensures IsNewerVersion(a, b) <==> LexLess(Pad(x, Max(|x|, |y|)), Pad(y, Max(|x|, |y|)))
  {
  }

  /** A non-numeric version such as "abc" is never older or newer than anything. */
  lemma NonNumericExample()
    ensures !IsNewerVersion("abc", "1.0.0")
  {
    var s := "abc";
    assert '.' !in s;
    assert Split(s, '.') == [s];
    assert IsTrimmed(s);
    assert !IsDigit(s[0]);
    assert ParseInt(s) == None;
  }

  /** One entry of `compare_versions`: the installed and the published version. */
  datatype Update = Update(current: string, latest: string)

  /** `local_tools.get(tool_name, "0.0.0")`. */
  function LocalVersion(local: Manifest, tool: string): string
  {
    if tool in local then local[tool] else Baseline
  }

  /** `compare_versions`: exactly the remotely published tools whose remote
      version is newer than the installed one, each recording both versions. */
  function CompareVersions(local: Manifest, remote: Manifest): (r: map<string, Update>)
    ensures r.Keys <= remote.Keys
    ensures forall t :: t in remote ==> (t in r <==> IsNewerVersion(LocalVersion(local, t), remote[t]))
    ensures forall t :: t in r ==> r[t].current == LocalVersion(local, t) && r[t].latest == remote[t]
  {
    map t | t in remote && IsNewerVersion(LocalVersion(local, t), remote[t])
      :: Update(LocalVersion(local, t), remote[t])
  }

  /** A tool installed at exactly the published version is never offered,
      and an offered update is never a downgrade. */
  lemma CompareVersionsSound(local: Manifest, remote: Manifest, t: string)
    ensures t in local && t in remote && local[t] == remote[t] ==> t !in CompareVersions(local, remote)
    ensures t in CompareVersions(local, remote) ==> !IsNewerVersion(remote[t], LocalVersion(local, t))
  {
    if t in remote {
      IsNewerVersionIrreflexive(remote[t]);
      IsNewerVersionAsymmetric(LocalVersion(local, t), remote[t]);
    }
  }

  /** A tool whose installed or published version has a component that is
      not a number is never offered as an update. */
  lemma MalformedNeverOffered(local: Manifest, remote: Manifest, t: string)
    requires t in remote
    requires
      || (exists i :: 0 <= i < |Split(LocalVersion(local, t), '.')| && ParseInt(Split(LocalVersion(local, t), '.')[i]).None?)
      || (exists i :: 0 <= i < |Split(remote[t], '.')| && ParseInt(Split(remote[t], '.')[i]).None?)
    ensures t !in CompareVersions(local, remote)
  {
    MalformedIsNeverNewer(LocalVersion(local, t), remote[t]);
  }

  /** The answer to the selection prompt: a list of tools, or ask again. */
  datatype Selection = Chosen(tools: seq<string>) | Reprompt

  ghost predicate IsSubsequence(a: seq<string>, b: seq<string>)
    decreases |b|
  {
    |a| == 0 || (|b| > 0 && ((a[0] == b[0] && IsSubsequence(a[1..], b[1..])) || IsSubsequence(a, b[1..])))
  }

  /** `[tool for tool in all_tools if tool in updates_available]`. */
  function Updatable(allTools: seq<string>, updates: set<string>): (r: seq<string>)
    ensures forall t :: t in r <==> t in allTools && t in updates
    ensures IsSubsequence(r, allTools)
    decreases |allTools|
  {
    if |allTools| == 0 then []
    else
      var rest := Updatable(allTools[1..], updates);
      assert forall t :: t in allTools <==> t == allTools[0] || t in allTools[1..];
      if allTools[0] in updates then [allTools[0]] + rest else rest
  }

  /** What one typed number contributes: the tool at that 1-based position
      of the list, when there is one and it has an update. */
  function PickOne(n: int, toolList: seq<string>, updates: set<string>): seq<string>
  {
    if 1 <= n <= |toolList| && toolList[n - 1] in updates then [toolList[n - 1]] else []
  }

  /** The loop over `selections`: each number's contribution, in the order typed. */
  function Picks(numbers: seq<int>, toolList: seq<string>, updates: set<string>): seq<string>
    decreases |numbers|
  {
    if |numbers| == 0 then [] else PickOne(numbers[0], toolList, updates) + Picks(numbers[1..], toolList, updates)
  }

  /** A tool is picked exactly when some typed number names it and it has an update. */
  lemma {:induction false} PicksMembers(numbers: seq<int>, toolList: seq<string>, updates: set<string>)
    ensures |Picks(numbers, toolList, updates)| <= |numbers|
    ensures forall t :: t in Picks(numbers, toolList, updates) <==>
      exists k :: 0 <= k < |numbers| && 1 <= numbers[k] <= |toolList| && toolList[numbers[k] - 1] == t && t in updates
    decreases |numbers|
  {
    if |numbers| > 0 {
      PicksMembers(numbers[1..], toolList, updates);
      assert forall k :: 1 <= k < |numbers| ==> numbers[k] == numbers[1..][k - 1];
    }
  }

  /** The picks of a list of numbers are the picks of its parts, in order. */
  lemma {:induction false} PicksAppend(a: seq<int>, b: seq<int>, toolList: seq<string>, updates: set<string>)
    ensures Picks(a + b, toolList, updates) == Picks(a, toolList, updates) + Picks(b, toolList, updates)
    decreases |a|
  {
    if |a| == 0 {
      assert a + b == b;
    } else {
      assert (a + b)[1..] == a[1..] + b;
      assert (a + b)[0] == a[0];
      PicksAppend(a[1..], b, toolList, updates);
    }
  }

  /** The numeric answer: each 1-based number that names a listed tool with
      an update contributes that tool, in the order typed. */
  function PickByNumber(numbers: seq<int>, toolList: seq<string>, updates: set<string>): (r: seq<string>)
    ensures |r| <= |numbers|
    ensures forall t :: t in r <==>
      exists k :: 0 <= k < |numbers| && 1 <= numbers[k] <= |toolList| && toolList[numbers[k] - 1] == t && t in updates
  {
    PicksMembers(numbers, toolList, updates);
    Picks(numbers, toolList, updates)
  }

  /** Picking from a list of numbers typed in two parts gives the picks of
      the first part followed by those of the second. */
  lemma PickByNumberAppend(a: seq<int>, b: seq<int>, toolList: seq<string>, updates: set<string>)
    ensures PickByNumber(a + b, toolList, updates) == PickByNumber(a, toolList, updates) + PickByNumber(b, toolList, updates)
  {
    PicksAppend(a, b, toolList, updates);
  }

  /** A single number picks the tool at that 1-based position, and only
      when the position exists and the tool has an update. */
  lemma PickByNumberOne(n: int, toolList: seq<string>, updates: set<string>)
    ensures 1 <= n <= |toolList| && toolList[n - 1] in updates ==> PickByNumber([n], toolList, updates) == [toolList[n - 1]]
    ensures !(1 <= n <= |toolList| && toolList[n - 1] in updates) ==> PickByNumber([n], toolList, updates) == []
  {
    assert [n][1..] == [];
    assert Picks([n], toolList, updates) == PickOne(n, toolList, updates) + Picks([], toolList, updates);
  }

  /** One round of the selection prompt of `display_update_options`. */
  function ChooseOnce(updates: set<string>, allTools: seq<string>, answer: string): (r: Selection)
    ensures Lower(Trim(answer)) == "none" ==> r == Chosen([])
    ensures Lower(Trim(answer)) == "all" ==> r == Chosen(Updatable(allTools, updates))
    ensures r.Chosen? ==> forall t :: t in r.tools ==> t in updates && t in allTools
    ensures r == Chosen([]) ==> Lower(Trim(answer)) in {"none", "all"}
    ensures Lower(Trim(answer)) != "none" && Lower(Trim(answer)) != "all" ==>
      var numbers := ParseAll(Split(Lower(Trim(answer)), ','));
      && (numbers.None? ==> r == Reprompt)
      && (numbers.Some? ==> (r == Reprompt <==> PickByNumber(numbers.value, allTools, updates) == []))
      && (numbers.Some? && r.Chosen? ==> r.tools == PickByNumber(numbers.value, allTools, updates))
  {
    var a := Lower(Trim(answer));
    if a == "none" then Chosen([])
    else if a == "all" then Chosen(Updatable(allTools, updates))
    else
      var numbers := ParseAll(Split(a, ','));
      if numbers.None? then Reprompt
      else
        var picked := PickByNumber(numbers.value, allTools, updates);
        if picked == [] then Reprompt else Chosen(picked)
  }

  /** The outcome of each round of the prompt, one per answer. */
  function Rounds(updates: set<string>, allTools: seq<string>, answers: seq<string>): (r: seq<Selection>)
    ensures |r| == |answers|
    ensures forall i :: 0 <= i < |answers| ==> r[i] == ChooseOnce(updates, allTools, answers[i])
  {
    seq(|answers|, i requires 0 <= i < |answers| => ChooseOnce(updates, allTools, answers[i]))
  }

  /** Round `i` settles the prompt with `tools`, and every earlier round
      was sent back. */
  predicate DecidedAt(rounds: seq<Selection>, i: int, tools: seq<string>)
  {
    0 <= i < |rounds| && rounds[i] == Chosen(tools) && forall j :: 0 <= j < i ==> rounds[j] == Reprompt
  }

  /** The `while True` loop: the selection of the first round that settles
      the prompt, or `None` while every round so far was sent back. */
  function FirstChosen(rounds: seq<Selection>): (r: Option<seq<string>>)
    ensures r.None? <==> forall i :: 0 <= i < |rounds| ==> rounds[i] == Reprompt
    ensures r.Some? ==> exists i :: DecidedAt(rounds, i, r.value)
    decreases |rounds|
  {
    if |rounds| == 0 then None
    else if rounds[0].Chosen? then
      assert DecidedAt(rounds, 0, rounds[0].tools);
      Some(rounds[0].tools)
    else
      var r := FirstChosen(rounds[1..]);
      assert forall i :: 1 <= i < |rounds| ==> rounds[i] == rounds[1..][i - 1];
      assert r.Some? ==> exists i :: DecidedAt(rounds, i, r.value) by {
        if r.Some? {
          var i :| DecidedAt(rounds[1..], i, r.value);
          assert DecidedAt(rounds, i + 1, r.value);
        }
      }
      r
  }

  /** The first settled round decides, whatever the rounds after it say. */
  lemma {:induction false} FirstChosenAt(rounds: seq<Selection>, i: nat, tools: seq<string>)
    requires i < |rounds| && rounds[i] == Chosen(tools)
    requires forall j :: 0 <= j < i ==> rounds[j] == Reprompt
    ensures FirstChosen(rounds) == Some(tools)
    decreases i
  {
    if i > 0 {
      assert rounds[i] == rounds[1..][i - 1];
      assert forall j :: 0 <= j < i - 1 ==> rounds[1..][j] == rounds[j + 1];
      FirstChosenAt(rounds[1..], i - 1, tools);
    }
  }

  /** `display_update_options` given the operator's successive answers:
      nothing is asked when there are no updates; otherwise the first answer
      that settles the prompt decides, and `None` means every answer given
      was sent back and the prompt is still waiting. */
  function SelectUpdates(updates: map<string, Update>, allTools: seq<string>, answers: seq<string>): (r: Option<seq<string>>)
    ensures |updates| == 0 ==> r == Some([])
    ensures r.Some? ==> forall t :: t in r.value ==> t in updates && t in allTools
    ensures r.None? ==> forall i :: 0 <= i < |answers| ==> ChooseOnce(updates.Keys, allTools, answers[i]) == Reprompt
    ensures r.Some? && |updates| > 0 ==> exists i :: DecidedAt(Rounds(updates.Keys, allTools, answers), i, r.value)
  {
    if |updates| == 0 then Some([])
    else FirstChosen(Rounds(updates.Keys, allTools, answers))
  }

  /** The converse: when answer `i` is the first to settle the prompt, its
      selection is the result. */
  lemma SelectUpdatesFirstSettled(updates: map<string, Update>, allTools: seq<string>, answers: seq<string>, i: nat, tools: seq<string>)
    requires |updates| > 0 && i < |answers|
    requires ChooseOnce(updates.Keys, allTools, answers[i]) == Chosen(tools)
    requires forall j :: 0 <= j < i ==> ChooseOnce(updates.Keys, allTools, answers[j]) == Reprompt
    ensures SelectUpdates(updates, allTools, answers) == Some(tools)
  {
    FirstChosenAt(Rounds(updates.Keys, allTools, answers), i, tools);
  }

  /** What happened to one selected tool's folder during installation. */
  datatype CopyOutcome = SourceMissing | CopyFailed | Copied

  /** `success_count` of `update_tools`. */
  function CopiedCount(outcomes: seq<CopyOutcome>): (n: nat)
    ensures n <= |outcomes|
    ensures n > 0 <==> Copied in outcomes
    decreases |outcomes|
  {
    if |outcomes| == 0 then 0
    else
      assert forall o :: o in outcomes <==> o == outcomes[0] || o in outcomes[1..];
      (if outcomes[0] == Copied then 1 else 0) + CopiedCount(outcomes[1..])
  }

  /** `local["tools"][t] = remote["tools"][t]` for each `t` of `tools` the
      remote manifest lists; every other entry is left alone. */
  function RecordVersions(local: Manifest, remote: Manifest, tools: seq<string>): (r: Manifest)
    ensures forall t :: t in tools && t in remote ==> t in r && r[t] == remote[t]
    ensures forall t :: !(t in tools && t in remote) ==> (t in r <==> t in local)
    ensures forall t :: !(t in tools && t in remote) && t in local ==> r[t] == local[t]
    decreases |tools|
  {
    if |tools| == 0 then local
    else
      var last := tools[|tools| - 1];
      var m := RecordVersions(local, remote, tools[..|tools| - 1]);
      assert forall t :: t in tools <==> t == last || t in tools[..|tools| - 1];
      if last in remote then m[last := remote[last]] else m
  }

  /** The versions write-back of `update_tools` as the source writes it: once
      any tool was copied, EVERY selected tool the remote manifest lists is
      recorded at its remote version, including tools whose copy failed.
      The flag is the function's return value, `success_count > 0`. */
  function InstallUpdatesAsWritten(local: Manifest, remote: Manifest, selected: seq<string>, outcomes: seq<CopyOutcome>): (r: (Manifest, bool))
    requires |outcomes| == |selected|
    ensures r.1 <==> Copied in outcomes
    ensures !r.1 ==> r.0 == local
    ensures r.1 ==> forall t :: t in selected && t in remote ==> t in r.0 && r.0[t] == remote[t]
    ensures r.1 ==> forall t :: !(t in selected && t in remote) ==> (t in r.0 <==> t in local)
    ensures r.1 ==> forall t :: !(t in selected && t in remote) && t in local ==> r.0[t] == local[t]
  {
    var ok := CopiedCount(outcomes) > 0;
    (if ok then RecordVersions(local, remote, selected) else local, ok)
  }

  /** A selected tool whose copy failed is no longer offered after the
      as-written write-back, as soon as some other tool was copied. */
  lemma FailedCopyHiddenAsWritten(local: Manifest, remote: Manifest, selected: seq<string>, outcomes: seq<CopyOutcome>, i: nat)
    requires |outcomes| == |selected| && i < |selected|
    requires outcomes[i] != Copied && Copied in outcomes
    requires selected[i] in remote
    ensures selected[i] !in CompareVersions(InstallUpdatesAsWritten(local, remote, selected, outcomes).0, remote)
  {
    var after := InstallUpdatesAsWritten(local, remote, selected, outcomes).0;
    assert selected[i] in selected;
    CompareVersionsSound(after, remote, selected[i]);
  }

  /** The tools whose folder was actually copied, in selection order. */
  function CopiedTools(selected: seq<string>, outcomes: seq<CopyOutcome>): (r: seq<string>)
    requires |outcomes| == |selected|
    ensures forall t :: t in r <==> exists i :: 0 <= i < |selected| && selected[i] == t && outcomes[i] == Copied
    decreases |selected|
  {
    if |selected| == 0 then []
    else
      var rest := CopiedTools(selected[1..], outcomes[1..]);
      assert forall i :: 1 <= i < |selected| ==> selected[i] == selected[1..][i - 1] && outcomes[i] == outcomes[1..][i - 1];
      if outcomes[0] == Copied then [selected[0]] + rest else rest
  }

  /** The versions write-back the installer needs: only tools whose copy
      succeeded move to their remote version, and the manifest is rewritten
      only when at least one copy succeeded. */
  function InstallUpdates(local: Manifest, remote: Manifest, selected: seq<string>, outcomes: seq<CopyOutcome>): (r: (Manifest, bool))
    requires |outcomes| == |selected|
    ensures r.1 <==> Copied in outcomes
    ensures !r.1 ==> r.0 == local
    ensures forall i :: 0 <= i < |selected| && outcomes[i] == Copied && selected[i] in remote ==>
      selected[i] in r.0 && r.0[selected[i]] == remote[selected[i]]
    ensures forall t :: (forall i :: 0 <= i < |selected| && selected[i] == t ==> outcomes[i] != Copied) ==>
      (t in r.0 <==> t in local) && (t in local ==> r.0[t] == local[t])
  {
    var ok := CopiedCount(outcomes) > 0;
    var copied := CopiedTools(selected, outcomes);
    (if ok then RecordVersions(local, remote, copied) else local, ok)
  }

  /** After the corrected write-back, a copied tool is up to date and a tool
      whose copies all failed is still offered, exactly as before. */
  lemma InstallUpdatesKeepsFailedOffered(local: Manifest, remote: Manifest, selected: seq<string>, outcomes: seq<CopyOutcome>, t: string)
    requires |outcomes| == |selected|
    ensures var after := InstallUpdates(local, remote, selected, outcomes).0;
      && ((exists i :: 0 <= i < |selected| && selected[i] == t && outcomes[i] == Copied) && t in remote ==>
            t !in CompareVersions(after, remote))
      && ((forall i :: 0 <= i < |selected| && selected[i] == t ==> outcomes[i] != Copied) ==>
            (t in CompareVersions(after, remote) <==> t in CompareVersions(local, remote)))
  {
    if (exists i :: 0 <= i < |selected| && selected[i] == t && outcomes[i] == Copied) && t in remote {
      var i :| 0 <= i < |selected| && selected[i] == t && outcomes[i] == Copied;
      CopiedToolUpToDate(local, remote, selected, outcomes, i);
    }
    if forall i :: 0 <= i < |selected| && selected[i] == t ==> outcomes[i] != Copied {
      FailedToolStillOffered(local, remote, selected, outcomes, t);
    }
  }

  lemma CopiedToolUpToDate(local: Manifest, remote: Manifest, selected: seq<string>, outcomes: seq<CopyOutcome>, i: nat)
    requires |outcomes| == |selected| && i < |selected|
    requires outcomes[i] == Copied && selected[i] in remote
    ensures selected[i] !in CompareVersions(InstallUpdates(local, remote, selected, outcomes).0, remote)
  {
    var after := InstallUpdates(local, remote, selected, outcomes).0;
    CompareVersionsSound(after, remote, selected[i]);
  }

  lemma FailedToolStillOffered(local: Manifest, remote: Manifest, selected: seq<string>, outcomes: seq<CopyOutcome>, t: string)
    requires |outcomes| == |selected|
    requires forall i :: 0 <= i < |selected| && selected[i] == t ==> outcomes[i] != Copied
    ensures t in CompareVersions(InstallUpdates(local, remote, selected, outcomes).0, remote) <==>
      t in CompareVersions(local, remote)
  {
    var after := InstallUpdates(local, remote, selected, outcomes).0;
    assert LocalVersion(after, t) == LocalVersion(local, t);
  }

  /** Age limit of the cached remote manifest, in seconds (24 hours). */
  const CacheMaxAgeSeconds: int := 24 * 3600

  /** The cache file's content: `timestamp` and `versions`, each possibly absent. */
  datatype VersionsCache = VersionsCache(timestamp: Option<int>, versions: Option<Manifest>)

  /** `save_versions_cache`: the manifest stamped with the current time. */
  function SaveVersionsCache(versions: Manifest, now: int): VersionsCache
  {
    VersionsCache(Some(now), Some(versions))
  }

  /** `load_versions_cache`: `cache` is `None` when the file is absent or
      unreadable; a missing timestamp counts as 0; the cached manifest is
      used only while it is less than 24 hours old. */
  function LoadVersionsCache(cache: Option<VersionsCache>, now: int): (r: Option<Manifest>)
    ensures r.Some? ==> cache.Some? && cache.value.versions == r
    ensures r.Some? ==> now - cache.value.timestamp.GetOr(0) < CacheMaxAgeSeconds
    ensures cache.Some? && now - cache.value.timestamp.GetOr(0) < CacheMaxAgeSeconds ==> r == cache.value.versions
  {
    match cache
    case None => None
    case Some(c) =>
      if now - c.timestamp.GetOr(0) < CacheMaxAgeSeconds then c.versions else None
  }

  /** A saved manifest reads back unchanged until 24 hours have passed, and
      not after. */
  lemma CacheRoundTrip(versions: Manifest, saved: int, now: int)
    ensures LoadVersionsCache(Some(SaveVersionsCache(versions, saved)), now) ==
      (if now < saved + CacheMaxAgeSeconds then Some(versions) else None)
  {
  }
}
