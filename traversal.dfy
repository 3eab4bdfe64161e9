/**
 * What the two worklist walks of `WorkspaceInfo` compute, as functions of the
 * worklist, with independent recursive (depth-first) definitions to compare
 * them against.
 *
 * `_checkInputFileDir` walks breadth-first from the workspace root, testing each
 * child directory's path against the input pattern: a match is reported (and
 * scanned) and never entered, any other directory is queued.
 * `_loadInputFiles` walks every directory below one input directory and
 * registers each file with the record extension under its key.
 */
module Traversal {
  import opened Text
  import opened Paths
  import opened Tree
  import opened Nodes
  import opened Files

  // ======== input-directory discovery ========

  /** A queued directory: its path and its listing. */
  datatype Pending = Pending(path: string, entries: seq<Entry>)

  /** A bound on the work left in a queue: every queued directory and every entry below it. */
  function Weight(q: seq<Pending>): nat {
    if q == [] then 0 else 1 + SizeAll(q[0].entries) + Weight(q[1..])
  }

  lemma {:induction false} WeightAppend(a: seq<Pending>, b: seq<Pending>)
    ensures Weight(a + b) == Weight(a) + Weight(b)
  {
    if a == [] {
      assert a + b == b;
    } else {
      assert (a + b)[1..] == a[1..] + b;
      WeightAppend(a[1..], b);
    }
  }

  /** Whether entry `e` of directory `base` is a directory whose path the pattern matches. */
  predicate IsMatch(base: string, e: Entry, pattern: string) {
    e.Directory? && Contains(Join(base, e.name), pattern)
  }

  /** The child directories of `base` the pattern matches, in listing order. */
  function Matched(base: string, es: seq<Entry>, pattern: string): seq<Pending> {
    if es == [] then []
    else
      (if IsMatch(base, es[0], pattern) then [Pending(Join(base, es[0].name), es[0].children)] else [])
      + Matched(base, es[1..], pattern)
  }

  /** The child directories of `base` the pattern does not match, in listing order. */
  function Unmatched(base: string, es: seq<Entry>, pattern: string): seq<Pending> {
    if es == [] then []
    else
      (if es[0].Directory? && !IsMatch(base, es[0], pattern) then [Pending(Join(base, es[0].name), es[0].children)] else [])
      + Unmatched(base, es[1..], pattern)
  }

  lemma {:induction false} UnmatchedWeight(base: string, es: seq<Entry>, pattern: string)
    ensures Weight(Unmatched(base, es, pattern)) <= SizeAll(es)
  {
    if es != [] {
      UnmatchedWeight(base, es[1..], pattern);
      var head := if es[0].Directory? && !IsMatch(base, es[0], pattern) then [Pending(Join(base, es[0].name), es[0].children)] else [];
      WeightAppend(head, Unmatched(base, es[1..], pattern));
    }
  }

  /**
   * The input directories the breadth-first walk from queue `q` reports, in the
   * order it reports them.
   */
  function Discover(q: seq<Pending>, pattern: string): seq<Pending>
    decreases Weight(q)
  {
    if q == [] then []
    else
      var rest := Unmatched(q[0].path, q[0].entries, pattern);
      WeightAppend(q[1..], rest);
      UnmatchedWeight(q[0].path, q[0].entries, pattern);
      Matched(q[0].path, q[0].entries, pattern) + Discover(q[1..] + rest, pattern)
  }

  /** The paths of a list of directories. */
  function PathsOf(ps: seq<Pending>): (r: seq<string>)
    ensures |r| == |ps| && forall i :: 0 <= i < |ps| ==> r[i] == ps[i].path
  {
    seq(|ps|, i requires 0 <= i < |ps| => ps[i].path)
  }

  function AsSet(s: seq<string>): set<string> {
    set x | x in s
  }

  /**
   * Reference definition, depth first: the matching directories below `base`,
   * where a matching directory is reported and not entered and any other
   * directory is entered.  `base` itself is never tested.
   */
  function MatchesBelow(base: string, es: seq<Entry>, pattern: string): set<string>
    decreases es
  {
    if es == [] then {}
    else
      var here :=
        if !es[0].Directory? then {}
        else if IsMatch(base, es[0], pattern) then {Join(base, es[0].name)}
        else MatchesBelow(Join(base, es[0].name), es[0].children, pattern);
      here + MatchesBelow(base, es[1..], pattern)
  }

  function QueueMatches(q: seq<Pending>, pattern: string): set<string> {
    if q == [] then {} else MatchesBelow(q[0].path, q[0].entries, pattern) + QueueMatches(q[1..], pattern)
  }

  lemma {:induction false} QueueMatchesAppend(a: seq<Pending>, b: seq<Pending>, pattern: string)
    ensures QueueMatches(a + b, pattern) == QueueMatches(a, pattern) + QueueMatches(b, pattern)
  {
    if a == [] {
      assert a + b == b;
    } else {
      assert (a + b)[1..] == a[1..] + b;
      QueueMatchesAppend(a[1..], b, pattern);
    }
  }

  lemma PathsOfCons(p: Pending, m: seq<Pending>)
    ensures AsSet(PathsOf([p] + m)) == {p.path} + AsSet(PathsOf(m))
  {
    assert PathsOf([p] + m) == [p.path] + PathsOf(m);
  }

  lemma QueueMatchesCons(p: Pending, u: seq<Pending>, pattern: string)
    ensures QueueMatches([p] + u, pattern) == MatchesBelow(p.path, p.entries, pattern) + QueueMatches(u, pattern)
  {
    assert ([p] + u)[1..] == u;
  }

  lemma {:induction false} MatchesBelowSplit(base: string, es: seq<Entry>, pattern: string)
    ensures MatchesBelow(base, es, pattern)
         == AsSet(PathsOf(Matched(base, es, pattern))) + QueueMatches(Unmatched(base, es, pattern), pattern)
  {
    if es != [] {
      MatchesBelowSplit(base, es[1..], pattern);
      var m := Matched(base, es[1..], pattern);
      var u := Unmatched(base, es[1..], pattern);
      if IsMatch(base, es[0], pattern) {
        var p := Pending(Join(base, es[0].name), es[0].children);
        assert Matched(base, es, pattern) == [p] + m;
        PathsOfCons(p, m);
        assert Unmatched(base, es, pattern) == u;
      } else if es[0].Directory? {
        var p := Pending(Join(base, es[0].name), es[0].children);
        assert Matched(base, es, pattern) == m;
        assert Unmatched(base, es, pattern) == [p] + u;
        QueueMatchesCons(p, u, pattern);
      } else {
        assert Matched(base, es, pattern) == m;
        assert Unmatched(base, es, pattern) == u;
      }
    }
  }

  /**
   * Coverage of the breadth-first walk: it reports exactly the directories the
   * depth-first definition finds below every queued directory.
   */
  lemma {:induction false} DiscoverCovers(q: seq<Pending>, pattern: string)
    ensures AsSet(PathsOf(Discover(q, pattern))) == QueueMatches(q, pattern)
    decreases Weight(q)
  {
    if q != [] {
      var m := Matched(q[0].path, q[0].entries, pattern);
      var rest := Unmatched(q[0].path, q[0].entries, pattern);
      WeightAppend(q[1..], rest);
      UnmatchedWeight(q[0].path, q[0].entries, pattern);
      DiscoverCovers(q[1..] + rest, pattern);
      QueueMatchesAppend(q[1..], rest, pattern);
      MatchesBelowSplit(q[0].path, q[0].entries, pattern);
      var d := Discover(q[1..] + rest, pattern);
      assert Discover(q, pattern) == m + d;
      PathsOfUnion(m, d);
    }
  }

  /** The reported paths of two batches of matches are the union of each batch's paths. */
  lemma PathsOfUnion(m: seq<Pending>, d: seq<Pending>)
    ensures AsSet(PathsOf(m + d)) == AsSet(PathsOf(m)) + AsSet(PathsOf(d))
  {
    assert PathsOf(m + d) == PathsOf(m) + PathsOf(d);
    assert AsSet(PathsOf(m) + PathsOf(d)) == AsSet(PathsOf(m)) + AsSet(PathsOf(d));
  }

  /** From the workspace root: the reported input directories are exactly `MatchesBelow(root, …)`. */
  lemma DiscoverFromRoot(root: string, es: seq<Entry>, pattern: string)
    ensures AsSet(PathsOf(Discover([Pending(root, es)], pattern))) == MatchesBelow(root, es, pattern)
  {
    DiscoverCovers([Pending(root, es)], pattern);
    assert [Pending(root, es)][1..] == [];
  }

  /** Every reported input directory's path contains the pattern. */
  lemma {:induction false} MatchesContainPattern(base: string, es: seq<Entry>, pattern: string, p: string)
    requires p in MatchesBelow(base, es, pattern)
    ensures Contains(p, pattern)
    decreases es
  {
    if es[0].Directory? && !IsMatch(base, es[0], pattern) && p in MatchesBelow(Join(base, es[0].name), es[0].children, pattern) {
      MatchesContainPattern(Join(base, es[0].name), es[0].children, pattern, p);
    } else if p in MatchesBelow(base, es[1..], pattern) {
      MatchesContainPattern(base, es[1..], pattern, p);
    }
  }

  /**
   * A directory the pattern matches is reported, and nothing below it is:
   * whatever it contains, the reported directories are the same.
   */
  lemma {:induction false} MatchReportedNotEntered(base: string, es: seq<Entry>, pattern: string, i: nat, cs: seq<Entry>)
    requires i < |es| && IsMatch(base, es[i], pattern)
    ensures Join(base, es[i].name) in MatchesBelow(base, es, pattern)
    ensures MatchesBelow(base, es[i := Directory(es[i].name, cs)], pattern) == MatchesBelow(base, es, pattern)
    decreases i
  {
    var es' := es[i := Directory(es[i].name, cs)];
    if i > 0 {
      MatchReportedNotEntered(base, es[1..], pattern, i - 1, cs);
      assert es'[1..] == es[1..][i - 1 := Directory(es[i].name, cs)];
      assert es'[0] == es[0];
    } else {
      assert es'[1..] == es[1..];
    }
  }

  // ======== record-file enumeration ========

  /** A queued directory below an input directory: its path relative to it, and its listing. */
  datatype LoadDir = LoadDir(rel: string, entries: seq<Entry>)

  /** Registering one record file: its key and the `FileInfo` value built for it. */
  type Registration = (string, FileRecord)

  function LoadWeight(q: seq<LoadDir>): nat {
    if q == [] then 0 else 1 + SizeAll(q[0].entries) + LoadWeight(q[1..])
  }

  lemma {:induction false} LoadWeightAppend(a: seq<LoadDir>, b: seq<LoadDir>)
    ensures LoadWeight(a + b) == LoadWeight(a) + LoadWeight(b)
  {
    if a == [] {
      assert a + b == b;
    } else {
      assert (a + b)[1..] == a[1..] + b;
      LoadWeightAppend(a[1..], b);
    }
  }

  /** Whether entry `e` is a file with the record extension. */
  predicate IsRecordFile(e: Entry, ext: string) {
    e.File? && ExtName(e.name) == ext
  }

  /** The registration of record file `e` in directory `base` of input directory `inputPath`. */
  function RegistrationOf(inputPath: string, base: string, e: Entry): Registration
    requires e.File?
  {
    (Join(base, StripExt(e.name)),
     FileRecord(Join(inputPath, Join(base, e.name)), Join(base, e.name), ReadRecords(e.text)))
  }

  /** The record files of one directory, in listing order. */
  function FileRegs(inputPath: string, ext: string, base: string, es: seq<Entry>): seq<Registration> {
    if es == [] then []
    else
      (if IsRecordFile(es[0], ext) then [RegistrationOf(inputPath, base, es[0])] else [])
      + FileRegs(inputPath, ext, base, es[1..])
  }

  /** The subdirectories of one directory, in listing order. */
  function SubDirs(base: string, es: seq<Entry>): seq<LoadDir> {
    if es == [] then []
    else
      (if es[0].Directory? then [LoadDir(Join(base, es[0].name), es[0].children)] else [])
      + SubDirs(base, es[1..])
  }

  lemma {:induction false} SubDirsWeight(base: string, es: seq<Entry>)
    ensures LoadWeight(SubDirs(base, es)) <= SizeAll(es)
  {
    if es != [] {
      SubDirsWeight(base, es[1..]);
      var head := if es[0].Directory? then [LoadDir(Join(base, es[0].name), es[0].children)] else [];
      LoadWeightAppend(head, SubDirs(base, es[1..]));
    }
  }

  /** Every registration the walk from queue `q` makes, in the order it makes them. */
  function Registrations(inputPath: string, ext: string, q: seq<LoadDir>): seq<Registration>
    decreases LoadWeight(q)
  {
    if q == [] then []
    else
      var rest := SubDirs(q[0].rel, q[0].entries);
      LoadWeightAppend(q[1..], rest);
      SubDirsWeight(q[0].rel, q[0].entries);
      FileRegs(inputPath, ext, q[0].rel, q[0].entries) + Registrations(inputPath, ext, q[1..] + rest)
  }

  /** `Map.set` for each registration in turn. */
  function SetAll(m: map<string, FileRecord>, regs: seq<Registration>): map<string, FileRecord> {
    if regs == [] then m
    else SetAll(m, regs[..|regs| - 1])[regs[|regs| - 1].0 := regs[|regs| - 1].1]
  }

  function KeysOf(regs: seq<Registration>): set<string> {
    set i | 0 <= i < |regs| :: regs[i].0
  }

  /** `_loadInputFiles(inputPath)` applied to the map `m`. */
  function LoadInput(m: map<string, FileRecord>, inputPath: string, es: seq<Entry>, ext: string): map<string, FileRecord> {
    SetAll(m, Registrations(inputPath, ext, [LoadDir("", es)]))
  }

  /** The keys `_loadInputFiles(inputPath)` sets. */
  function InputKeys(inputPath: string, es: seq<Entry>, ext: string): set<string> {
    KeysOf(Registrations(inputPath, ext, [LoadDir("", es)]))
  }

  /** `_loadInputFiles` for each reported input directory in turn. */
  function LoadAll(m: map<string, FileRecord>, found: seq<Pending>, ext: string): map<string, FileRecord> {
    if found == [] then m
    else
      var last := found[|found| - 1];
      LoadInput(LoadAll(m, found[..|found| - 1], ext), last.path, last.entries, ext)
  }

  /** The keys set while scanning every reported input directory. */
  function FoundKeys(found: seq<Pending>, ext: string): set<string> {
    if found == [] then {}
    else
      var last := found[|found| - 1];
      FoundKeys(found[..|found| - 1], ext) + InputKeys(last.path, last.entries, ext)
  }

  // ---- Map.set: keys, replacement, untouched keys ----

  /** The keys after the registrations are the old keys and the registered ones. */
  lemma {:induction false} SetAllKeys(m: map<string, FileRecord>, regs: seq<Registration>)
    ensures SetAll(m, regs).Keys == m.Keys + KeysOf(regs)
  {
    if regs != [] {
      var init := regs[..|regs| - 1];
      SetAllKeys(m, init);
      assert KeysOf(regs) == KeysOf(init) + {regs[|regs| - 1].0} by {
        forall k | k in KeysOf(regs) ensures k in KeysOf(init) + {regs[|regs| - 1].0} {
          var i :| 0 <= i < |regs| && regs[i].0 == k;
          if i < |regs| - 1 {
            assert init[i] == regs[i];
          }
        }
        forall k | k in KeysOf(init) ensures k in KeysOf(regs) {
          var i :| 0 <= i < |init| && init[i].0 == k;
          assert regs[i] == init[i];
        }
      }
    }
  }

  /**
   * A later registration under the same key replaces an earlier one: the value
   * kept is that of the last registration with that key.
   */
  lemma {:induction false} SetAllLastWins(m: map<string, FileRecord>, regs: seq<Registration>, i: nat)
    requires i < |regs|
    requires forall j :: i < j < |regs| ==> regs[j].0 != regs[i].0
    ensures regs[i].0 in SetAll(m, regs) && SetAll(m, regs)[regs[i].0] == regs[i].1
  {
    if i < |regs| - 1 {
      var init := regs[..|regs| - 1];
      SetAllLastWins(m, init, i);
    }
  }

  /** A key no registration uses keeps its old entry, or stays absent. */
  lemma {:induction false} SetAllUntouched(m: map<string, FileRecord>, regs: seq<Registration>, k: string)
    requires k !in KeysOf(regs)
    ensures k in SetAll(m, regs) <==> k in m
    ensures k in m ==> SetAll(m, regs)[k] == m[k]
  {
    if regs != [] {
      var init := regs[..|regs| - 1];
      forall i | 0 <= i < |init|
        ensures init[i].0 != k
      {
        assert init[i] == regs[i];
      }
      assert regs[|regs| - 1].0 != k;
      SetAllUntouched(m, init, k);
    }
  }

  /** What a registered key ends up holding does not depend on the map it started in. */
  lemma {:induction false} SetAllAgree(m1: map<string, FileRecord>, m2: map<string, FileRecord>, regs: seq<Registration>, k: string)
    requires k in KeysOf(regs)
    ensures k in SetAll(m1, regs) && k in SetAll(m2, regs) && SetAll(m1, regs)[k] == SetAll(m2, regs)[k]
  {
    var init := regs[..|regs| - 1];
    if regs[|regs| - 1].0 != k {
      var i :| 0 <= i < |regs| && regs[i].0 == k;
      assert init[i] == regs[i];
      SetAllAgree(m1, m2, init, k);
    }
  }

  // ---- the same three facts for a whole scan ----

  lemma {:induction false} LoadAllKeys(m: map<string, FileRecord>, found: seq<Pending>, ext: string)
    ensures LoadAll(m, found, ext).Keys == m.Keys + FoundKeys(found, ext)
  {
    if found != [] {
      var last := found[|found| - 1];
      LoadAllKeys(m, found[..|found| - 1], ext);
      SetAllKeys(LoadAll(m, found[..|found| - 1], ext), Registrations(last.path, ext, [LoadDir("", last.entries)]));
    }
  }

  lemma {:induction false} LoadAllUntouched(m: map<string, FileRecord>, found: seq<Pending>, ext: string, k: string)
    requires k !in FoundKeys(found, ext)
    ensures k in LoadAll(m, found, ext) <==> k in m
    ensures k in m ==> LoadAll(m, found, ext)[k] == m[k]
  {
    if found != [] {
      var last := found[|found| - 1];
      LoadAllUntouched(m, found[..|found| - 1], ext, k);
      SetAllUntouched(LoadAll(m, found[..|found| - 1], ext), Registrations(last.path, ext, [LoadDir("", last.entries)]), k);
    }
  }

  lemma {:induction false} LoadAllAgree(m1: map<string, FileRecord>, m2: map<string, FileRecord>, found: seq<Pending>, ext: string, k: string)
    requires k in FoundKeys(found, ext)
    ensures k in LoadAll(m1, found, ext) && k in LoadAll(m2, found, ext)
    ensures LoadAll(m1, found, ext)[k] == LoadAll(m2, found, ext)[k]
  {
    var init := found[..|found| - 1];
    var last := found[|found| - 1];
    var regs := Registrations(last.path, ext, [LoadDir("", last.entries)]);
    if k in KeysOf(regs) {
      SetAllAgree(LoadAll(m1, init, ext), LoadAll(m2, init, ext), regs, k);
    } else {
      LoadAllAgree(m1, m2, init, ext, k);
      SetAllUntouched(LoadAll(m1, init, ext), regs, k);
      SetAllUntouched(LoadAll(m2, init, ext), regs, k);
    }
  }

  // ---- coverage of the enumeration ----

  /**
   * Reference definition, depth first: the keys of every record file below the
   * directory `base` (relative to the input directory).
   */
  function RecordKeys(base: string, es: seq<Entry>, ext: string): set<string>
    decreases es
  {
    if es == [] then {}
    else
      var here :=
        if IsRecordFile(es[0], ext) then {Join(base, StripExt(es[0].name))}
        else if es[0].Directory? then RecordKeys(Join(base, es[0].name), es[0].children, ext)
        else {};
      here + RecordKeys(base, es[1..], ext)
  }

  function QueueKeys(q: seq<LoadDir>, ext: string): set<string> {
    if q == [] then {} else RecordKeys(q[0].rel, q[0].entries, ext) + QueueKeys(q[1..], ext)
  }

  lemma {:induction false} QueueKeysAppend(a: seq<LoadDir>, b: seq<LoadDir>, ext: string)
    ensures QueueKeys(a + b, ext) == QueueKeys(a, ext) + QueueKeys(b, ext)
  {
    if a == [] {
      assert a + b == b;
    } else {
      assert (a + b)[1..] == a[1..] + b;
      QueueKeysAppend(a[1..], b, ext);
    }
  }

  lemma KeysOfAppend(a: seq<Registration>, b: seq<Registration>)
    ensures KeysOf(a + b) == KeysOf(a) + KeysOf(b)
  {
    forall k | k in KeysOf(a + b) ensures k in KeysOf(a) + KeysOf(b) {
      var i :| 0 <= i < |a + b| && (a + b)[i].0 == k;
      if i >= |a| {
        assert b[i - |a|].0 == k;
      }
    }
    forall k | k in KeysOf(b) ensures k in KeysOf(a + b) {
      var i :| 0 <= i < |b| && b[i].0 == k;
      assert (a + b)[i + |a|] == b[i];
    }
    forall k | k in KeysOf(a) ensures k in KeysOf(a + b) {
      var i :| 0 <= i < |a| && a[i].0 == k;
      assert (a + b)[i] == a[i];
    }
  }

  lemma {:induction false} RecordKeysSplit(inputPath: string, ext: string, base: string, es: seq<Entry>)
    ensures RecordKeys(base, es, ext)
         == KeysOf(FileRegs(inputPath, ext, base, es)) + QueueKeys(SubDirs(base, es), ext)
  {
    if es != [] {
      RecordKeysSplit(inputPath, ext, base, es[1..]);
      var f := FileRegs(inputPath, ext, base, es[1..]);
      var s := SubDirs(base, es[1..]);
      var fh := if IsRecordFile(es[0], ext) then [RegistrationOf(inputPath, base, es[0])] else [];
      var sh := if es[0].Directory? then [LoadDir(Join(base, es[0].name), es[0].children)] else [];
      assert FileRegs(inputPath, ext, base, es) == fh + f;
      assert SubDirs(base, es) == sh + s;
      KeysOfAppend(fh, f);
      QueueKeysAppend(sh, s, ext);
      if sh != [] {
        assert QueueKeys(sh, ext) == RecordKeys(Join(base, es[0].name), es[0].children, ext);
      }
    }
  }

  /**
   * Coverage of the enumeration: the keys it registers are exactly those the
   * depth-first definition finds below every queued directory.
   */
  lemma {:induction false} RegistrationsCover(inputPath: string, ext: string, q: seq<LoadDir>)
    ensures KeysOf(Registrations(inputPath, ext, q)) == QueueKeys(q, ext)
    decreases LoadWeight(q)
  {
    if q != [] {
      var rest := SubDirs(q[0].rel, q[0].entries);
      LoadWeightAppend(q[1..], rest);
      SubDirsWeight(q[0].rel, q[0].entries);
      RegistrationsCover(inputPath, ext, q[1..] + rest);
      QueueKeysAppend(q[1..], rest, ext);
      RecordKeysSplit(inputPath, ext, q[0].rel, q[0].entries);
      KeysOfAppend(FileRegs(inputPath, ext, q[0].rel, q[0].entries), Registrations(inputPath, ext, q[1..] + rest));
    }
  }

  /** Scanning one input directory sets exactly the keys of the record files below it. */
  lemma InputKeysAreRecordKeys(inputPath: string, es: seq<Entry>, ext: string)
    ensures InputKeys(inputPath, es, ext) == RecordKeys("", es, ext)
  {
    RegistrationsCover(inputPath, ext, [LoadDir("", es)]);
    assert [LoadDir("", es)][1..] == [];
  }

  /**
   * Every record file anywhere below the input directory gets a key, and that
   * key is its directory segments joined with its name minus the extension.
   */
  lemma {:induction false} RecordFileHasKey(prefix: seq<string>, es: seq<Entry>, ds: seq<string>, name: string, text: string, ext: string)
    requires ValidNames(prefix) && ValidTree(es)
    requires FileAt(es, ds, name, text) && ExtName(name) == ext
    ensures RelKey(prefix + ds, name) in RecordKeys(JoinWith(prefix, '/'), es, ext)
    decreases es
  {
    if ds == [] {
      assert prefix + ds == prefix;
      RecordFileHere(prefix, es, name, text, ext);
    } else {
      var i :| 0 <= i < |es| && es[i].Directory? && es[i].name == ds[0] && FileAt(es[i].children, ds[1..], name, text);
      var sub := prefix + [ds[0]];
      assert ValidName(es[i].name) && ValidChildren(es[i]);
      ValidNamesSnoc(prefix, ds[0]);
      JoinSegment(prefix, ds[0]);
      RecordFileHasKey(sub, es[i].children, ds[1..], name, text, ext);
      PrefixStep(prefix, ds);
      RecordKeysBelow(JoinWith(prefix, '/'), es, ext, i);
    }
  }

  // ---- what a key ends up holding ----

  /**
   * Reference definition, depth first: the texts of the record files below the
   * directory `base` whose key is `k`.
   */
  function RecordTexts(base: string, es: seq<Entry>, ext: string, k: string): set<string>
    decreases es
  {
    if es == [] then {}
    else
      var here :=
        if IsRecordFile(es[0], ext) && Join(base, StripExt(es[0].name)) == k then {es[0].text}
        else if es[0].Directory? then RecordTexts(Join(base, es[0].name), es[0].children, ext, k)
        else {};
      here + RecordTexts(base, es[1..], ext, k)
  }

  function QueueTexts(q: seq<LoadDir>, ext: string, k: string): set<string> {
    if q == [] then {} else RecordTexts(q[0].rel, q[0].entries, ext, k) + QueueTexts(q[1..], ext, k)
  }

  /** Every registration under key `k` holds the nodes of `text`. */
  predicate RegsHold(regs: seq<Registration>, k: string, text: string) {
    forall i :: 0 <= i < |regs| && regs[i].0 == k ==> regs[i].1.diagnos == ReadRecords(text)
  }

  lemma {:induction false} QueueTextsAppend(a: seq<LoadDir>, b: seq<LoadDir>, ext: string, k: string)
    ensures QueueTexts(a + b, ext, k) == QueueTexts(a, ext, k) + QueueTexts(b, ext, k)
  {
    if a == [] {
      assert a + b == b;
    } else {
      assert (a + b)[1..] == a[1..] + b;
      QueueTextsAppend(a[1..], b, ext, k);
    }
  }

  lemma RegsHoldAppend(a: seq<Registration>, b: seq<Registration>, k: string, text: string)
    requires RegsHold(a, k, text) && RegsHold(b, k, text)
    ensures RegsHold(a + b, k, text)
  {
    forall i | 0 <= i < |a + b| && (a + b)[i].0 == k
      ensures (a + b)[i].1.diagnos == ReadRecords(text)
    {
      if i >= |a| {
        assert (a + b)[i] == b[i - |a|];
      }
    }
  }

  /** The record files of one directory, and the directories it queues, hold only texts the depth-first definition finds. */
  lemma {:induction false} FileRegsHold(inputPath: string, ext: string, base: string, es: seq<Entry>, k: string, text: string)
    requires RecordTexts(base, es, ext, k) <= {text}
    ensures RegsHold(FileRegs(inputPath, ext, base, es), k, text)
    ensures QueueTexts(SubDirs(base, es), ext, k) <= {text}
  {
    if es != [] {
      FileRegsHold(inputPath, ext, base, es[1..], k, text);
      var fh := if IsRecordFile(es[0], ext) then [RegistrationOf(inputPath, base, es[0])] else [];
      var sh := if es[0].Directory? then [LoadDir(Join(base, es[0].name), es[0].children)] else [];
      assert FileRegs(inputPath, ext, base, es) == fh + FileRegs(inputPath, ext, base, es[1..]);
      assert SubDirs(base, es) == sh + SubDirs(base, es[1..]);
      RegsHoldAppend(fh, FileRegs(inputPath, ext, base, es[1..]), k, text);
      QueueTextsAppend(sh, SubDirs(base, es[1..]), ext, k);
      if sh != [] {
        assert QueueTexts(sh, ext, k) == RecordTexts(Join(base, es[0].name), es[0].children, ext, k);
      }
    }
  }

  /**
   * When every record file under key `k` below the queued directories has text
   * `text`, every registration under `k` the walk makes holds its nodes.
   */
  lemma {:induction false} RegistrationsHold(inputPath: string, ext: string, q: seq<LoadDir>, k: string, text: string)
    requires QueueTexts(q, ext, k) <= {text}
    ensures RegsHold(Registrations(inputPath, ext, q), k, text)
    decreases LoadWeight(q)
  {
    if q != [] {
      var rest := SubDirs(q[0].rel, q[0].entries);
      LoadWeightAppend(q[1..], rest);
      SubDirsWeight(q[0].rel, q[0].entries);
      FileRegsHold(inputPath, ext, q[0].rel, q[0].entries, k, text);
      QueueTextsAppend(q[1..], rest, ext, k);
      RegistrationsHold(inputPath, ext, q[1..] + rest, k, text);
      RegsHoldAppend(FileRegs(inputPath, ext, q[0].rel, q[0].entries), Registrations(inputPath, ext, q[1..] + rest), k, text);
    }
  }

  /** A registered key whose every registration holds the nodes of `text` ends up holding them. */
  lemma {:induction false} SetAllHolds(m: map<string, FileRecord>, regs: seq<Registration>, k: string, text: string)
    requires k in KeysOf(regs) && RegsHold(regs, k, text)
    ensures k in SetAll(m, regs) && SetAll(m, regs)[k].diagnos == ReadRecords(text)
  {
    var init := regs[..|regs| - 1];
    if regs[|regs| - 1].0 != k {
      var i :| 0 <= i < |regs| && regs[i].0 == k;
      assert init[i] == regs[i];
      assert RegsHold(init, k, text) by {
        forall j | 0 <= j < |init| && init[j].0 == k
          ensures init[j].1.diagnos == ReadRecords(text)
        {
          assert init[j] == regs[j];
        }
      }
      SetAllHolds(m, init, k, text);
    }
  }

  /**
   * After a scan, a key set by some input directory holds the nodes of `text`
   * when every record file under that key, in every input directory, has text `text`.
   */
  lemma {:induction false} LoadAllHolds(m: map<string, FileRecord>, found: seq<Pending>, ext: string, k: string, text: string)
    requires k in FoundKeys(found, ext)
    requires forall j :: 0 <= j < |found| ==> RecordTexts("", found[j].entries, ext, k) <= {text}
    ensures k in LoadAll(m, found, ext) && LoadAll(m, found, ext)[k].diagnos == ReadRecords(text)
  {
    var init := found[..|found| - 1];
    var last := found[|found| - 1];
    var regs := Registrations(last.path, ext, [LoadDir("", last.entries)]);
    if k in KeysOf(regs) {
      assert QueueTexts([LoadDir("", last.entries)], ext, k) == RecordTexts("", last.entries, ext, k);
      RegistrationsHold(last.path, ext, [LoadDir("", last.entries)], k, text);
      SetAllHolds(LoadAll(m, init, ext), regs, k, text);
    } else {
      assert forall j :: 0 <= j < |init| ==> init[j] == found[j];
      LoadAllHolds(m, init, ext, k, text);
      SetAllUntouched(LoadAll(m, init, ext), regs, k);
    }
  }

  /** A record file directly in the directory `prefix`. */
  lemma RecordFileHere(prefix: seq<string>, es: seq<Entry>, name: string, text: string, ext: string)
    requires ValidNames(prefix) && ValidTree(es)
    requires File(name, text) in es && ExtName(name) == ext
    ensures RelKey(prefix, name) in RecordKeys(JoinWith(prefix, '/'), es, ext)
  {
    var i :| 0 <= i < |es| && es[i] == File(name, text);
    assert ValidName(es[i].name);
    StripExtOfName(name);
    JoinSegment(prefix, StripExt(name));
    RecordKeysHas(JoinWith(prefix, '/'), es, ext, i);
  }

  lemma PrefixStep(prefix: seq<string>, ds: seq<string>)
    requires ds != []
    ensures prefix + [ds[0]] + ds[1..] == prefix + ds
  {
    assert ds == [ds[0]] + ds[1..];
  }

  lemma ValidNamesSnoc(prefix: seq<string>, x: string)
    requires ValidNames(prefix) && ValidName(x)
    ensures ValidNames(prefix + [x])
  {
  }

  lemma {:induction false} RecordKeysHas(base: string, es: seq<Entry>, ext: string, i: nat)
    requires i < |es| && IsRecordFile(es[i], ext)
    ensures Join(base, StripExt(es[i].name)) in RecordKeys(base, es, ext)
  {
    if i > 0 {
      RecordKeysHas(base, es[1..], ext, i - 1);
    }
  }

  lemma {:induction false} RecordKeysBelow(base: string, es: seq<Entry>, ext: string, i: nat)
    requires i < |es| && es[i].Directory?
    ensures RecordKeys(Join(base, es[i].name), es[i].children, ext) <= RecordKeys(base, es, ext)
  {
    if i > 0 {
      RecordKeysBelow(base, es[1..], ext, i - 1);
    }
  }
}
