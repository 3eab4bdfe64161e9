/**
 * `WorkspaceInfo`: one workspace folder, the input directories found below it
 * and the record files loaded from them, keyed by their path relative to their
 * input directory without the extension.
 *
 * The filesystem below the workspace root arrives as its listing (a tree of
 * `Entry` values); the two configuration values arrive as a `Config`.
 */
module Workspace {
  import opened Wrappers
  import opened Text
  import opened Paths
  import opened Tree
  import opened Nodes
  import opened Files
  import opened Traversal

  /** The two settings the core reads: the input directory pattern and the record extension. */
  datatype Config = Config(inputPath: string, inputExt: string)

  /** The abstract value of a `WorkspaceInfo`. */
  datatype WsState = WsState(root: string, enableInput: bool, inputPaths: seq<string>, files: map<string, FileRecord>)

  /** What the input-directory test looks for: the workspace root joined with the configured input path. */
  function Pattern(root: string, cfg: Config): string {
    Join(root, cfg.inputPath)
  }

  /** The input directories `_checkInputFileDir` reports, in order. */
  function Found(root: string, listing: seq<Entry>, cfg: Config): seq<Pending> {
    Discover([Pending(root, listing)], Pattern(root, cfg))
  }

  /** Reporting the directories `found` one after the other: push the path, load its files, enable input. */
  function Report(s: WsState, found: seq<Pending>, ext: string): WsState {
    s.(enableInput := s.enableInput || found != [],
       inputPaths := s.inputPaths + PathsOf(found),
       files := LoadAll(s.files, found, ext))
  }

  /** `_checkInputFileDir` on state `s`. */
  function Scan(s: WsState, listing: seq<Entry>, cfg: Config): WsState {
    Report(s, Found(s.root, listing, cfg), cfg.inputExt)
  }

  /** The state the constructor leaves. */
  function Initial(root: string, listing: seq<Entry>, cfg: Config): WsState {
    Scan(WsState(root, false, [], map[]), listing, cfg)
  }

  /** Every loaded file with its nodes forgotten. */
  function ClearedFiles(files: map<string, FileRecord>): (r: map<string, FileRecord>)
    ensures r.Keys == files.Keys
    ensures forall k :: k in r ==> r[k] == files[k].(diagnos := [])
  {
    map k | k in files :: files[k].(diagnos := [])
  }

  /** `reload`: clear every loaded file, then scan again over the same map. */
  function Reloaded(s: WsState, listing: seq<Entry>, cfg: Config): WsState {
    Scan(s.(files := ClearedFiles(s.files)), listing, cfg)
  }

  /**
   * After `clearDiagnostic` on every loaded file, a document whose file is loaded
   * gets an empty list, and any other document still gets `null`.
   */
  lemma ClearedLookup(s: WsState, path: string)
    ensures DocKey(s.root, path) in s.files ==> Lookup(s.(files := ClearedFiles(s.files)), path) == Some([])
    ensures DocKey(s.root, path) !in s.files ==> Lookup(s.(files := ClearedFiles(s.files)), path) == None
  {
  }

  /** `hasDiagnostic`: input loaded, not below any input directory, below the root (raw string prefixes). */
  predicate Eligible(s: WsState, path: string) {
    s.enableInput
    && (forall i :: 0 <= i < |s.inputPaths| ==> !StartsWith(path, s.inputPaths[i]))
    && StartsWith(path, s.root)
  }

  /** `getDiagnostic`: the diagnostics of the file loaded under the document's key, if there is one. */
  function Lookup(s: WsState, path: string): Option<seq<Diagnostic>> {
    var key := DocKey(s.root, path);
    if key in s.files then Some(ToDiagnostics(s.files[key].diagnos)) else None
  }

  // ---- what a scan does ----

  /** Scanning sets input enabled exactly when some directory below the root matches the pattern. */
  lemma InitialEnable(root: string, listing: seq<Entry>, cfg: Config)
    ensures Initial(root, listing, cfg).enableInput <==> MatchesBelow(root, listing, Pattern(root, cfg)) != {}
    ensures Initial(root, listing, cfg).files.Keys == FoundKeys(Found(root, listing, cfg), cfg.inputExt)
  {
    var found := Found(root, listing, cfg);
    DiscoverFromRoot(root, listing, Pattern(root, cfg));
    if found != [] {
      assert found[0].path in AsSet(PathsOf(found));
    }
    LoadAllKeys(map[], found, cfg.inputExt);
  }

  /** Every reported input directory contains the pattern and lies among the matches below the root. */
  lemma FoundPaths(root: string, listing: seq<Entry>, cfg: Config, p: string)
    requires p in Initial(root, listing, cfg).inputPaths
    ensures p in MatchesBelow(root, listing, Pattern(root, cfg))
    ensures Contains(p, Pattern(root, cfg))
  {
    DiscoverFromRoot(root, listing, Pattern(root, cfg));
    var found := Found(root, listing, cfg);
    assert [] + PathsOf(found) == PathsOf(found);
    assert p in AsSet(PathsOf(found));
    MatchesContainPattern(root, listing, Pattern(root, cfg), p);
  }

  lemma FoundKeysHas(found: seq<Pending>, ext: string, i: nat)
    requires i < |found|
    ensures InputKeys(found[i].path, found[i].entries, ext) <= FoundKeys(found, ext)
  {
    if i < |found| - 1 {
      FoundKeysHas(found[..|found| - 1], ext, i);
    }
  }

  /**
   * A document whose path below the root mirrors a record file below an input
   * directory (same directories, same name up to the extension) has diagnostics.
   */
  lemma RecordReachesDocument(root: string, listing: seq<Entry>, cfg: Config, i: nat,
                              ds: seq<string>, record: string, text: string, source: string)
    requires root != "" && root != "."
    requires i < |Found(root, listing, cfg)|
    requires ValidTree(Found(root, listing, cfg)[i].entries)
    requires FileAt(Found(root, listing, cfg)[i].entries, ds, record, text) && ExtName(record) == cfg.inputExt
    requires ValidNames(ds) && ValidName(source) && ValidName(record) && StripExt(source) == StripExt(record)
    ensures Lookup(Initial(root, listing, cfg), Join(root, JoinWith(ds + [source], '/'))).Some?
  {
    var found := Found(root, listing, cfg);
    var p := found[i];
    assert [] + ds == ds;
    RecordFileHasKey([], p.entries, ds, record, text, cfg.inputExt);
    InputKeysAreRecordKeys(p.path, p.entries, cfg.inputExt);
    FoundKeysHas(found, cfg.inputExt, i);
    LoadAllKeys(map[], found, cfg.inputExt);
    SourceMeetsRecord(root, ds, source, record);
  }

  /**
   * The document gets the diagnostics of its mirrored record file: when every
   * record file with the same key, in every input directory, has the same text
   * (for instance when it is the only one), the document's diagnostics are
   * the warnings that text yields.
   */
  lemma RecordDiagnosesDocument(root: string, listing: seq<Entry>, cfg: Config, i: nat,
                                ds: seq<string>, record: string, text: string, source: string)
    requires root != "" && root != "."
    requires i < |Found(root, listing, cfg)|
    requires ValidTree(Found(root, listing, cfg)[i].entries)
    requires FileAt(Found(root, listing, cfg)[i].entries, ds, record, text) && ExtName(record) == cfg.inputExt
    requires ValidNames(ds) && ValidName(source) && ValidName(record) && StripExt(source) == StripExt(record)
    requires forall j :: 0 <= j < |Found(root, listing, cfg)| ==>
               RecordTexts("", Found(root, listing, cfg)[j].entries, cfg.inputExt, RelKey(ds, record)) <= {text}
    ensures Lookup(Initial(root, listing, cfg), Join(root, JoinWith(ds + [source], '/')))
         == Some(ToDiagnostics(ReadRecords(text)))
  {
    var found := Found(root, listing, cfg);
    var p := found[i];
    assert [] + ds == ds;
    RecordFileHasKey([], p.entries, ds, record, text, cfg.inputExt);
    InputKeysAreRecordKeys(p.path, p.entries, cfg.inputExt);
    FoundKeysHas(found, cfg.inputExt, i);
    LoadAllHolds(map[], found, cfg.inputExt, RelKey(ds, record), text);
    SourceMeetsRecord(root, ds, source, record);
  }

  // ---- what a reload does ----

  /**
   * Reload never drops a key, never drops an input directory and never turns
   * input off; it appends the directories it reports again.
   */
  lemma ReloadGrows(s: WsState, listing: seq<Entry>, cfg: Config)
    ensures s.files.Keys <= Reloaded(s, listing, cfg).files.Keys
    ensures Reloaded(s, listing, cfg).inputPaths == s.inputPaths + PathsOf(Found(s.root, listing, cfg))
    ensures s.enableInput ==> Reloaded(s, listing, cfg).enableInput
    ensures Reloaded(s, listing, cfg).root == s.root
  {
    LoadAllKeys(ClearedFiles(s.files), Found(s.root, listing, cfg), cfg.inputExt);
  }

  /**
   * A file loaded before that the reload does not find again stays, with no
   * nodes: its documents get an empty list, not `null`.
   */
  lemma StaleFileEmpty(s: WsState, listing: seq<Entry>, cfg: Config, path: string)
    requires DocKey(s.root, path) in s.files
    requires DocKey(s.root, path) !in FoundKeys(Found(s.root, listing, cfg), cfg.inputExt)
    ensures Lookup(Reloaded(s, listing, cfg), path) == Some([])
  {
    LoadAllUntouched(ClearedFiles(s.files), Found(s.root, listing, cfg), cfg.inputExt, DocKey(s.root, path));
  }

  /** A file the reload finds again holds what the file holds now, whatever it held before. */
  lemma ReloadRereads(s: WsState, listing: seq<Entry>, cfg: Config, path: string)
    requires DocKey(s.root, path) in FoundKeys(Found(s.root, listing, cfg), cfg.inputExt)
    ensures Lookup(Reloaded(s, listing, cfg), path) == Lookup(Initial(s.root, listing, cfg), path)
  {
    LoadAllAgree(ClearedFiles(s.files), map[], Found(s.root, listing, cfg), cfg.inputExt, DocKey(s.root, path));
  }

  /** Reloading twice over an unchanged filesystem gives every document the diagnostics reloading once gives. */
  lemma ReloadIdempotent(s: WsState, listing: seq<Entry>, cfg: Config, path: string)
    ensures Lookup(Reloaded(Reloaded(s, listing, cfg), listing, cfg), path) == Lookup(Reloaded(s, listing, cfg), path)
  {
    var found := Found(s.root, listing, cfg);
    var ext := cfg.inputExt;
    var r1 := Reloaded(s, listing, cfg);
    var k := DocKey(s.root, path);
    LoadAllKeys(ClearedFiles(s.files), found, ext);
    LoadAllKeys(ClearedFiles(r1.files), found, ext);
    if k in FoundKeys(found, ext) {
      LoadAllAgree(ClearedFiles(r1.files), ClearedFiles(s.files), found, ext, k);
    } else {
      LoadAllUntouched(ClearedFiles(s.files), found, ext, k);
      LoadAllUntouched(ClearedFiles(r1.files), found, ext, k);
    }
  }

  /** Reporting the same input directories again does not change which documents a workspace answers for. */
  lemma ReloadEligibleIdempotent(s: WsState, listing: seq<Entry>, cfg: Config, path: string)
    ensures Eligible(Reloaded(Reloaded(s, listing, cfg), listing, cfg), path) == Eligible(Reloaded(s, listing, cfg), path)
  {
    var ps := PathsOf(Found(s.root, listing, cfg));
    var r1 := Reloaded(s, listing, cfg);
    var r2 := Reloaded(r1, listing, cfg);
    assert r2.inputPaths == r1.inputPaths + ps;
    assert r1.inputPaths == s.inputPaths + ps;
    if Eligible(r1, path) {
      forall i | 0 <= i < |r2.inputPaths|
        ensures !StartsWith(path, r2.inputPaths[i])
      {
        if i >= |r1.inputPaths| {
          assert r2.inputPaths[i] == r1.inputPaths[i - |r1.inputPaths| + |s.inputPaths|];
        } else {
          assert r2.inputPaths[i] == r1.inputPaths[i];
        }
      }
    }
    if Eligible(r2, path) {
      forall i | 0 <= i < |r1.inputPaths|
        ensures !StartsWith(path, r1.inputPaths[i])
      {
        assert r2.inputPaths[i] == r1.inputPaths[i];
      }
    }
  }

  // ======== the class ========

  class WorkspaceInfo {
    const rootPathStr: string
    var enableInput: bool
    var inputPaths: seq<string>
    var inputFiles: map<string, FileInfo>

    ghost function Files(): map<string, FileRecord>
      reads this`inputFiles, inputFiles.Values
    {
      map k | k in inputFiles :: inputFiles[k].Record()
    }

    ghost function State(): WsState
      reads this, inputFiles.Values
    {
      WsState(rootPathStr, enableInput, inputPaths, Files())
    }

    /** The constructor: nothing loaded, then one scan of the workspace. */
    constructor (root: string, listing: seq<Entry>, cfg: Config)
      ensures State() == Initial(root, listing, cfg)
      ensures fresh(inputFiles.Values)
    {
      rootPathStr := root;
      inputFiles := map[];
      inputPaths := [];
      enableInput := false;
      new;
      CheckInputFileDir(listing, cfg);
    }

    /**
     * `_checkInputFileDir`: breadth first from the root; a child directory whose
     * path contains the pattern is reported and loaded, any other is queued.
     */
    method CheckInputFileDir(listing: seq<Entry>, cfg: Config)
      modifies this
      ensures State() == Scan(old(State()), listing, cfg)
      ensures forall k :: k in inputFiles ==> inputFiles[k] in old(inputFiles.Values) || fresh(inputFiles[k])
    {
      var pattern := Join(rootPathStr, cfg.inputPath);
      var dirs := [Pending(rootPathStr, listing)];
      ghost var found: seq<Pending> := [];
      ghost var s0 := State();
      var dirnum := 0;
      while dirnum < |dirs|
        invariant 0 <= dirnum <= |dirs|
        invariant found + Discover(dirs[dirnum..], pattern) == Found(rootPathStr, listing, cfg)
        invariant State() == Report(s0, found, cfg.inputExt)
        invariant forall k :: k in inputFiles ==> inputFiles[k] in old(inputFiles.Values) || fresh(inputFiles[k])
        decreases Weight(dirs[dirnum..])
      {
        var dirents := dirs[dirnum].entries;
        var basedir := dirs[dirnum].path;
        ghost var matched := Matched(basedir, dirents, pattern);
        var queued := CheckDirectory(basedir, dirents, pattern, cfg.inputExt);
        DiscoverStep(dirs, dirnum, pattern, found);
        ReportAppend(s0, found, matched, cfg.inputExt);
        found := found + matched;
        dirs := dirs + queued;
        dirnum := dirnum + 1;
      }
      assert found == Found(rootPathStr, listing, cfg);
    }

    /**
     * The inner loop of `_checkInputFileDir` over one directory's entries: reports
     * and loads the matching child directories, and returns the others to queue.
     */
    method CheckDirectory(basedir: string, dirents: seq<Entry>, pattern: string, ext: string) returns (queued: seq<Pending>)
      modifies this
      ensures queued == Unmatched(basedir, dirents, pattern)
      ensures State() == Report(old(State()), Matched(basedir, dirents, pattern), ext)
      ensures forall k :: k in inputFiles ==> inputFiles[k] in old(inputFiles.Values) || fresh(inputFiles[k])
    {
      queued := [];
      ghost var found: seq<Pending> := [];
      ghost var s0 := State();
      for j := 0 to |dirents|
        invariant queued == Unmatched(basedir, dirents[..j], pattern)
        invariant found == Matched(basedir, dirents[..j], pattern)
        invariant State() == Report(s0, found, ext)
        invariant forall k :: k in inputFiles ==> inputFiles[k] in old(inputFiles.Values) || fresh(inputFiles[k])
      {
        var dirent := dirents[j];
        var newpath := Join(basedir, dirent.name);
        CheckStep(basedir, dirents, pattern, j);
        if dirent.Directory? {
          if Contains(newpath, pattern) {
            AddInputDir(newpath, dirent.children, ext);
            ReportAppend(s0, found, [Pending(newpath, dirent.children)], ext);
            found := found + [Pending(newpath, dirent.children)];
          } else {
            queued := queued + [Pending(newpath, dirent.children)];
          }
        }
      }
      assert dirents[..|dirents|] == dirents;
    }

    /** Reporting one input directory: record its path, load its files, enable input. */
    method AddInputDir(newpath: string, children: seq<Entry>, ext: string)
      modifies this
      ensures State() == Report(old(State()), [Pending(newpath, children)], ext)
      ensures forall k :: k in inputFiles ==> inputFiles[k] in old(inputFiles.Values) || fresh(inputFiles[k])
    {
      inputPaths := inputPaths + [newpath];
      LoadInputFiles(newpath, children, ext);
      enableInput := true;
      ReportSingle(old(State()), Pending(newpath, children), ext);
    }

    /**
     * `_loadInputFiles`: breadth first below one input directory; every file with
     * the record extension gets a fresh `FileInfo` under its key, replacing any
     * entry the key had.
     */
    method LoadInputFiles(inputPath: string, listing: seq<Entry>, ext: string)
      modifies this`inputFiles
      ensures Files() == LoadInput(old(Files()), inputPath, listing, ext)
      ensures forall k :: k in inputFiles ==> inputFiles[k] in old(inputFiles.Values) || fresh(inputFiles[k])
    {
      var dirs := [LoadDir("", listing)];
      ghost var regs: seq<Registration> := [];
      ghost var m0 := Files();
      var dirnum := 0;
      while dirnum < |dirs|
        invariant 0 <= dirnum <= |dirs|
        invariant regs + Registrations(inputPath, ext, dirs[dirnum..]) == Registrations(inputPath, ext, [LoadDir("", listing)])
        invariant Files() == SetAll(m0, regs)
        invariant forall k :: k in inputFiles ==> inputFiles[k] in old(inputFiles.Values) || fresh(inputFiles[k])
        decreases LoadWeight(dirs[dirnum..])
      {
        var dirents := dirs[dirnum].entries;
        var basedir := dirs[dirnum].rel;
        ghost var fileRegs := FileRegs(inputPath, ext, basedir, dirents);
        var queued := LoadDirectory(inputPath, ext, basedir, dirents);
        RegistrationsStep(inputPath, ext, dirs, dirnum, regs);
        SetAllAppend(m0, regs, fileRegs);
        regs := regs + fileRegs;
        dirs := dirs + queued;
        dirnum := dirnum + 1;
      }
      assert dirs[dirnum..] == [];
      assert regs == Registrations(inputPath, ext, [LoadDir("", listing)]);
    }

    /**
     * The inner loop of `_loadInputFiles` over one directory's entries: registers
     * its record files and returns its subdirectories to queue.
     */
    method LoadDirectory(inputPath: string, ext: string, basedir: string, dirents: seq<Entry>) returns (queued: seq<LoadDir>)
      modifies this`inputFiles
      ensures queued == SubDirs(basedir, dirents)
      ensures Files() == SetAll(old(Files()), FileRegs(inputPath, ext, basedir, dirents))
      ensures forall k :: k in inputFiles ==> inputFiles[k] in old(inputFiles.Values) || fresh(inputFiles[k])
    {
      queued := [];
      ghost var regs: seq<Registration> := [];
      ghost var m0 := Files();
      for j := 0 to |dirents|
        invariant queued == SubDirs(basedir, dirents[..j])
        invariant regs == FileRegs(inputPath, ext, basedir, dirents[..j])
        invariant Files() == SetAll(m0, regs)
        invariant forall k :: k in inputFiles ==> inputFiles[k] in old(inputFiles.Values) || fresh(inputFiles[k])
      {
        var dirent := dirents[j];
        var newrel := Join(basedir, dirent.name);
        var newpath := Join(inputPath, newrel);
        LoadStep(inputPath, ext, basedir, dirents, j);
        if dirent.Directory? {
          queued := queued + [LoadDir(newrel, dirent.children)];
        } else if dirent.File? {
          if ExtName(dirent.name) == ext {
            AddFile(inputPath, basedir, dirent.name, dirent.text);
            SetAllSnoc(m0, regs, RegistrationOf(inputPath, basedir, dirent));
            regs := regs + [RegistrationOf(inputPath, basedir, dirent)];
          }
        }
      }
      assert dirents[..|dirents|] == dirents;
    }

    /** Registering one record file: a fresh `FileInfo` under its key, replacing what the key held. */
    method AddFile(inputPath: string, basedir: string, name: string, text: string)
      modifies this`inputFiles
      ensures Files() == old(Files())[Join(basedir, StripExt(name)) :=
                FileRecord(Join(inputPath, Join(basedir, name)), Join(basedir, name), ReadRecords(text))]
      ensures forall k :: k in inputFiles ==> inputFiles[k] in old(inputFiles.Values) || fresh(inputFiles[k])
    {
      var newrel := Join(basedir, name);
      var newpath := Join(inputPath, newrel);
      var key := Join(basedir, StripExt(name));
      var info := new FileInfo(newpath, newrel, text);
      SetFile(key, info);
    }

    /** `inputFiles.set(key, info)`. */
    method SetFile(key: string, info: FileInfo)
      modifies this`inputFiles
      ensures inputFiles == old(inputFiles)[key := info]
      ensures Files() == old(Files())[key := info.Record()]
    {
      inputFiles := inputFiles[key := info];
    }

    /** `reload`: clear every loaded file, then scan the workspace again. */
    method Reload(listing: seq<Entry>, cfg: Config)
      modifies this, inputFiles.Values
      ensures State() == Reloaded(old(State()), listing, cfg)
      ensures forall k :: k in inputFiles ==> inputFiles[k] in old(inputFiles.Values) || fresh(inputFiles[k])
    {
      ClearAll();
      CheckInputFileDir(listing, cfg);
    }

    /** The loop of `reload` that calls `clearDiagnostic` on every loaded file. */
    method ClearAll()
      modifies inputFiles.Values
      ensures Files() == ClearedFiles(old(Files()))
    {
      ghost var before := Files();
      var keys := inputFiles.Keys;
      ghost var cleared: set<FileInfo> := {};
      while keys != {}
        invariant keys <= inputFiles.Keys && inputFiles.Keys == before.Keys
        invariant forall k :: k in inputFiles && k !in keys ==> inputFiles[k] in cleared
        invariant forall k :: k in inputFiles ==>
          inputFiles[k].Record() == if inputFiles[k] in cleared then before[k].(diagnos := []) else before[k]
        decreases keys
      {
        var k :| k in keys;
        var info := inputFiles[k];
        info.ClearDiagnostic();
        cleared := cleared + {info};
        keys := keys - {k};
      }
    }

    /** `hasDiagnostic`: whether this workspace answers for the document at `path`. */
    method HasDiagnostic(path: string) returns (b: bool)
      ensures b == Eligible(State(), path)
    {
      if !enableInput {
        return false;
      }
      for i := 0 to |inputPaths|
        invariant forall j :: 0 <= j < i ==> !StartsWith(path, inputPaths[j])
      {
        if StartsWith(path, inputPaths[i]) {
          return false;
        }
      }
      b := StartsWith(path, rootPathStr);
    }

    /** `getDiagnostic`: the diagnostics of the file under the document's key, or `None` (`null`). */
    method GetDiagnostic(path: string) returns (r: Option<seq<Diagnostic>>)
      ensures r == Lookup(State(), path)
    {
      var key := DocKey(rootPathStr, path);
      if key in inputFiles {
        var ds := inputFiles[key].GetDiagnostic();
        r := Some(ds);
      } else {
        r := None;
      }
    }
  }

  // ---- helpers for the two walks ----

  lemma SetAllSnoc(m: map<string, FileRecord>, regs: seq<Registration>, r: Registration)
    ensures SetAll(m, regs + [r]) == SetAll(m, regs)[r.0 := r.1]
  {
    assert (regs + [r])[..|regs|] == regs;
  }

  /** One entry of the inner discovery loop. */
  lemma CheckStep(base: string, es: seq<Entry>, pattern: string, j: nat)
    requires j < |es|
    ensures Matched(base, es[..j + 1], pattern)
         == Matched(base, es[..j], pattern) + (if IsMatch(base, es[j], pattern) then [Pending(Join(base, es[j].name), es[j].children)] else [])
    ensures Unmatched(base, es[..j + 1], pattern)
         == Unmatched(base, es[..j], pattern)
            + (if es[j].Directory? && !IsMatch(base, es[j], pattern) then [Pending(Join(base, es[j].name), es[j].children)] else [])
  {
    assert es[..j + 1] == es[..j] + [es[j]];
    MatchedAppend(base, es[..j], [es[j]], pattern);
    UnmatchedAppend(base, es[..j], [es[j]], pattern);
  }

  /** One entry of the inner loading loop. */
  lemma LoadStep(inputPath: string, ext: string, base: string, es: seq<Entry>, j: nat)
    requires j < |es|
    ensures SubDirs(base, es[..j + 1])
         == SubDirs(base, es[..j]) + (if es[j].Directory? then [LoadDir(Join(base, es[j].name), es[j].children)] else [])
    ensures FileRegs(inputPath, ext, base, es[..j + 1])
         == FileRegs(inputPath, ext, base, es[..j]) + (if IsRecordFile(es[j], ext) then [RegistrationOf(inputPath, base, es[j])] else [])
  {
    assert es[..j + 1] == es[..j] + [es[j]];
    SubDirsAppend(base, es[..j], [es[j]]);
    FileRegsAppend(inputPath, ext, base, es[..j], [es[j]]);
  }

  lemma {:induction false} LoadAllAppend(m: map<string, FileRecord>, a: seq<Pending>, b: seq<Pending>, ext: string)
    ensures LoadAll(m, a + b, ext) == LoadAll(LoadAll(m, a, ext), b, ext)
    decreases |b|
  {
    if b == [] {
      assert a + b == a;
    } else {
      assert (a + b)[..|a + b| - 1] == a + b[..|b| - 1];
      LoadAllAppend(m, a, b[..|b| - 1], ext);
    }
  }

  lemma {:induction false} SetAllAppend(m: map<string, FileRecord>, a: seq<Registration>, b: seq<Registration>)
    ensures SetAll(m, a + b) == SetAll(SetAll(m, a), b)
    decreases |b|
  {
    if b == [] {
      assert a + b == a;
    } else {
      assert (a + b)[..|a + b| - 1] == a + b[..|b| - 1];
      SetAllAppend(m, a, b[..|b| - 1]);
    }
  }

  lemma {:induction false} MatchedAppend(base: string, a: seq<Entry>, b: seq<Entry>, pattern: string)
    ensures Matched(base, a + b, pattern) == Matched(base, a, pattern) + Matched(base, b, pattern)
  {
    if a == [] {
      assert a + b == b;
    } else {
      var head := if IsMatch(base, a[0], pattern) then [Pending(Join(base, a[0].name), a[0].children)] else [];
      assert (a + b)[0] == a[0] && (a + b)[1..] == a[1..] + b;
      assert Matched(base, a + b, pattern) == head + Matched(base, a[1..] + b, pattern);
      MatchedAppend(base, a[1..], b, pattern);
      assert head + (Matched(base, a[1..], pattern) + Matched(base, b, pattern))
          == (head + Matched(base, a[1..], pattern)) + Matched(base, b, pattern);
    }
  }

  lemma {:induction false} UnmatchedAppend(base: string, a: seq<Entry>, b: seq<Entry>, pattern: string)
    ensures Unmatched(base, a + b, pattern) == Unmatched(base, a, pattern) + Unmatched(base, b, pattern)
  {
    if a == [] {
      assert a + b == b;
    } else {
      var head := if a[0].Directory? && !IsMatch(base, a[0], pattern) then [Pending(Join(base, a[0].name), a[0].children)] else [];
      assert (a + b)[0] == a[0] && (a + b)[1..] == a[1..] + b;
      assert Unmatched(base, a + b, pattern) == head + Unmatched(base, a[1..] + b, pattern);
      UnmatchedAppend(base, a[1..], b, pattern);
      assert head + (Unmatched(base, a[1..], pattern) + Unmatched(base, b, pattern))
          == (head + Unmatched(base, a[1..], pattern)) + Unmatched(base, b, pattern);
    }
  }

  lemma {:induction false} SubDirsAppend(base: string, a: seq<Entry>, b: seq<Entry>)
    ensures SubDirs(base, a + b) == SubDirs(base, a) + SubDirs(base, b)
  {
    if a == [] {
      assert a + b == b;
    } else {
      var head := if a[0].Directory? then [LoadDir(Join(base, a[0].name), a[0].children)] else [];
      assert (a + b)[0] == a[0] && (a + b)[1..] == a[1..] + b;
      assert SubDirs(base, a + b) == head + SubDirs(base, a[1..] + b);
      SubDirsAppend(base, a[1..], b);
      assert head + (SubDirs(base, a[1..]) + SubDirs(base, b)) == (head + SubDirs(base, a[1..])) + SubDirs(base, b);
    }
  }

  lemma AppendAssoc<T>(x: seq<T>, y: seq<T>, z: seq<T>)
    ensures x + (y + z) == (x + y) + z
  {
  }

  lemma {:induction false} FileRegsAppend(inputPath: string, ext: string, base: string, a: seq<Entry>, b: seq<Entry>)
    ensures FileRegs(inputPath, ext, base, a + b) == FileRegs(inputPath, ext, base, a) + FileRegs(inputPath, ext, base, b)
  {
    if a == [] {
      assert a + b == b;
    } else {
      var head := if IsRecordFile(a[0], ext) then [RegistrationOf(inputPath, base, a[0])] else [];
      assert (a + b)[0] == a[0] && (a + b)[1..] == a[1..] + b;
      assert FileRegs(inputPath, ext, base, a + b) == head + FileRegs(inputPath, ext, base, a[1..] + b);
      assert FileRegs(inputPath, ext, base, a) == head + FileRegs(inputPath, ext, base, a[1..]);
      FileRegsAppend(inputPath, ext, base, a[1..], b);
      AppendAssoc(head, FileRegs(inputPath, ext, base, a[1..]), FileRegs(inputPath, ext, base, b));
    }
  }

  lemma ReportAppend(s: WsState, a: seq<Pending>, b: seq<Pending>, ext: string)
    ensures Report(s, a + b, ext) == Report(Report(s, a, ext), b, ext)
  {
    var r := Report(s, a, ext);
    LoadAllAppend(s.files, a, b, ext);
    PathsAppendTo(s.inputPaths, a, b);
    assert (a + b != []) == (a != [] || b != []);
    assert Report(r, b, ext).files == LoadAll(s.files, a + b, ext);
    assert Report(r, b, ext).inputPaths == s.inputPaths + PathsOf(a + b);
  }

  lemma PathsAppendTo(ps: seq<string>, a: seq<Pending>, b: seq<Pending>)
    ensures ps + PathsOf(a + b) == (ps + PathsOf(a)) + PathsOf(b)
  {
    PathsOfAppend(a, b);
  }

  lemma ReportSingle(s: WsState, p: Pending, ext: string)
    ensures Report(s, [p], ext)
         == s.(enableInput := true, inputPaths := s.inputPaths + [p.path], files := LoadInput(s.files, p.path, p.entries, ext))
  {
    assert [p][..0] == [] && [p][0] == p;
    assert LoadAll(s.files, [p], ext) == LoadInput(LoadAll(s.files, [], ext), p.path, p.entries, ext);
    assert PathsOf([p]) == [p.path];
  }

  lemma PathsOfAppend(a: seq<Pending>, b: seq<Pending>)
    ensures PathsOf(a + b) == PathsOf(a) + PathsOf(b)
  {
  }

  /** One turn of the outer discovery loop: what it reports and queues keeps the walk's total, and the work left shrinks. */
  lemma DiscoverStep(dirs: seq<Pending>, i: nat, pattern: string, found: seq<Pending>)
    requires i < |dirs|
    ensures found + Discover(dirs[i..], pattern)
         == (found + Matched(dirs[i].path, dirs[i].entries, pattern))
            + Discover((dirs + Unmatched(dirs[i].path, dirs[i].entries, pattern))[i + 1..], pattern)
    ensures Weight((dirs + Unmatched(dirs[i].path, dirs[i].entries, pattern))[i + 1..]) < Weight(dirs[i..])
  {
    var u := Unmatched(dirs[i].path, dirs[i].entries, pattern);
    StepDiscover(dirs, i, pattern);
    assert (dirs + u)[i + 1..] == dirs[i + 1..] + u;
    WeightAppend(dirs[i + 1..], u);
    UnmatchedWeight(dirs[i].path, dirs[i].entries, pattern);
    assert dirs[i..][1..] == dirs[i + 1..];
  }

  /** One step of the discovery walk: the head's matches, then the rest with the head's other children queued. */
  lemma StepDiscover(dirs: seq<Pending>, i: nat, pattern: string)
    requires i < |dirs|
    ensures Discover(dirs[i..], pattern)
         == Matched(dirs[i].path, dirs[i].entries, pattern)
            + Discover(dirs[i + 1..] + Unmatched(dirs[i].path, dirs[i].entries, pattern), pattern)
  {
    assert dirs[i..][1..] == dirs[i + 1..];
  }

  /** One turn of the outer loading loop: what it registers and queues keeps the walk's total, and the work left shrinks. */
  lemma RegistrationsStep(inputPath: string, ext: string, dirs: seq<LoadDir>, i: nat, regs: seq<Registration>)
    requires i < |dirs|
    ensures regs + Registrations(inputPath, ext, dirs[i..])
         == (regs + FileRegs(inputPath, ext, dirs[i].rel, dirs[i].entries))
            + Registrations(inputPath, ext, (dirs + SubDirs(dirs[i].rel, dirs[i].entries))[i + 1..])
    ensures LoadWeight((dirs + SubDirs(dirs[i].rel, dirs[i].entries))[i + 1..]) < LoadWeight(dirs[i..])
  {
    var sub := SubDirs(dirs[i].rel, dirs[i].entries);
    StepRegistrations(inputPath, ext, dirs, i);
    assert (dirs + sub)[i + 1..] == dirs[i + 1..] + sub;
    LoadWeightAppend(dirs[i + 1..], sub);
    SubDirsWeight(dirs[i].rel, dirs[i].entries);
    assert dirs[i..][1..] == dirs[i + 1..];
  }

  lemma StepRegistrations(inputPath: string, ext: string, dirs: seq<LoadDir>, i: nat)
    requires i < |dirs|
    ensures Registrations(inputPath, ext, dirs[i..])
         == FileRegs(inputPath, ext, dirs[i].rel, dirs[i].entries)
            + Registrations(inputPath, ext, dirs[i + 1..] + SubDirs(dirs[i].rel, dirs[i].entries))
  {
    assert dirs[i..][1..] == dirs[i + 1..];
  }
}
