/**
 * `Diagnoser`: the workspaces of the editor session, each with its
 * `WorkspaceInfo`, and the routing of a document to the first workspace that
 * accepts it.
 *
 * The collection is a JavaScript `Map` keyed by `URI` objects. `URI.parse`
 * returns a new object on every call and `Map` compares keys by identity, so
 * the model keeps the map as an insertion-ordered sequence of (key object,
 * value) pairs and `Uri` as a class: a freshly parsed key equals no key
 * already stored.
 */
module Engine {
  import opened Wrappers
  import opened Text
  import opened Tree
  import opened Nodes
  import opened Workspace

  // ---- document and folder identities ----

  const FileScheme: string := "file://"

  /** `URI.parse(s).fsPath` for a `file:` URI: the path after the scheme; any other text stands for its own path. */
  function FsPath(uri: string): (p: string)
    ensures |p| <= |uri|
    ensures StartsWith(uri, FileScheme) ==> |p| == |uri| - |FileScheme| && uri[|FileScheme|..] == p
    ensures !StartsWith(uri, FileScheme) ==> p == uri
  {
    if StartsWith(uri, FileScheme) then uri[|FileScheme|..] else uri
  }

  /** The path of a `file:` URI is what follows the scheme. */
  lemma FsPathOfFile(path: string)
    ensures FsPath(FileScheme + path) == path
  {
    assert (FileScheme + path)[..|FileScheme|] == FileScheme;
    assert (FileScheme + path)[|FileScheme|..] == path;
  }

  /** A parsed URI. Every `Parse` makes a new object, distinct from every key stored before. */
  class Uri {
    const fsPath: string

    constructor Parse(s: string)
      ensures fsPath == FsPath(s)
    {
      fsPath := FsPath(s);
    }
  }

  /** A workspace folder as the editor reports it. */
  datatype Folder = Folder(uri: string, name: string)

  /** A change of workspace folders. */
  datatype FoldersChange = FoldersChange(added: seq<Folder>, removed: seq<Folder>)

  // ---- an insertion-ordered map with identity keys ----

  /** The position of key `k`, if it is stored. */
  function IndexOf<K(==), V>(m: seq<(K, V)>, k: K): (r: Option<nat>)
    ensures r.Some? ==> r.value < |m| && m[r.value].0 == k && forall j :: 0 <= j < r.value ==> m[j].0 != k
    ensures r.None? ==> forall j :: 0 <= j < |m| ==> m[j].0 != k
  {
    if m == [] then None
    else if m[0].0 == k then Some(0)
    else match IndexOf(m[1..], k)
      case None => None
      case Some(i) => Some(i + 1)
  }

  /** `Map.get`. */
  function Get<K(==), V>(m: seq<(K, V)>, k: K): Option<V> {
    match IndexOf(m, k)
    case None => None
    case Some(i) => Some(m[i].1)
  }

  /** `Map.set`: a stored key keeps its place and takes the new value; a new key goes last. */
  function MapSet<K(==), V>(m: seq<(K, V)>, k: K, v: V): seq<(K, V)> {
    match IndexOf(m, k)
    case Some(i) => m[i := (k, v)]
    case None => m + [(k, v)]
  }

  /** `Map.delete`: the entry of a stored key goes; the others keep their order. */
  function MapDelete<K(==), V>(m: seq<(K, V)>, k: K): seq<(K, V)> {
    match IndexOf(m, k)
    case Some(i) => m[..i] + m[i + 1..]
    case None => m
  }

  ghost predicate DistinctKeys<K, V>(m: seq<(K, V)>) {
    forall i, j :: 0 <= i < j < |m| ==> m[i].0 != m[j].0
  }

  /** The contract of `IndexOf` pins its answer down: the first place of the key, or none. */
  lemma IndexOfIs<K, V>(m: seq<(K, V)>, k: K, r: Option<nat>)
    requires r.Some? ==> r.value < |m| && m[r.value].0 == k && forall j :: 0 <= j < r.value ==> m[j].0 != k
    requires r.None? ==> forall j :: 0 <= j < |m| ==> m[j].0 != k
    ensures IndexOf(m, k) == r
  {
  }

  /** Two entry lists with the same keys in the same places find every key at the same place. */
  lemma IndexOfSameKeys<K, V>(a: seq<(K, V)>, b: seq<(K, V)>, k: K)
    requires |a| == |b| && forall j :: 0 <= j < |a| ==> a[j].0 == b[j].0
    ensures IndexOf(a, k) == IndexOf(b, k)
  {
    IndexOfIs(b, k, IndexOf(a, k));
  }

  /** Appending an entry does not move a key that is already stored. */
  lemma IndexOfAppendStored<K, V>(m: seq<(K, V)>, e: (K, V), k: K)
    requires IndexOf(m, k).Some?
    ensures IndexOf(m + [e], k) == IndexOf(m, k)
  {
    var i := IndexOf(m, k).value;
    assert forall j :: 0 <= j <= i ==> (m + [e])[j] == m[j];
    IndexOfIs(m + [e], k, Some(i));
  }

  /** Appending an entry for a key not yet stored puts that key last. */
  lemma IndexOfAppendNew<K, V>(m: seq<(K, V)>, e: (K, V))
    requires IndexOf(m, e.0).None?
    ensures IndexOf(m + [e], e.0) == Some(|m|)
  {
    assert forall j :: 0 <= j < |m| ==> (m + [e])[j] == m[j];
    assert (m + [e])[|m|] == e;
    IndexOfIs(m + [e], e.0, Some(|m|));
  }

  /** Appending an entry for another key leaves a missing key missing. */
  lemma IndexOfAppendOther<K, V>(m: seq<(K, V)>, e: (K, V), k: K)
    requires IndexOf(m, k).None? && e.0 != k
    ensures IndexOf(m + [e], k).None?
  {
    assert forall j :: 0 <= j < |m| + 1 ==> (m + [e])[j] == if j < |m| then m[j] else e;
    IndexOfIs(m + [e], k, None);
  }

  /** After `set`, `get` of that key gives the new value. */
  lemma SetThenGet<K, V>(m: seq<(K, V)>, k: K, v: V)
    ensures Get(MapSet(m, k, v), k) == Some(v)
  {
    match IndexOf(m, k)
    case Some(i) =>
      IndexOfSameKeys(m, m[i := (k, v)], k);
    case None =>
      IndexOfAppendNew(m, (k, v));
  }

  /** `set` leaves every other key's value as it was. */
  lemma SetKeepsOthers<K, V>(m: seq<(K, V)>, k: K, v: V, k': K)
    requires k' != k
    ensures Get(MapSet(m, k, v), k') == Get(m, k')
  {
    match IndexOf(m, k)
    case Some(i) =>
      IndexOfSameKeys(m, m[i := (k, v)], k');
    case None =>
      if IndexOf(m, k').Some? {
        IndexOfAppendStored(m, (k, v), k');
      } else {
        IndexOfAppendOther(m, (k, v), k');
      }
  }

  /** `set` keeps keys distinct. */
  lemma SetKeepsDistinct<K, V>(m: seq<(K, V)>, k: K, v: V)
    requires DistinctKeys(m)
    ensures DistinctKeys(MapSet(m, k, v))
  {
  }

  /** `set` of a key not stored yet appends it, and keys stay distinct. */
  lemma SetNewKey<K, V>(m: seq<(K, V)>, k: K, v: V)
    requires DistinctKeys(m) && forall j :: 0 <= j < |m| ==> m[j].0 != k
    ensures IndexOf(m, k).None? && MapSet(m, k, v) == m + [(k, v)] && DistinctKeys(m + [(k, v)])
  {
    var m' := m + [(k, v)];
    assert forall j :: 0 <= j < |m'| ==> m'[j].0 == if j < |m| then m[j].0 else k;
  }

  /** Entries of a distinct-key list other than the one at `i` do not carry its key. */
  lemma DeleteAt<K, V>(m: seq<(K, V)>, i: nat, k': K)
    requires DistinctKeys(m) && i < |m|
    ensures DistinctKeys(m[..i] + m[i + 1..])
    ensures m[i].0 == k' ==> IndexOf(m[..i] + m[i + 1..], k') == None
  {
    var d := m[..i] + m[i + 1..];
    assert forall j :: 0 <= j < |d| ==> d[j] == (if j < i then m[j] else m[j + 1]);
  }

  /** After `delete`, `get` of that key finds nothing. */
  lemma DeleteThenGet<K, V>(m: seq<(K, V)>, k: K)
    requires DistinctKeys(m)
    ensures Get(MapDelete(m, k), k) == None
    ensures DistinctKeys(MapDelete(m, k))
  {
    match IndexOf(m, k)
    case Some(i) =>
      DeleteAt(m, i, k);
    case None =>
  }

  /** `delete` leaves every other key's value as it was. */
  lemma DeleteKeepsOthers<K, V>(m: seq<(K, V)>, k: K, k': K)
    requires DistinctKeys(m) && k' != k
    ensures Get(MapDelete(m, k), k') == Get(m, k')
  {
    match IndexOf(m, k)
    case None =>
    case Some(i) =>
      var d := m[..i] + m[i + 1..];
      assert forall j :: 0 <= j < |d| ==> d[j] == (if j < i then m[j] else m[j + 1]);
      match IndexOf(m, k')
      case None =>
        assert forall j :: 0 <= j < |d| ==> d[j].0 != k';
      case Some(i') =>
        if i' < i {
          assert d[i'] == m[i'];
        } else {
          assert d[i' - 1] == m[i'];
        }
  }

  // ---- routing a document ----

  /** Which workspaces' `hasDiagnostic` accepts `path`, in insertion order. */
  function Accepting(ss: seq<WsState>, path: string): (fs: seq<bool>)
    ensures |fs| == |ss| && forall i :: 0 <= i < |ss| ==> fs[i] == Eligible(ss[i], path)
  {
    seq(|ss|, i requires 0 <= i < |ss| => Eligible(ss[i], path))
  }

  /** The position of the first `true`. */
  function First(fs: seq<bool>): (r: Option<nat>)
    ensures r.Some? ==> r.value < |fs| && fs[r.value] && forall j :: 0 <= j < r.value ==> !fs[j]
    ensures r.None? ==> forall j :: 0 <= j < |fs| ==> !fs[j]
  {
    if fs == [] then None
    else if fs[0] then Some(0)
    else match First(fs[1..])
      case None => None
      case Some(i) => Some(i + 1)
  }

  /** The contract of `First` pins its answer down: the first `true`, or none. */
  lemma FirstIs(fs: seq<bool>, r: Option<nat>)
    requires r.Some? ==> r.value < |fs| && fs[r.value] && forall j :: 0 <= j < r.value ==> !fs[j]
    requires r.None? ==> forall j :: 0 <= j < |fs| ==> !fs[j]
    ensures First(fs) == r
  {
  }

  /** A `true` among the first flags is found there whatever follows. */
  lemma FirstAppendFound(a: seq<bool>, b: seq<bool>)
    requires First(a).Some?
    ensures First(a + b) == First(a)
  {
    var i := First(a).value;
    assert forall j :: 0 <= j <= i ==> (a + b)[j] == a[j];
    FirstIs(a + b, Some(i));
  }

  /** With no `true` among the first flags, the search continues in what follows. */
  lemma FirstAppendSkip(a: seq<bool>, b: seq<bool>)
    requires First(a).None?
    ensures First(a + b) == (match First(b) case None => None case Some(i) => Some(|a| + i))
  {
    assert forall j :: 0 <= j < |a| ==> !(a + b)[j];
    match First(b)
    case None =>
      assert forall j :: |a| <= j < |a + b| ==> (a + b)[j] == b[j - |a|];
      FirstIs(a + b, None);
    case Some(t) =>
      assert forall j :: |a| <= j <= |a| + t ==> (a + b)[j] == b[j - |a|];
      FirstIs(a + b, Some(|a| + t));
  }

  /** `validate`: the answer of the first accepting workspace, or none when no workspace accepts. */
  function Route(ss: seq<WsState>, path: string): Option<seq<Diagnostic>> {
    match First(Accepting(ss, path))
    case None => None
    case Some(i) => Lookup(ss[i], path)
  }

  /** The workspace a newly opened folder gets. */
  function Open(f: Folder, disk: string -> seq<Entry>, cfg: Config): WsState {
    Initial(FsPath(f.uri), disk(FsPath(f.uri)), cfg)
  }

  /** The workspaces `_addWorkspaces` appends, one per folder, in order. */
  function Opened(wss: seq<Folder>, disk: string -> seq<Entry>, cfg: Config): (r: seq<WsState>)
    ensures |r| == |wss| && forall i :: 0 <= i < |wss| ==> r[i] == Open(wss[i], disk, cfg)
  {
    seq(|wss|, i requires 0 <= i < |wss| => Open(wss[i], disk, cfg))
  }

  /** Opening one more folder appends its workspace after those already there. */
  lemma OpenedSnoc(s0: seq<WsState>, wss: seq<Folder>, n: nat, disk: string -> seq<Entry>, cfg: Config)
    requires n < |wss|
    ensures s0 + Opened(wss[..n + 1], disk, cfg) == (s0 + Opened(wss[..n], disk, cfg)) + [Open(wss[n], disk, cfg)]
  {
    assert wss[..n + 1][n] == wss[n];
    assert Opened(wss[..n + 1], disk, cfg) == Opened(wss[..n], disk, cfg) + [Open(wss[n], disk, cfg)];
  }

  /** Every workspace reloaded against the current contents of its root. */
  function ReloadAll(ss: seq<WsState>, disk: string -> seq<Entry>, cfg: Config): (r: seq<WsState>)
    ensures |r| == |ss| && forall i :: 0 <= i < |ss| ==> r[i] == Reloaded(ss[i], disk(ss[i].root), cfg)
  {
    seq(|ss|, i requires 0 <= i < |ss| => Reloaded(ss[i], disk(ss[i].root), cfg))
  }

  /** The first accepting workspace answers. */
  lemma RouteAt(ss: seq<WsState>, path: string, n: nat)
    requires n < |ss| && Eligible(ss[n], path)
    requires forall j :: 0 <= j < n ==> !Eligible(ss[j], path)
    ensures Route(ss, path) == Lookup(ss[n], path)
  {
    var fs := Accepting(ss, path);
    assert fs[n];
    assert First(fs) == Some(n);
  }

  /** With no accepting workspace there is no answer. */
  lemma RouteNone(ss: seq<WsState>, path: string)
    requires forall j :: 0 <= j < |ss| ==> !Eligible(ss[j], path)
    ensures Route(ss, path) == None
  {
    var fs := Accepting(ss, path);
    assert forall j :: 0 <= j < |fs| ==> !fs[j];
  }

  lemma AcceptingAppend(ss: seq<WsState>, more: seq<WsState>, path: string)
    ensures Accepting(ss + more, path) == Accepting(ss, path) + Accepting(more, path)
  {
    var l, a, b := Accepting(ss + more, path), Accepting(ss, path), Accepting(more, path);
    assert forall i :: 0 <= i < |ss| ==> (ss + more)[i] == ss[i];
    assert forall i :: |ss| <= i < |l| ==> (ss + more)[i] == more[i - |ss|];
    assert l == a + b;
  }

  /** A workspace added later never takes a document from one that already accepts it. */
  lemma EarlierWins(ss: seq<WsState>, more: seq<WsState>, path: string)
    requires exists i :: 0 <= i < |ss| && Eligible(ss[i], path)
    ensures Route(ss + more, path) == Route(ss, path)
  {
    var i :| 0 <= i < |ss| && Eligible(ss[i], path);
    AcceptingAppend(ss, more, path);
    var a := Accepting(ss, path);
    assert a[i];
    FirstAppendFound(a, Accepting(more, path));
    assert (ss + more)[First(a).value] == ss[First(a).value];
  }

  /** When no earlier workspace accepts a document, the later ones decide. */
  lemma LaterDecides(ss: seq<WsState>, more: seq<WsState>, path: string)
    requires forall i :: 0 <= i < |ss| ==> !Eligible(ss[i], path)
    ensures Route(ss + more, path) == Route(more, path)
  {
    AcceptingAppend(ss, more, path);
    var a, b := Accepting(ss, path), Accepting(more, path);
    assert forall j :: 0 <= j < |a| ==> !a[j];
    FirstAppendSkip(a, b);
    match First(b)
    case None =>
      assert First(a + b) == None;
    case Some(t) =>
      assert First(a + b) == Some(|ss| + t);
      assert (ss + more)[|ss| + t] == more[t];
  }

  /**
   * Raw prefixes let one workspace shadow another: with `/ws` opened before
   * `/ws2`, each with its input directory `diag`, a document under `/ws2` is
   * answered by `/ws`.
   */
  lemma PrefixShadowing(a: WsState, b: WsState)
    requires a.root == "/ws" && a.enableInput && a.inputPaths == ["/ws/diag"]
    requires b.root == "/ws2" && b.enableInput && b.inputPaths == ["/ws2/diag"]
    ensures Route([a, b], "/ws2/main.c") == Lookup(a, "/ws2/main.c")
  {
    assert "/ws2/main.c"[3] != "/ws/diag"[3];
    assert !StartsWith("/ws2/main.c", "/ws/diag");
    assert Accepting([a, b], "/ws2/main.c")[0];
  }

  /** Reloading every workspace twice over an unchanged filesystem routes every document as reloading once does. */
  lemma ReloadAllIdempotent(ss: seq<WsState>, disk: string -> seq<Entry>, cfg: Config, path: string)
    ensures Route(ReloadAll(ReloadAll(ss, disk, cfg), disk, cfg), path) == Route(ReloadAll(ss, disk, cfg), path)
  {
    var r1 := ReloadAll(ss, disk, cfg);
    var r2 := ReloadAll(r1, disk, cfg);
    forall i | 0 <= i < |ss|
      ensures Eligible(r2[i], path) == Eligible(r1[i], path)
      ensures Lookup(r2[i], path) == Lookup(r1[i], path)
    {
      ReloadGrows(ss[i], disk(ss[i].root), cfg);
      ReloadEligibleIdempotent(ss[i], disk(ss[i].root), cfg, path);
      ReloadIdempotent(ss[i], disk(ss[i].root), cfg, path);
    }
    assert Accepting(r2, path) == Accepting(r1, path);
  }

  // ---- the engine ----

  /** Every workspace in `ws` and every file it has loaded is in `R`. */
  ghost predicate Holds(ws: seq<(Uri, WorkspaceInfo)>, R: set<object>)
    reads R
  {
    forall i :: 0 <= i < |ws| ==> ws[i].1 in R && ws[i].1.inputFiles.Values <= R
  }

  /** The workspaces are distinct objects and no two share a loaded file. */
  ghost predicate Separate(ws: seq<(Uri, WorkspaceInfo)>, R: set<object>)
    requires Holds(ws, R)
    reads R
  {
    forall i, j :: 0 <= i < j < |ws| ==>
      ws[i].1 != ws[j].1 && ws[i].1.inputFiles.Values !! ws[j].1.inputFiles.Values
  }

  /** The state of each workspace in `ws`, in order. */
  ghost function StatesOf(ws: seq<(Uri, WorkspaceInfo)>, R: set<object>): (ss: seq<WsState>)
    requires Holds(ws, R)
    reads R
    ensures |ss| == |ws| && forall i :: 0 <= i < |ws| ==> ss[i] == ws[i].1.State()
    decreases |ws|
  {
    if ws == [] then [] else StatesOf(ws[..|ws| - 1], R) + [ws[|ws| - 1].1.State()]
  }

  /** Adding a workspace that owns only new files keeps the ownership invariant and appends its state. */
  lemma HoldsAppend(ws: seq<(Uri, WorkspaceInfo)>, R: set<object>, uri: Uri, info: WorkspaceInfo)
    requires Holds(ws, R) && Separate(ws, R)
    requires info !in R && info.inputFiles.Values !! R
    ensures Holds(ws + [(uri, info)], R + {info} + info.inputFiles.Values)
    ensures Separate(ws + [(uri, info)], R + {info} + info.inputFiles.Values)
    ensures StatesOf(ws + [(uri, info)], R + {info} + info.inputFiles.Values) == StatesOf(ws, R) + [info.State()]
  {
    var ws', R' := ws + [(uri, info)], R + {info} + info.inputFiles.Values;
    assert forall i :: 0 <= i < |ws| ==> ws'[i] == ws[i];
    assert ws'[|ws|] == (uri, info);
    assert Holds(ws', R');
    var a, b := StatesOf(ws', R'), StatesOf(ws, R) + [info.State()];
    assert forall i :: 0 <= i < |ws'| ==> a[i] == b[i];
  }

  /**
   * Nothing the workspaces `own.0` own within `own.1` changed, so neither did the
   * ownership invariant or their states. (The two-state lemmas here take their
   * arguments as one tuple.)
   */
  twostate lemma OwnershipFrame(own: (seq<(Uri, WorkspaceInfo)>, set<object>))
    requires old(Holds(own.0, own.1)) && old(Separate(own.0, own.1)) && unchanged(own.1)
    ensures Holds(own.0, own.1) && Separate(own.0, own.1)
    ensures StatesOf(own.0, own.1) == old(StatesOf(own.0, own.1))
  {
  }

  /**
   * Reloading workspace `n` changes only that workspace and the files it held;
   * the files it holds afterwards were held before or are new. The others keep
   * their state, and ownership still holds once its new files are added.
   */
  twostate lemma ReloadFrame(at: (seq<(Uri, WorkspaceInfo)>, set<object>, nat))
    requires at.2 < |at.0| && old(Holds(at.0, at.1)) && old(Separate(at.0, at.1))
    requires unchanged(at.1 - ({at.0[at.2].1} + old(at.0[at.2].1.inputFiles.Values)))
    requires forall k :: k in at.0[at.2].1.inputFiles ==>
               at.0[at.2].1.inputFiles[k] in old(at.0[at.2].1.inputFiles.Values) || fresh(at.0[at.2].1.inputFiles[k])
    ensures Holds(at.0, at.1 + at.0[at.2].1.inputFiles.Values)
    ensures Separate(at.0, at.1 + at.0[at.2].1.inputFiles.Values)
    ensures forall j :: 0 <= j < |at.0| && j != at.2 ==> at.0[j].1.State() == old(at.0[j].1.State())
  {
    var (ws, R, n) := at;
    var R' := R + ws[n].1.inputFiles.Values;
    forall j | 0 <= j < |ws| && j != n
      ensures ws[j].1.inputFiles == old(ws[j].1.inputFiles) && ws[j].1.State() == old(ws[j].1.State())
      ensures ws[j].1.inputFiles.Values !! ws[n].1.inputFiles.Values
    {
      var o := ws[j].1;
      assert o in R - ({ws[n].1} + old(ws[n].1.inputFiles.Values));
      assert forall f :: f in o.inputFiles.Values ==> f in R - ({ws[n].1} + old(ws[n].1.inputFiles.Values));
      forall f | f in ws[n].1.inputFiles.Values
        ensures f !in o.inputFiles.Values
      {
        var k :| k in ws[n].1.inputFiles && ws[n].1.inputFiles[k] == f;
      }
    }
    assert Holds(ws, R');
  }

  class Diagnoser {
    /** `_wsInfo`, in insertion order. */
    var wsInfo: seq<(Uri, WorkspaceInfo)>
    /** The workspaces and their loaded files. */
    ghost var Repr: set<object>

    /** Keys are distinct; each workspace owns its own loaded files. */
    ghost predicate Valid()
      reads this, Repr
    {
      this !in Repr && Holds(wsInfo, Repr) && DistinctKeys(wsInfo) && Separate(wsInfo, Repr)
    }

    /** The state of every workspace, in insertion order. */
    ghost function States(): (ss: seq<WsState>)
      requires Valid()
      reads this, Repr
      ensures |ss| == |wsInfo| && forall i :: 0 <= i < |wsInfo| ==> ss[i] == wsInfo[i].1.State()
    {
      StatesOf(wsInfo, Repr)
    }

    constructor ()
      ensures Valid() && wsInfo == [] && States() == []
      ensures fresh(Repr)
    {
      wsInfo := [];
      Repr := {};
    }

    /** `initWorkspaces`. */
    method InitWorkspaces(wss: seq<Folder>, disk: string -> seq<Entry>, cfg: Config)
      requires Valid()
      modifies this
      ensures Valid() && States() == old(States()) + Opened(wss, disk, cfg)
      ensures fresh(Repr - old(Repr))
    {
      AddWorkspaces(wss, disk, cfg);
    }

    /** `changeWorkspaces`: the removals find nothing to remove; the additions are appended. */
    method ChangeWorkspaces(event: FoldersChange, disk: string -> seq<Entry>, cfg: Config)
      requires Valid()
      modifies this
      ensures Valid() && States() == old(States()) + Opened(event.added, disk, cfg)
      ensures fresh(Repr - old(Repr))
    {
      DeleteWorkspaces(event.removed);
      AddWorkspaces(event.added, disk, cfg);
    }

    /** `_deleteWorkspaces`: each folder's freshly parsed key matches no stored key, so nothing is removed. */
    method DeleteWorkspaces(wss: seq<Folder>)
      requires Valid()
      modifies this
      ensures Valid() && wsInfo == old(wsInfo) && Repr == old(Repr)
      ensures States() == old(States())
    {
      for n := 0 to |wss|
        invariant wsInfo == old(wsInfo) && Repr == old(Repr)
      {
        var uri := new Uri.Parse(wss[n].uri);
        assert IndexOf(wsInfo, uri).None?;
        wsInfo := MapDelete(wsInfo, uri);
      }
    }

    /** `_addWorkspaces`: one new `WorkspaceInfo` per folder, under a new key, appended in order. */
    method AddWorkspaces(wss: seq<Folder>, disk: string -> seq<Entry>, cfg: Config)
      requires Valid()
      modifies this
      ensures Valid() && States() == old(States()) + Opened(wss, disk, cfg)
      ensures fresh(Repr - old(Repr))
    {
      ghost var s0 := States();
      for n := 0 to |wss|
        invariant Valid() && fresh(Repr - old(Repr))
        invariant States() == s0 + Opened(wss[..n], disk, cfg)
      {
        AddWorkspace(wss[n], disk, cfg);
        OpenedSnoc(s0, wss, n, disk, cfg);
      }
      assert wss[..|wss|] == wss;
    }

    /** One folder of `_addWorkspaces`. */
    method AddWorkspace(ws: Folder, disk: string -> seq<Entry>, cfg: Config)
      requires Valid()
      modifies this
      ensures Valid() && fresh(Repr - old(Repr))
      ensures States() == old(States()) + [Open(ws, disk, cfg)]
    {
      ghost var s0 := States();
      var uri, info := OpenWorkspace(ws, disk, cfg);
      assert States() == s0;
      Register(uri, info, Open(ws, disk, cfg));
    }

    /** `URI.parse` of the folder and a new `WorkspaceInfo` for its path. */
    static method OpenWorkspace(ws: Folder, disk: string -> seq<Entry>, cfg: Config) returns (uri: Uri, info: WorkspaceInfo)
      ensures fresh(uri) && fresh(info) && fresh(info.inputFiles.Values)
      ensures uri.fsPath == FsPath(ws.uri) && info.State() == Open(ws, disk, cfg)
    {
      uri := new Uri.Parse(ws.uri);
      info := new WorkspaceInfo(uri.fsPath, disk(uri.fsPath), cfg);
    }

    /** `this._wsInfo.set(uri, wsInfo)` for a key not stored yet. */
    method Register(uri: Uri, info: WorkspaceInfo, ghost st: WsState)
      requires Valid() && info.State() == st
      requires forall j :: 0 <= j < |wsInfo| ==> wsInfo[j].0 != uri
      requires info !in Repr && info.inputFiles.Values !! Repr
      modifies this
      ensures Valid() && Repr == old(Repr) + {info} + info.inputFiles.Values
      ensures States() == old(States()) + [st]
    {
      ghost var ws', R := wsInfo + [(uri, info)], Repr + {info} + info.inputFiles.Values;
      HoldsAppend(wsInfo, Repr, uri, info);
      ghost var ss := StatesOf(ws', R);
      assert ss == old(States()) + [st];
      SetNewKey(wsInfo, uri, info);
      wsInfo := MapSet(wsInfo, uri, info);
      Repr := R;
      OwnershipFrame((ws', R));
    }

    /** `reload`: every workspace rescans its root, in insertion order. */
    method Reload(disk: string -> seq<Entry>, cfg: Config)
      requires Valid()
      modifies this, Repr
      ensures Valid() && wsInfo == old(wsInfo) && fresh(Repr - old(Repr))
      ensures States() == ReloadAll(old(States()), disk, cfg)
    {
      ghost var s0 := States();
      for n := 0 to |wsInfo|
        invariant Valid() && wsInfo == old(wsInfo) && fresh(Repr - old(Repr))
        invariant forall j :: 0 <= j < n ==> wsInfo[j].1.State() == Reloaded(s0[j], disk(s0[j].root), cfg)
        invariant forall j :: n <= j < |wsInfo| ==> wsInfo[j].1.State() == s0[j]
      {
        ReloadWorkspace(n, disk, cfg);
      }
      assert States() == ReloadAll(s0, disk, cfg);
    }

    /** One workspace of `reload`; the others are left as they were. */
    method ReloadWorkspace(n: nat, disk: string -> seq<Entry>, cfg: Config)
      requires Valid() && n < |wsInfo|
      modifies this, wsInfo[n].1, wsInfo[n].1.inputFiles.Values
      ensures Valid() && wsInfo == old(wsInfo) && fresh(Repr - old(Repr))
      ensures wsInfo[n].1.State() == Reloaded(old(wsInfo[n].1.State()), disk(old(wsInfo[n].1.State()).root), cfg)
      ensures forall j :: 0 <= j < |wsInfo| && j != n ==> wsInfo[j].1.State() == old(wsInfo[j].1.State())
    {
      ghost var ws0, R0 := wsInfo, Repr;
      var ws := wsInfo[n].1;
      ws.Reload(disk(ws.rootPathStr), cfg);
      ReloadFrame((ws0, R0, n));
      label Reloaded:
      Repr := Repr + ws.inputFiles.Values;
      OwnershipFrame@Reloaded((ws0, Repr));
    }

    /** `validate`: the first workspace accepting the document answers it; with none, there is no answer. */
    method Validate(docUri: string) returns (r: Option<seq<Diagnostic>>)
      requires Valid()
      ensures r == Route(States(), FsPath(docUri))
    {
      var uri := new Uri.Parse(docUri);
      for n := 0 to |wsInfo|
        invariant Valid()
        invariant forall j :: 0 <= j < n ==> !Eligible(wsInfo[j].1.State(), uri.fsPath)
      {
        var ws := wsInfo[n].1;
        var accepts := ws.HasDiagnostic(uri.fsPath);
        if accepts {
          r := ws.GetDiagnostic(uri.fsPath);
          RouteAt(States(), uri.fsPath, n);
          return;
        }
      }
      RouteNone(States(), uri.fsPath);
      return None;
    }
  }
}
