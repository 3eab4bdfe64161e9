/**
 * POSIX path operations as the diagnoser uses them: `path.join` of two parts,
 * `path.extname`, `path.basename(p, ext)`, `path.dirname`, `path.relative`, and
 * the lookup key a document path turns into.  Paths are strings with `/` as the
 * only separator.
 */
module Paths {
  import opened Wrappers
  import opened Text

  /** A directory-entry name: non-empty, no separator, not `.` or `..`. */
  predicate ValidName(n: string) {
    n != "" && n != "." && n != ".." && '/' !in n
  }

  predicate ValidNames(ds: seq<string>) {
    forall i :: 0 <= i < |ds| ==> ValidName(ds[i])
  }

  /**
   * `path.join(a, b)` for already-normalised parts: an empty or `.` left part
   * disappears (and two empty parts give `.`), an empty right part adds
   * nothing, otherwise one `/` separates the parts.
   */
  function Join(a: string, b: string): string {
    if a == "" || a == "." then (if b == "" then "." else b)
    else if b == "" then a
    else if a[|a| - 1] == '/' then a + b
    else a + "/" + b
  }

  /**
   * `path.extname(name)` of one entry name: from the last `.` to the end, except
   * that a name whose last `.` is its first character (`.bashrc`), and `..`, have
   * no extension.
   */
  function ExtName(name: string): (ext: string)
    ensures ext == [] || (ext[0] == '.' && |ext| < |name| && ext == name[|name| - |ext|..])
  {
    match LastIndexOf(name, '.')
    case None => ""
    case Some(i) => if i == 0 || name == ".." then "" else name[i..]
  }

  /** `path.basename(name, path.extname(name))`: the name without its extension. */
  function StripExt(name: string): string {
    name[..|name| - |ExtName(name)|]
  }

  lemma StripExtOfName(name: string)
    requires name != [] && '/' !in name
    ensures StripExt(name) != [] && '/' !in StripExt(name)
    ensures StripExt(name) + ExtName(name) == name
  {
    var n := |name| - |ExtName(name)|;
    assert name == name[..n] + name[n..];
    assert forall c :: c in name[..n] ==> c in name;
  }

  /** `path.basename(p)` for a path without a trailing separator. */
  function Basename(p: string): string {
    match LastIndexOf(p, '/')
    case None => p
    case Some(i) => p[i + 1..]
  }

  /** `path.dirname(p)` for a path without a trailing separator. */
  function Dirname(p: string): string {
    match LastIndexOf(p, '/')
    case None => "."
    case Some(i) => if i == 0 then "/" else p[..i]
  }

  /** The non-empty pieces of a split: what `path.resolve` keeps of a path. */
  function NonEmptyParts(parts: seq<string>): (r: seq<string>)
    ensures forall i :: 0 <= i < |r| ==> r[i] != []
  {
    if parts == [] then []
    else (if parts[0] == [] then [] else [parts[0]]) + NonEmptyParts(parts[1..])
  }

  lemma {:induction false} NonEmptyPartsAppend(a: seq<string>, b: seq<string>)
    ensures NonEmptyParts(a + b) == NonEmptyParts(a) + NonEmptyParts(b)
  {
    if a != [] {
      assert (a + b)[1..] == a[1..] + b;
      NonEmptyPartsAppend(a[1..], b);
    } else {
      assert a + b == b;
    }
  }

  lemma {:induction false} NonEmptyPartsKeep(a: seq<string>)
    requires forall i :: 0 <= i < |a| ==> a[i] != []
    ensures NonEmptyParts(a) == a
  {
    if a != [] {
      NonEmptyPartsKeep(a[1..]);
      assert a == [a[0]] + a[1..];
    }
  }

  /** The segments of a path. */
  function Segments(p: string): seq<string> {
    NonEmptyParts(Split(p, '/'))
  }

  /** The length of the longest common prefix of two segment lists. */
  function CommonPrefixLength(a: seq<string>, b: seq<string>): (k: nat)
    ensures k <= |a| && k <= |b| && a[..k] == b[..k]
    ensures k < |a| && k < |b| ==> a[k] != b[k]
  {
    if a == [] || b == [] || a[0] != b[0] then 0
    else
      var k := CommonPrefixLength(a[1..], b[1..]);
      assert a[..k + 1] == [a[0]] + a[1..][..k];
      assert b[..k + 1] == [b[0]] + b[1..][..k];
      k + 1
  }

  function Repeat(s: string, n: nat): seq<string> {
    if n == 0 then [] else [s] + Repeat(s, n - 1)
  }

  /**
   * `path.relative(from, to)` for absolute paths: one `..` per segment of `from`
   * below the common prefix, then the rest of `to`.
   */
  function Relative(from: string, to: string): string {
    var f := Segments(from);
    var t := Segments(to);
    var k := CommonPrefixLength(f, t);
    JoinWith(Repeat("..", |f| - k) + t[k..], '/')
  }

  /**
   * The key `WorkspaceInfo.getDiagnostic` looks up for a document:
   * `path.join(path.dirname(rel), path.basename(rel, path.extname(rel)))` with
   * `rel = path.relative(root, path)`; `path.extname` of a path looks only at its
   * last segment.
   */
  function DocKey(root: string, path: string): string {
    var rel := Relative(root, path);
    Join(Dirname(rel), StripExt(Basename(rel)))
  }

  /**
   * The key of a record file `name` found in the directory whose segments below
   * the input directory are `ds`.
   */
  function RelKey(ds: seq<string>, name: string): string {
    JoinWith(ds + [StripExt(name)], '/')
  }

  // ---- facts about joined segment lists ----

  lemma {:induction false} JoinWithLast(ds: seq<string>)
    requires |ds| >= 1 && ds[|ds| - 1] != []
    ensures JoinWith(ds, '/') != [] && JoinWith(ds, '/')[|JoinWith(ds, '/')| - 1] == ds[|ds| - 1][|ds[|ds| - 1]| - 1]
  {
    if |ds| > 1 {
      JoinWithLast(ds[1..]);
    }
  }

  lemma JoinWithNotDot(ds: seq<string>)
    requires |ds| >= 1 && ValidNames(ds)
    ensures JoinWith(ds, '/') != "" && JoinWith(ds, '/') != "."
  {
    if |ds| > 1 {
      assert |JoinWith(ds, '/')| >= |ds[0]| + 1;
    }
  }

  /** Appending one segment with `Join` is the same as joining the longer segment list. */
  lemma JoinSegment(ds: seq<string>, x: string)
    requires ValidNames(ds) && x != [] && '/' !in x
    ensures Join(JoinWith(ds, '/'), x) == JoinWith(ds + [x], '/')
  {
    if ds != [] {
      JoinWithNotDot(ds);
      JoinWithLast(ds);
      JoinWithAppend(ds, [x], '/');
    }
  }

  lemma SegmentsOfNames(ds: seq<string>)
    requires ValidNames(ds)
    ensures Segments(JoinWith(ds, '/')) == ds
  {
    if ds != [] {
      SplitJoin(ds, '/');
      NonEmptyPartsKeep(ds);
    }
  }

  /** The segments of `root` joined with a relative part are the root's followed by the part's. */
  lemma SegmentsOfJoin(root: string, r: string)
    requires root != "" && root != "." && r != []
    ensures Segments(Join(root, r)) == Segments(root) + Segments(r)
  {
    if root[|root| - 1] == '/' {
      var x := root[..|root| - 1];
      assert root == x + ['/'] + [];
      assert Join(root, r) == x + ['/'] + r;
      SegmentsAround(x, r);
      SegmentsAround(x, []);
      assert Split([], '/') == [[]];
      assert Segments(x) + [] == Segments(x);
    } else {
      assert Join(root, r) == root + ['/'] + r;
      SegmentsAround(root, r);
    }
  }

  /** A separator splits the segments in two. */
  lemma SegmentsAround(x: string, r: string)
    ensures Segments(x + ['/'] + r) == Segments(x) + Segments(r)
  {
    SplitAround(x, '/', r);
    NonEmptyPartsAppend(Split(x, '/'), Split(r, '/'));
  }

  lemma CommonPrefixOfExtension(a: seq<string>, b: seq<string>)
    ensures CommonPrefixLength(a, a + b) == |a|
  {
  }

  /** A path below the root is relative to it by its own segments. */
  lemma RelativeBelowRoot(root: string, ds: seq<string>)
    requires root != "" && root != "."
    requires |ds| >= 1 && ValidNames(ds)
    ensures Relative(root, Join(root, JoinWith(ds, '/'))) == JoinWith(ds, '/')
  {
    var r := JoinWith(ds, '/');
    var f := Segments(root);
    JoinWithNotDot(ds);
    SegmentsOfJoin(root, r);
    SegmentsOfNames(ds);
    var t := Segments(Join(root, r));
    assert t == f + ds;
    CommonPrefixOfExtension(f, ds);
    var k := CommonPrefixLength(f, t);
    assert k == |f|;
    assert Repeat("..", |f| - k) == [];
    assert t[k..] == ds;
    assert Repeat("..", |f| - k) + t[k..] == ds;
  }

  lemma LastSeparator(s: string, g: string)
    requires '/' !in g
    ensures LastIndexOf(s + "/" + g, '/') == Some(|s|)
  {
    var t := s + "/" + g;
    assert t[|s|] == '/';
    assert t[|s| + 1..] == g;
  }

  /**
   * Key joining: a document at `<root>/d1/.../dn/name` and a record file
   * `name'` in `<input>/d1/.../dn` with the same name minus extension look up
   * the same key.
   */
  lemma DocKeyOfFile(root: string, ds: seq<string>, name: string)
    requires root != "" && root != "."
    requires ValidNames(ds) && ValidName(name)
    ensures DocKey(root, Join(root, JoinWith(ds + [name], '/'))) == RelKey(ds, name)
  {
    var rel := JoinWith(ds + [name], '/');
    RelativeBelowRoot(root, ds + [name]);
    StripExtOfName(name);
    DirBaseOfJoined(ds, name);
    if ds != [] {
      JoinSegment(ds, StripExt(name));
    } else {
      assert ds + [StripExt(name)] == [StripExt(name)];
    }
  }

  /** The directory and base name of `d1/.../dn/name`. */
  lemma DirBaseOfJoined(ds: seq<string>, name: string)
    requires ValidNames(ds) && ValidName(name)
    ensures Basename(JoinWith(ds + [name], '/')) == name
    ensures Dirname(JoinWith(ds + [name], '/')) == if ds == [] then "." else JoinWith(ds, '/')
  {
    var rel := JoinWith(ds + [name], '/');
    if ds == [] {
      assert ds + [name] == [name];
      assert rel == name;
      assert LastIndexOf(rel, '/') == None;
    } else {
      var j := JoinWith(ds, '/');
      JoinWithAppend(ds, [name], '/');
      assert rel == j + "/" + name;
      LastSeparator(j, name);
      JoinWithNotDot(ds);
      assert rel[..|j|] == j;
      assert rel[|j| + 1..] == name;
    }
  }

  /**
   * The document key and the record key ignore the extension: a source file
   * and a record file whose names agree up to the extension meet.
   */
  lemma SourceMeetsRecord(root: string, ds: seq<string>, source: string, record: string)
    requires root != "" && root != "."
    requires ValidNames(ds) && ValidName(source) && ValidName(record)
    requires StripExt(source) == StripExt(record)
    ensures DocKey(root, Join(root, JoinWith(ds + [source], '/'))) == RelKey(ds, record)
  {
    DocKeyOfFile(root, ds, source);
  }

  /**
   * A document equal to the root itself looks up the key `.`. The only record
   * file with that key is one directly in an input directory whose name is `.`
   * followed by the extension, such as `..d` for the extension `.d`.
   */
  lemma DocKeyOfRoot(root: string)
    ensures DocKey(root, root) == "."
  {
    CommonPrefixOfExtension(Segments(root), []);
    assert Segments(root) + [] == Segments(root);
    assert Relative(root, root) == "";
  }
}
