/**
 * The filesystem the diagnoser reads, as an immutable finite tree.  A listing is
 * what `fs.readdirSync(dir, { withFileTypes: true })` returns for a directory;
 * a file carries its content already decoded to text.
 */
module Tree {
  import opened Wrappers
  import opened Paths

  datatype Entry =
    | File(name: string, text: string)
    | Directory(name: string, children: seq<Entry>)
      /** A symbolic link, socket, FIFO or device: neither `isFile()` nor `isDirectory()`. */
    | Other(name: string)

  /** The number of entries in a subtree, counting the entry itself. */
  function Size(e: Entry): nat
    decreases e
  {
    match e
    case Directory(_, cs) => 1 + SizeAll(cs)
    case _ => 1
  }

  function SizeAll(es: seq<Entry>): nat
    decreases es
  {
    if es == [] then 0 else Size(es[0]) + SizeAll(es[1..])
  }

  lemma {:induction false} SizeAllAppend(a: seq<Entry>, b: seq<Entry>)
    ensures SizeAll(a + b) == SizeAll(a) + SizeAll(b)
  {
    if a == [] {
      assert a + b == b;
    } else {
      assert (a + b)[1..] == a[1..] + b;
      SizeAllAppend(a[1..], b);
    }
  }

  /** Every name in the tree is a proper directory-entry name. */
  predicate ValidTree(es: seq<Entry>)
    decreases es
  {
    forall i :: 0 <= i < |es| ==> ValidName(es[i].name) && ValidChildren(es[i])
  }

  predicate ValidChildren(e: Entry)
    decreases e
  {
    e.Directory? ==> ValidTree(e.children)
  }

  /** A file `name` with content `text` lies in the directory `ds` below listing `es`. */
  predicate FileAt(es: seq<Entry>, ds: seq<string>, name: string, text: string)
    decreases ds
  {
    if ds == [] then File(name, text) in es
    else exists i :: 0 <= i < |es| && es[i].Directory? && es[i].name == ds[0]
                && FileAt(es[i].children, ds[1..], name, text)
  }
}
