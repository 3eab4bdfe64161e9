/**
 * `FileInfo`: the parsed nodes of one record file.  The file is read once, at
 * construction; its content arrives already decoded.
 */
module Files {
  import opened Text
  import opened Nodes

  /** The abstract value of a `FileInfo`: where the file lies and the nodes it holds. */
  datatype FileRecord = FileRecord(absPath: string, relPath: string, diagnos: seq<StoredNode>)

  class FileInfo {
    const absPath: string
    const relPath: string
    var diagnos: seq<StoredNode>

    ghost function Record(): FileRecord
      reads this
    {
      FileRecord(absPath, relPath, diagnos)
    }

    /** Records the paths and reads the file: `diagnos` holds the file's stored nodes. */
    constructor (absPath: string, relPath: string, text: string)
      ensures Record() == FileRecord(absPath, relPath, ReadRecords(text))
    {
      this.absPath := absPath;
      this.relPath := relPath;
      diagnos := [];
      new;
      ReadInput(text);
    }

    /** `_readInput`: splits the text into lines and pushes every node whose line is truthy. */
    method ReadInput(text: string)
      modifies this`diagnos
      ensures diagnos == old(diagnos) + ReadRecords(text)
    {
      var lines := SplitLines(text);
      for k := 0 to |lines|
        invariant diagnos == old(diagnos) + KeptNodes(lines[..k])
      {
        var diag := ParseNode(lines[k]);
        if Truthy(diag) {
          diagnos := diagnos + [diag];
        }
        assert lines[..k + 1] == lines[..k] + [lines[k]];
        KeptNodesAppend(lines[..k], [lines[k]]);
        KeptNodesOne(lines[k]);
      }
      assert lines[..|lines|] == lines;
    }

    /** `clearDiagnostic`: forgets every node; the paths stay. */
    method ClearDiagnostic()
      modifies this`diagnos
      ensures Record() == old(Record()).(diagnos := [])
    {
      diagnos := [];
    }

    /** `getDiagnostic`: one warning per stored node, in order (see `ToDiagnostics`). */
    method GetDiagnostic() returns (ds: seq<Diagnostic>)
      ensures ds == ToDiagnostics(diagnos)
    {
      ds := [];
      for k := 0 to |diagnos|
        invariant |ds| == k
        invariant forall i :: 0 <= i < k ==> ds[i] == ToDiagnostic(diagnos[i])
      {
        var diag := diagnos[k];
        var range := Range(Position(diag.line.value, diag.start), Position(diag.line.value, diag.end));
        ds := ds + [Diagnostic(range, diag.message.value, Warning, "", SourceTag)];
      }
    }
  }
}
