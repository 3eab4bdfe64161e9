/**
 * One record line `line \t column \t message` and what becomes of it: the
 * `DiagnosNode` the constructor builds, the truthiness filter of `_readInput`,
 * and the warning diagnostic `FileInfo.getDiagnostic` makes of a stored node.
 */
module Nodes {
  import opened Wrappers
  import opened Text

  /**
   * The fields of a `DiagnosNode`.  `None` stands for both `undefined` (a line
   * with fewer than three fields) and `NaN` (a field parseInt cannot read).
   */
  datatype DiagnosNode = DiagnosNode(line: Option<int>, start: Option<int>, end: Option<int>, message: Option<string>)

  /** The node every line with fewer than three fields yields. */
  const Unset := DiagnosNode(None, None, None, None)

  /** The `DiagnosNode` constructor: split on tabs; three or more fields set every field. */
  function ParseNode(text: string): (n: DiagnosNode)
    ensures n == Unset || (n.message.Some? && n.end == n.start)
  {
    var parts := Split(text, '\t');
    if |parts| >= 3 then
      DiagnosNode(ParseInt(parts[0]), ParseInt(parts[1]), ParseInt(parts[1]), Some(parts[2]))
    else Unset
  }

  /** `if (diag.line)`: the line number is defined, not NaN and not 0. */
  predicate Truthy(n: DiagnosNode) {
    n.line.Some? && n.line.value != 0
  }

  /** What every node a `FileInfo` keeps satisfies. */
  predicate Stored(n: DiagnosNode) {
    Truthy(n) && n.message.Some? && n.end == n.start
  }

  type StoredNode = n: DiagnosNode | Stored(n) witness DiagnosNode(Some(1), None, None, Some(""))

  /** The loop of `_readInput`: the parsed nodes of the lines whose line number is truthy, in order. */
  function KeptNodes(lines: seq<string>): seq<StoredNode> {
    if lines == [] then []
    else
      var n := ParseNode(lines[0]);
      (if Truthy(n) then [n] else []) + KeptNodes(lines[1..])
  }

  /** The nodes a record file with decoded content `text` yields. */
  function ReadRecords(text: string): seq<StoredNode> {
    KeptNodes(SplitLines(text))
  }

  /** Reading lines one after another keeps the nodes of each part, in order. */
  lemma {:induction false} KeptNodesAppend(a: seq<string>, b: seq<string>)
    ensures KeptNodes(a + b) == KeptNodes(a) + KeptNodes(b)
  {
    if a == [] {
      assert a + b == b;
    } else {
      var n := ParseNode(a[0]);
      var head: seq<StoredNode> := if Truthy(n) then [n] else [];
      assert (a + b)[0] == a[0] && (a + b)[1..] == a[1..] + b;
      assert KeptNodes(a + b) == head + KeptNodes(a[1..] + b);
      KeptNodesAppend(a[1..], b);
      assert head + (KeptNodes(a[1..]) + KeptNodes(b)) == (head + KeptNodes(a[1..])) + KeptNodes(b);
    }
  }

  /** One line contributes its node exactly when the node's line number is truthy. */
  lemma KeptNodesOne(line: string)
    ensures KeptNodes([line]) == if Truthy(ParseNode(line)) then [ParseNode(line)] else []
  {
    assert [line][1..] == [];
  }

  /** A line with fewer than two tabs (fewer than three fields) leaves every field unset. */
  lemma FewFieldsUnset(text: string)
    requires Count(text, '\t') < 2
    ensures ParseNode(text) == Unset && !Truthy(ParseNode(text))
  {
    SplitCount(text, '\t');
  }

  /** A line whose first field has no digit is dropped, whatever else it holds. */
  lemma NonNumericLineDropped(text: string)
    requires forall i :: 0 <= i < |Split(text, '\t')[0]| ==> !IsDigit(Split(text, '\t')[0][i])
    ensures !Truthy(ParseNode(text)) && KeptNodes([text]) == []
  {
    ParseIntNoDigit(Split(text, '\t')[0]);
    KeptNodesOne(text);
  }

  /** A line whose first field is `0` is dropped. */
  lemma ZeroLineDropped(column: int, message: string, rest: string)
    requires '\t' !in message && (rest == [] || rest[0] == '\t')
    ensures KeptNodes([FormatRecord(0, column, message) + rest]) == []
  {
    ParseFormatRecord(0, column, message, rest);
    KeptNodesOne(FormatRecord(0, column, message) + rest);
  }

  // ---- writing record lines ----

  /** A diagnostic record as a producing tool writes it. */
  datatype Record = Record(line: int, column: int, message: string)

  /** A message that fits in the last field of a record line. */
  predicate PlainMessage(m: string) {
    '\t' !in m && '\n' !in m && '\r' !in m
  }

  function FormatRecord(line: int, column: int, message: string): string {
    FormatInt(line) + "\t" + FormatInt(column) + "\t" + message
  }

  function FormatRecords(rs: seq<Record>): (lines: seq<string>)
    ensures |lines| == |rs|
  {
    if rs == [] then [] else [FormatRecord(rs[0].line, rs[0].column, rs[0].message)] + FormatRecords(rs[1..])
  }

  /** The node a written record reads back as. */
  function AsNode(r: Record): DiagnosNode {
    DiagnosNode(Some(r.line), Some(r.column), Some(r.column), Some(r.message))
  }

  /**
   * A written record line reads back field for field; anything after a further
   * tab is ignored.
   */
  lemma ParseFormatRecord(line: int, column: int, message: string, rest: string)
    requires '\t' !in message && (rest == [] || rest[0] == '\t')
    ensures ParseNode(FormatRecord(line, column, message) + rest)
         == DiagnosNode(Some(line), Some(column), Some(column), Some(message))
  {
    var a := FormatInt(line);
    var b := FormatInt(column);
    SplitRecordLine(a, b, message, rest);
    ParseFormatInt(line, []);
    ParseFormatInt(column, []);
    assert a + [] == a && b + [] == b;
  }

  /** The first three tab-separated fields of `a<TAB>b<TAB>message` followed by `rest`. */
  lemma SplitRecordLine(a: string, b: string, message: string, rest: string)
    requires '\t' !in a && '\t' !in b && '\t' !in message && (rest == [] || rest[0] == '\t')
    ensures var parts := Split(a + "\t" + b + "\t" + message + rest, '\t');
      |parts| >= 3 && parts[0] == a && parts[1] == b && parts[2] == message
  {
    var tail := b + ['\t'] + (message + rest);
    assert a + "\t" + b + "\t" + message + rest == a + ['\t'] + tail;
    SplitAround(a, '\t', tail);
    SplitNoSeparator(a, '\t');
    SplitFieldsTail(b, message, rest);
  }

  /** The last two of the three fields. */
  lemma SplitFieldsTail(b: string, message: string, rest: string)
    requires '\t' !in b && '\t' !in message && (rest == [] || rest[0] == '\t')
    ensures var parts := Split(b + ['\t'] + (message + rest), '\t');
      |parts| >= 2 && parts[0] == b && parts[1] == message
  {
    SplitAround(b, '\t', message + rest);
    SplitNoSeparator(b, '\t');
    SplitFirstField(message, rest);
  }

  /** The first field of a field followed by nothing or by a tab. */
  lemma SplitFirstField(message: string, rest: string)
    requires '\t' !in message && (rest == [] || rest[0] == '\t')
    ensures Split(message + rest, '\t')[0] == message
  {
    SplitNoSeparator(message, '\t');
    if rest == [] {
      assert message + rest == message;
    } else {
      assert message + rest == message + ['\t'] + rest[1..];
      SplitAround(message, '\t', rest[1..]);
    }
  }

  lemma {:induction false} KeptWrittenNodes(rs: seq<Record>)
    requires forall i :: 0 <= i < |rs| ==> rs[i].line != 0 && PlainMessage(rs[i].message)
    ensures KeptNodes(FormatRecords(rs)) == MapAsNode(rs)
  {
    if rs != [] {
      var r := rs[0];
      ParseFormatRecord(r.line, r.column, r.message, []);
      assert FormatRecord(r.line, r.column, r.message) + [] == FormatRecord(r.line, r.column, r.message);
      KeptWrittenNodes(rs[1..]);
      assert FormatRecords(rs)[1..] == FormatRecords(rs[1..]);
    }
  }

  function MapAsNode(rs: seq<Record>): (ns: seq<DiagnosNode>)
    ensures |ns| == |rs|
  {
    if rs == [] then [] else [AsNode(rs[0])] + MapAsNode(rs[1..])
  }

  /**
   * A record file written with either line break reads back as exactly its
   * records, in order, when no record has line 0.
   */
  lemma ReadWrittenRecords(rs: seq<Record>, eol: string)
    requires IsLineBreak(eol)
    requires forall i :: 0 <= i < |rs| ==> rs[i].line != 0 && PlainMessage(rs[i].message)
    ensures ReadRecords(JoinLines(FormatRecords(rs), eol)) == MapAsNode(rs)
  {
    var lines := FormatRecords(rs);
    if rs == [] {
      assert SplitLines("") == [""];
      FewFieldsUnset("");
      KeptNodesOne("");
    } else {
      forall i | 0 <= i < |lines| ensures FitsLine(lines[i], eol) {
        FormattedLineFits(rs, i, eol);
      }
      SplitJoinLines(lines, eol);
      KeptWrittenNodes(rs);
    }
  }

  lemma {:induction false} FormattedLineFits(rs: seq<Record>, i: nat, eol: string)
    requires i < |rs| && PlainMessage(rs[i].message)
    ensures FitsLine(FormatRecords(rs)[i], eol)
  {
    if i == 0 {
      var r := rs[0];
      var line := FormatRecord(r.line, r.column, r.message);
      assert line == FormatInt(r.line) + "\t" + FormatInt(r.column) + "\t" + r.message;
      assert '\n' !in line;
      if r.message == [] {
        assert line[|line| - 1] == '\t';
      } else {
        assert line[|line| - 1] == r.message[|r.message| - 1];
      }
    } else {
      FormattedLineFits(rs[1..], i - 1, eol);
      assert FormatRecords(rs)[i] == FormatRecords(rs[1..])[i - 1];
    }
  }

  // ---- diagnostics ----

  datatype Severity = Error | Warning | Information | Hint

  /** A position; `None` as the character stands for NaN from an unreadable column field. */
  datatype Position = Position(line: int, character: Option<int>)

  datatype Range = Range(start: Position, end: Position)

  datatype Diagnostic = Diagnostic(range: Range, message: string, severity: Severity, code: string, source: string)

  /** The source tag every diagnostic carries. */
  const SourceTag := "lsp-base"

  /** `Diagnostic.create(range, message, Warning, "", "lsp-base")` for one stored node. */
  function ToDiagnostic(n: StoredNode): Diagnostic {
    Diagnostic(Range(Position(n.line.value, n.start), Position(n.line.value, n.end)),
               n.message.value, Warning, "", SourceTag)
  }

  /**
   * One diagnostic per stored node, in order: a zero-width warning at
   * (line, start) carrying the node's message and the source tag.
   */
  function ToDiagnostics(ns: seq<StoredNode>): (ds: seq<Diagnostic>)
    ensures |ds| == |ns|
    ensures forall i :: 0 <= i < |ns| ==>
      && ds[i].range.start == Position(ns[i].line.value, ns[i].start)
      && ds[i].range.end == ds[i].range.start
      && ds[i].message == ns[i].message.value
      && ds[i].severity == Warning && ds[i].code == "" && ds[i].source == "lsp-base"
  {
    seq(|ns|, i requires 0 <= i < |ns| => ToDiagnostic(ns[i]))
  }
}
