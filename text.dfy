/**
 * The string operations the diagnoser relies on: `String.prototype.split` on one
 * separator, the line split on `/\r\n|\n/`, raw prefix and substring tests, and
 * `parseInt(s, 10)`.  Strings are `seq<char>`.
 */
module Text {
  import opened Wrappers

  /** The number of occurrences of `x` in `s`. */
  function Count<T(==)>(s: seq<T>, x: T): nat {
    multiset(s)[x]
  }

  /**
   * `s.split(sep)` for a one-element separator: the maximal pieces between
   * separators, always at least one (the empty sequence splits into `[[]]`).
   */
  function Split<T(==)>(s: seq<T>, sep: T): (parts: seq<seq<T>>)
    ensures |parts| >= 1
    ensures forall i :: 0 <= i < |parts| ==> sep !in parts[i]
  {
    if s == [] then [[]]
    else if s[0] == sep then
      assert s == [s[0]] + s[1..];
      [[]] + Split(s[1..], sep)
    else
      assert s == [s[0]] + s[1..];
      var rest := Split(s[1..], sep);
      [[s[0]] + rest[0]] + rest[1..]
  }

  /** There is one more piece than there are separators. */
  lemma {:induction false} SplitCount<T>(s: seq<T>, sep: T)
    ensures |Split(s, sep)| == Count(s, sep) + 1
  {
    if s != [] {
      SplitCount(s[1..], sep);
      assert s == [s[0]] + s[1..];
      assert multiset(s) == multiset([s[0]]) + multiset(s[1..]);
    }
  }

  /** `parts.join(sep)`: the pieces with one separator between neighbours. */
  function JoinWith<T>(parts: seq<seq<T>>, sep: T): seq<T> {
    if |parts| == 0 then []
    else if |parts| == 1 then parts[0]
    else parts[0] + [sep] + JoinWith(parts[1..], sep)
  }

  /** Splitting around one separator splits each side independently. */
  lemma {:induction false} SplitAround<T>(a: seq<T>, sep: T, b: seq<T>)
    ensures Split(a + [sep] + b, sep) == Split(a, sep) + Split(b, sep)
  {
    if a == [] {
      assert a + [sep] + b == [sep] + b;
      assert ([sep] + b)[1..] == b;
    } else {
      assert (a + [sep] + b)[1..] == a[1..] + [sep] + b;
      SplitAround(a[1..], sep, b);
    }
  }

  /** A sequence free of the separator splits into itself alone. */
  lemma {:induction false} SplitNoSeparator<T>(a: seq<T>, sep: T)
    requires sep !in a
    ensures Split(a, sep) == [a]
  {
    if a != [] {
      assert sep !in a[1..];
      SplitNoSeparator(a[1..], sep);
      assert a == [a[0]] + a[1..];
    }
  }

  /** Round trip one way: splitting a join gives back the separator-free pieces. */
  lemma {:induction false} SplitJoin<T>(parts: seq<seq<T>>, sep: T)
    requires |parts| >= 1
    requires forall i :: 0 <= i < |parts| ==> sep !in parts[i]
    ensures Split(JoinWith(parts, sep), sep) == parts
  {
    if |parts| == 1 {
      SplitNoSeparator(parts[0], sep);
    } else {
      SplitJoin(parts[1..], sep);
      SplitAround(parts[0], sep, JoinWith(parts[1..], sep));
      SplitNoSeparator(parts[0], sep);
      assert parts == [parts[0]] + parts[1..];
    }
  }

  /** Round trip the other way: joining the pieces of a split gives back the input. */
  lemma {:induction false} JoinSplit<T>(s: seq<T>, sep: T)
    ensures JoinWith(Split(s, sep), sep) == s
    decreases |s|, 1
  {
    if s == [] {
    } else if s[0] == sep {
      JoinSplitAtSeparator(s, sep);
    } else {
      JoinSplitAtElement(s, sep);
    }
  }

  lemma {:induction false} JoinSplitAtSeparator<T>(s: seq<T>, sep: T)
    requires s != [] && s[0] == sep
    ensures JoinWith(Split(s, sep), sep) == s
    decreases |s|, 0
  {
    JoinSplit(s[1..], sep);
    var r := Split(s[1..], sep);
    var p := [[]] + r;
    assert Split(s, sep) == p;
    assert p[1..] == r;
    assert JoinWith(p, sep) == [] + [sep] + JoinWith(r, sep);
    assert s == [sep] + s[1..];
  }

  lemma {:induction false} JoinSplitAtElement<T>(s: seq<T>, sep: T)
    requires s != [] && s[0] != sep
    ensures JoinWith(Split(s, sep), sep) == s
    decreases |s|, 0
  {
    JoinSplit(s[1..], sep);
    var r := Split(s[1..], sep);
    var p := [[s[0]] + r[0]] + r[1..];
    assert Split(s, sep) == p;
    assert s == [s[0]] + s[1..];
    if |r| == 1 {
      assert p == [[s[0]] + r[0]];
    } else {
      assert p[1..] == r[1..];
      assert JoinWith(p, sep) == [s[0]] + r[0] + [sep] + JoinWith(r[1..], sep);
      assert JoinWith(r, sep) == r[0] + [sep] + JoinWith(r[1..], sep);
    }
  }

  /** Joining two non-empty lists of pieces puts one separator between them. */
  lemma {:induction false} JoinWithAppend<T>(a: seq<seq<T>>, b: seq<seq<T>>, sep: T)
    requires |a| >= 1 && |b| >= 1
    ensures JoinWith(a + b, sep) == JoinWith(a, sep) + [sep] + JoinWith(b, sep)
  {
    if |a| == 1 {
      assert (a + b)[1..] == b;
    } else {
      assert (a + b)[1..] == a[1..] + b;
      JoinWithAppend(a[1..], b, sep);
    }
  }

  /**
   * `text.split(/\r\n|\n/)`: each `\n` ends a line, and a `\r` directly before
   * it is part of the line break; a lone `\r` stays in the line.
   */
  function SplitLines(text: string): (lines: seq<string>)
    ensures |lines| >= 1
    ensures forall i :: 0 <= i < |lines| ==> '\n' !in lines[i]
  {
    if text == [] then [""]
    else if text[0] == '\n' then [""] + SplitLines(text[1..])
    else if text[0] == '\r' && |text| >= 2 && text[1] == '\n' then [""] + SplitLines(text[2..])
    else
      assert text == [text[0]] + text[1..];
      var rest := SplitLines(text[1..]);
      [[text[0]] + rest[0]] + rest[1..]
  }

  /** The two line breaks the split accepts. */
  predicate IsLineBreak(eol: string) {
    eol == "\n" || eol == "\r\n"
  }

  /** A line that survives a join with `eol` and a split on `/\r\n|\n/` unchanged. */
  predicate FitsLine(line: string, eol: string) {
    '\n' !in line && (eol == "\n" ==> line == [] || line[|line| - 1] != '\r')
  }

  /** Lines joined with a line break. */
  function JoinLines(lines: seq<string>, eol: string): string {
    if |lines| == 0 then []
    else if |lines| == 1 then lines[0]
    else lines[0] + eol + JoinLines(lines[1..], eol)
  }

  lemma {:induction false} SplitLinesAround(a: string, eol: string, b: string)
    requires IsLineBreak(eol) && FitsLine(a, eol)
    ensures SplitLines(a + eol + b) == [a] + SplitLines(b)
  {
    var s := a + eol + b;
    if a == [] {
      assert s == eol + b;
      if eol == "\n" {
        assert s[1..] == b;
      } else {
        assert s[2..] == b;
      }
    } else {
      assert s[0] == a[0];
      assert s[1..] == a[1..] + eol + b;
      assert a == [a[0]] + a[1..];
      assert !(s[0] == '\r' && |s| >= 2 && s[1] == '\n') by {
        if s[0] == '\r' && |a| == 1 {
          assert eol != "\n";
          assert s[1] == '\r';
        } else if s[0] == '\r' {
          assert s[1] == a[1];
        }
      }
      assert FitsLine(a[1..], eol);
      SplitLinesAround(a[1..], eol, b);
    }
  }

  lemma {:induction false} SplitLinesNoBreak(a: string)
    requires '\n' !in a
    ensures SplitLines(a) == [a]
  {
    if a != [] {
      assert a == [a[0]] + a[1..];
      assert '\n' !in a[1..];
      SplitLinesNoBreak(a[1..]);
    }
  }

  /** Writing lines with either line break and splitting them again gives them back. */
  lemma {:induction false} SplitJoinLines(lines: seq<string>, eol: string)
    requires IsLineBreak(eol) && |lines| >= 1
    requires forall i :: 0 <= i < |lines| ==> FitsLine(lines[i], eol)
    ensures SplitLines(JoinLines(lines, eol)) == lines
  {
    if |lines| == 1 {
      SplitLinesNoBreak(lines[0]);
    } else {
      SplitJoinLines(lines[1..], eol);
      SplitLinesAround(lines[0], eol, JoinLines(lines[1..], eol));
      assert lines == [lines[0]] + lines[1..];
    }
  }

  /** `s.indexOf(prefix) === 0`: a raw character prefix, not a path-segment test. */
  predicate StartsWith(s: string, prefix: string) {
    |prefix| <= |s| && s[..|prefix|] == prefix
  }

  /** `new RegExp(pattern).test(s)` for a pattern without metacharacters: substring containment. */
  predicate Contains(s: string, pattern: string) {
    StartsWith(s, pattern) || (s != [] && Contains(s[1..], pattern))
  }

  /** The last index of `c` in `s`, if any. */
  function LastIndexOf<T(==)>(s: seq<T>, c: T): (r: Option<nat>)
    ensures r.None? <==> c !in s
    ensures r.Some? ==> r.value < |s| && s[r.value] == c && c !in s[r.value + 1..]
  {
    if s == [] then None
    else if s[|s| - 1] == c then Some(|s| - 1)
    else
      assert s == s[..|s| - 1] + [s[|s| - 1]];
      var r := LastIndexOf(s[..|s| - 1], c);
      if r.Some? then
        assert s[r.value + 1..] == s[..|s| - 1][r.value + 1..] + [s[|s| - 1]];
        r
      else r
  }

  // ---- parseInt(s, 10) ----

  /** The ASCII and line-separator characters JavaScript's parseInt skips at the start. */
  predicate IsSpace(c: char) {
    c == ' ' || c == '\t' || c == '\n' || c == '\r' || c == '\U{B}' || c == '\U{C}'
    || c == '\U{A0}' || c == '\U{FEFF}' || c == '\U{2028}' || c == '\U{2029}'
  }

  predicate IsDigit(c: char) {
    '0' <= c <= '9'
  }

  function DigitValue(c: char): nat
    requires IsDigit(c)
  {
    c as int - '0' as int
  }

  function DigitChar(d: nat): (c: char)
    requires d < 10
    ensures IsDigit(c) && DigitValue(c) == d
  {
    ('0' as int + d) as char
  }

  function TrimStart(s: string): string {
    if s != [] && IsSpace(s[0]) then TrimStart(s[1..]) else s
  }

  /** The longest prefix of decimal digits. */
  function DigitPrefix(s: string): (ds: string)
    ensures forall i :: 0 <= i < |ds| ==> IsDigit(ds[i])
  {
    if s != [] && IsDigit(s[0]) then [s[0]] + DigitPrefix(s[1..]) else []
  }

  /** The value of a string of decimal digits. */
  function DigitsValue(ds: string): nat
    requires forall i :: 0 <= i < |ds| ==> IsDigit(ds[i])
  {
    if ds == [] then 0 else DigitsValue(ds[..|ds| - 1]) * 10 + DigitValue(ds[|ds| - 1])
  }

  /**
   * `parseInt(s, 10)`: skip leading white space, take an optional sign, then the
   * longest run of digits; `None` stands for NaN (no digit there).
   */
  function ParseInt(s: string): Option<int> {
    var t := TrimStart(s);
    var negative := t != [] && t[0] == '-';
    var body := if t != [] && (t[0] == '-' || t[0] == '+') then t[1..] else t;
    var ds := DigitPrefix(body);
    if ds == [] then None
    else
      var v: int := DigitsValue(ds);
      Some(if negative then -v else v)
  }

  /** The decimal digits of a natural number, without leading zeros. */
  function FormatNat(n: nat): (s: string)
    ensures |s| >= 1 && forall i :: 0 <= i < |s| ==> IsDigit(s[i])
  {
    if n < 10 then [DigitChar(n)] else FormatNat(n / 10) + [DigitChar(n % 10)]
  }

  /** The decimal form of an integer, with a leading `-` when negative. */
  function FormatInt(n: int): (s: string)
    ensures |s| >= 1 && '\t' !in s && '\n' !in s && '\r' !in s
  {
    if n < 0 then "-" + FormatNat(-n) else FormatNat(n)
  }

  lemma {:induction false} DigitsValueFormat(n: nat)
    ensures DigitsValue(FormatNat(n)) == n
  {
    if n >= 10 {
      var s := FormatNat(n);
      assert s[..|s| - 1] == FormatNat(n / 10);
      DigitsValueFormat(n / 10);
    }
  }

  lemma {:induction false} DigitPrefixOfDigits(ds: string, rest: string)
    requires forall i :: 0 <= i < |ds| ==> IsDigit(ds[i])
    requires rest == [] || !IsDigit(rest[0])
    ensures DigitPrefix(ds + rest) == ds
  {
    if ds == [] {
      assert ds + rest == rest;
    } else {
      assert (ds + rest)[1..] == ds[1..] + rest;
      DigitPrefixOfDigits(ds[1..], rest);
      assert ds == [ds[0]] + ds[1..];
    }
  }

  /**
   * parseInt reads back what FormatInt writes, whatever non-digit text follows
   * (the field end, a tab, or trailing garbage that parseInt ignores).
   */
  lemma ParseFormatInt(n: int, rest: string)
    requires rest == [] || !IsDigit(rest[0])
    ensures ParseInt(FormatInt(n) + rest) == Some(n)
  {
    var s := FormatInt(n) + rest;
    var m: nat := if n < 0 then -n else n;
    var digits := FormatNat(m) + rest;
    assert IsDigit(FormatNat(m)[0]);
    if n < 0 {
      assert s == "-" + digits;
    } else {
      assert s == digits;
    }
    assert !IsSpace(s[0]);
    assert TrimStart(s) == s;
    assert s[0] == '-' <==> n < 0;
    assert (if s[0] == '-' || s[0] == '+' then s[1..] else s) == digits;
    DigitPrefixOfDigits(FormatNat(m), rest);
    DigitsValueFormat(m);
  }

  lemma {:induction false} DigitPrefixEmpty(s: string)
    requires forall i :: 0 <= i < |s| ==> !IsDigit(s[i])
    ensures DigitPrefix(s) == []
  {
  }

  lemma {:induction false} TrimStartSuffix(s: string)
    ensures exists k :: 0 <= k <= |s| && TrimStart(s) == s[k..]
  {
    if s != [] && IsSpace(s[0]) {
      TrimStartSuffix(s[1..]);
      var k :| 0 <= k <= |s[1..]| && TrimStart(s[1..]) == s[1..][k..];
      assert s[1..][k..] == s[k + 1..];
    } else {
      assert s == s[0..];
    }
  }

  /** A text with no decimal digit at all parses as NaN. */
  lemma ParseIntNoDigit(s: string)
    requires forall i :: 0 <= i < |s| ==> !IsDigit(s[i])
    ensures ParseInt(s) == None
  {
    TrimStartSuffix(s);
    var t := TrimStart(s);
    var body := if t != [] && (t[0] == '-' || t[0] == '+') then t[1..] else t;
    assert forall i :: 0 <= i < |body| ==> !IsDigit(body[i]);
    DigitPrefixEmpty(body);
  }
}
