/**
 The text stream that the PostgreSQL backend sends to COPY batch FROM STDIN:
 pgsql_copy_escape and sql_batch_insert, and a reader of the COPY text format.
 */
module CopyTexts {
  import opened CatalogTables
  import opened PathStrings
  import opened BatchInserts

  // ------------------------------------------------------------------ escape

  /** The letter after the backslash, for the four characters that need one. */
  function EscapeChar(c: char): string {
    match c
    case '\n' => "\\n"
    case '\\' => "\\\\"
    case '\t' => "\\t"
    case '\r' => "\\r"
    case _ => [c]
  }

  function Escape(s: string): string {
    if s == "" then "" else EscapeChar(s[0]) + Escape(s[1..])
  }

  lemma {:induction false} EscapeSnoc(s: string, c: char)
    ensures Escape(s + [c]) == Escape(s) + EscapeChar(c)
  {
    if s == "" {
      assert s + [c] == [c];
    } else {
      EscapeSnoc(s[1..], c);
      assert (s + [c])[1..] == s[1..] + [c];
    }
  }

  predicate IsSeparator(c: char) {
    c == '\t' || c == '\n' || c == '\r'
  }

  /** The escaped text holds no separator, never starts like the null marker \\N, and
      fits a buffer of twice the length. */
  lemma {:induction false} EscapedField(s: string)
    ensures forall i :: 0 <= i < |Escape(s)| ==> !IsSeparator(Escape(s)[i])
    ensures s != "" && Escape(s)[0] == '\\' ==> |Escape(s)| >= 2 && Escape(s)[1] != 'N'
    ensures |s| <= |Escape(s)| <= 2 * |s|
  {
    if s != "" {
      EscapedField(s[1..]);
      var head := EscapeChar(s[0]);
      assert Escape(s) == head + Escape(s[1..]) && Escape(s)[0] == head[0];
      assert |head| == 2 ==> Escape(s)[1] == head[1];
    }
  }

  /** What pgsql_copy_escape reads: at most len characters, up to a NUL. */
  function Input(src: seq<char>, len: nat): string
    requires len <= |src|
  {
    if len == 0 || src[0] == NUL then "" else [src[0]] + Input(src[1..], len - 1)
  }

  lemma {:induction false} InputIs(src: seq<char>, len: nat, k: nat)
    requires k <= len <= |src| && NUL !in src[..k] && (k == len || src[k] == NUL)
    ensures Input(src, len) == src[..k]
  {
    if k > 0 {
      assert src[1..][..k - 1] == src[..k][1..];
      InputIs(src[1..], len - 1, k - 1);
    }
  }

  /** pgsql_copy_escape: dest must have room for 2 * len + 1 characters. */
  method CopyEscape(dest: array<char>, src: seq<char>, len: nat) returns (end: nat)
    requires len <= |src| && dest.Length >= 2 * len + 1
    modifies dest
    ensures end <= 2 * len && dest[end] == NUL
    ensures dest[..end] == Escape(Input(src, len))
  {
    end := 0;
    var i := 0;
    while i < len && src[i] != NUL
      invariant 0 <= i <= len && end <= 2 * i
      invariant NUL !in src[..i]
      invariant dest[..end] == Escape(src[..i])
    {
      var c := src[i];
      var esc := match c
        case '\n' => 'n'
        case '\\' => '\\'
        case '\t' => 't'
        case '\r' => 'r'
        case _ => NUL;
      EscapeSnoc(src[..i], c);
      assert src[..i + 1] == src[..i] + [c];
      ghost var before := dest[..end];
      if esc != NUL {
        dest[end], dest[end + 1] := '\\', esc;
        assert dest[..end + 2] == before + ['\\', esc];
        end := end + 2;
      } else {
        dest[end] := c;
        assert dest[..end + 1] == before + [c];
        end := end + 1;
      }
      i := i + 1;
    }
    ghost var text := dest[..end];
    dest[end] := NUL;
    assert dest[..end] == text;
    InputIs(src, len, i);
  }

  predicate IsPlainChar(c: char) {
    !IsSeparator(c) && c != '\\'
  }

  /** Text that goes out as it is. */
  predicate IsPlain(s: string) {
    forall i :: 0 <= i < |s| ==> IsPlainChar(s[i])
  }

  // ----------------------------------------------------------------- numbers

  function Digit(d: nat): char
    requires d < 10
  {
    '0' + d as char
  }

  /** %u */
  function NatText(n: nat): string {
    if n < 10 then [Digit(n)] else NatText(n / 10) + [Digit(n % 10)]
  }

  /** %d */
  function IntText(n: int): string {
    if n < 0 then ['-'] + NatText(-n) else NatText(n)
  }

  function ParseNat(s: string): Option<nat> {
    if s == "" then None
    else
      var c := s[|s| - 1];
      if !('0' <= c <= '9') then None
      else if |s| == 1 then Some((c - '0') as nat)
      else
        match ParseNat(s[..|s| - 1])
        case None => None
        case Some(n) => Some(10 * n + (c - '0') as nat)
  }

  function ParseInt(s: string): Option<int> {
    if s != "" && s[0] == '-' then
      match ParseNat(s[1..]) case None => None case Some(n) => var k: int := n; Some(-k)
    else
      match ParseNat(s) case None => None case Some(n) => Some(n)
  }

  lemma {:induction false} NatRoundTrip(n: nat)
    ensures ParseNat(NatText(n)) == Some(n)
    ensures NatText(n) != "" && IsPlain(NatText(n)) && NatText(n)[0] != '-'
  {
    if n >= 10 {
      NatRoundTrip(n / 10);
      var t := NatText(n);
      assert t[..|t| - 1] == NatText(n / 10) && t[|t| - 1] == Digit(n % 10);
    }
  }

  lemma IntRoundTrip(n: int)
    ensures ParseInt(IntText(n)) == Some(n) && IsPlain(IntText(n))
  {
    if n < 0 {
      NatRoundTrip(-n);
      var digits := NatText(-n);
      assert IntText(n) == ['-'] + digits && IntText(n)[1..] == digits;
    } else {
      NatRoundTrip(n);
    }
  }

  // ------------------------------------------------------------------ stream

  /** Texts separated by tabs, ended by a newline. */
  function TabLine(texts: seq<string>): string
    requires texts != []
  {
    if |texts| == 1 then texts[0] + ['\n'] else texts[0] + ['\t'] + TabLine(texts[1..])
  }

  /** sql_batch_insert: one line per row; LStat and MD5 are not escaped. */
  function Texts(row: NamedFile): seq<string> {
    [IntText(row.fileIndex), IntText(row.jobId), Escape(row.path), Escape(row.name),
     row.lstat, row.md5, NatText(row.deltaSeq)]
  }

  function Line(row: NamedFile): string {
    TabLine(Texts(row))
  }

  function Lines<T>(line: T -> string, s: seq<T>): string {
    if s == [] then "" else line(s[0]) + Lines(line, s[1..])
  }

  function Stream(rows: seq<NamedFile>): string {
    Lines(Line, rows)
  }

  // ------------------------------------------------------------------ reader

  /** A field, the separator that ended it, and the input after that.  None as the value
      is SQL NULL. */
  datatype Field = Field(value: Option<string>, end: char, rest: string)

  function Unescape(c: char): Option<char> {
    match c
    case 'n' => Some('\n')
    case 't' => Some('\t')
    case 'r' => Some('\r')
    case '\\' => Some('\\')
    case _ => None
  }

  function Prepend(c: char, f: Option<Field>): Option<Field> {
    match f
    case Some(Field(Some(v), e, r)) => Some(Field(Some([c] + v), e, r))
    case _ => None
  }

  /** The characters of a field; the reader stops at input it does not know. */
  function ReadText(s: string): Option<Field> {
    if s == "" || s[0] == '\r' then None
    else if s[0] == '\t' || s[0] == '\n' then Some(Field(Some(""), s[0], s[1..]))
    else if s[0] != '\\' then Prepend(s[0], ReadText(s[1..]))
    else if |s| < 2 then None
    else match Unescape(s[1])
      case None => None
      case Some(c) => Prepend(c, ReadText(s[2..]))
  }

  function ReadField(s: string): Option<Field> {
    if |s| >= 3 && s[0] == '\\' && s[1] == 'N' && (s[2] == '\t' || s[2] == '\n')
    then Some(Field(None, s[2], s[3..]))
    else ReadText(s)
  }

  /** A field that is present and ends as it should. */
  function Expect(s: string, end: char): Option<(string, string)> {
    match ReadField(s)
    case Some(Field(Some(v), e, r)) => if e == end then Some((v, r)) else None
    case _ => None
  }

  /** n fields on one line. */
  function ReadFields(s: string, n: nat): Option<(seq<string>, string)>
    requires n > 0
    decreases n
  {
    match Expect(s, if n == 1 then '\n' else '\t')
    case None => None
    case Some((v, r)) =>
      if n == 1 then Some(([v], r))
      else match ReadFields(r, n - 1)
        case None => None
        case Some((vs, r')) => Some(([v] + vs, r'))
  }

  function ToRow(v: seq<string>): Option<NamedFile>
    requires |v| == 7
  {
    match (ParseInt(v[0]), ParseNat(v[1]), ParseNat(v[6]))
    case (Some(i), Some(j), Some(d)) => Some(NamedFile(i, j, v[2], v[3], v[4], v[5], d))
    case _ => None
  }

  function ReadLine(s: string): Option<(NamedFile, string)> {
    match ReadFields(s, 7)
    case None => None
    case Some((vs, r)) =>
      if |vs| != 7 then None
      else match ToRow(vs)
        case None => None
        case Some(row) => Some((row, r))
  }

  function Read(s: string): Option<seq<NamedFile>>
    decreases |s|
  {
    if s == "" then Some([])
    else match ReadLine(s)
      case None => None
      case Some((row, rest)) =>
        if |rest| >= |s| then None
        else match Read(rest)
          case None => None
          case Some(rows) => Some([row] + rows)
  }

  // -------------------------------------------------------------- round trip

  /** A field of just the null marker is SQL NULL; the marker before more text is wrong. */
  lemma NullMarker(c: char, rest: string)
    ensures ReadField("\\N" + [c] + rest) == if c == '\t' || c == '\n' then Some(Field(None, c, rest)) else None
  {
    var s := "\\N" + [c] + rest;
    assert s[0] == '\\' && s[1] == 'N' && s[2] == c && s[3..] == rest;
  }

  lemma ReadOneChar(c: char, tail: string)
    ensures ReadText(EscapeChar(c) + tail) == Prepend(c, ReadText(tail))
  {
  }

  lemma {:induction false} ReadEscaped(v: string, end: char, rest: string)
    requires end == '\t' || end == '\n'
    ensures ReadText(Escape(v) + [end] + rest) == Some(Field(Some(v), end, rest))
  {
    if v == "" {
      assert Escape(v) + [end] + rest == [end] + rest;
    } else {
      var tail := Escape(v[1..]) + [end] + rest;
      ReadEscaped(v[1..], end, rest);
      ReadOneChar(v[0], tail);
      assert Escape(v) + [end] + rest == EscapeChar(v[0]) + tail;
      assert [v[0]] + v[1..] == v;
    }
  }

  lemma {:induction false} PlainIsEscaped(v: string)
    requires IsPlain(v)
    ensures Escape(v) == v
  {
    if v != "" {
      PlainIsEscaped(v[1..]);
      assert [v[0]] + v[1..] == v;
    }
  }

  lemma ExpectEscaped(v: string, end: char, rest: string)
    requires end == '\t' || end == '\n'
    ensures Expect(Escape(v) + [end] + rest, end) == Some((v, rest))
  {
    var s := Escape(v) + [end] + rest;
    ReadEscaped(v, end, rest);
    EscapedField(v);
    assert v == "" ==> s[0] == end;
    assert v != "" ==> s[0] == Escape(v)[0];
    assert |Escape(v)| >= 2 ==> s[1] == Escape(v)[1];
  }

  /** A field that ends the line too early or too late, or has an unknown escape, is refused. */
  lemma WrongLine(v: string, c: char, rest: string)
    ensures Expect(Escape(v) + ['\n'] + rest, '\t') == None && Expect(Escape(v) + ['\t'] + rest, '\n') == None
    ensures c !in {'n', 't', 'r', '\\', 'N'} ==> ReadText(['\\', c] + rest) == None
  {
    ExpectEscaped(v, '\n', rest);
    ExpectEscaped(v, '\t', rest);
    assert (['\\', c] + rest)[1] == c;
  }

  lemma TabLineTail(texts: seq<string>, rest: string)
    requires |texts| > 1
    ensures TabLine(texts) + rest == texts[0] + ['\t'] + (TabLine(texts[1..]) + rest)
  {
  }

  lemma {:induction false} FieldsRoundTrip(vs: seq<string>, texts: seq<string>, rest: string)
    requires vs != [] && |texts| == |vs| && forall i :: 0 <= i < |vs| ==> texts[i] == Escape(vs[i])
    ensures ReadFields(TabLine(texts) + rest, |vs|) == Some((vs, rest))
  {
    if |vs| == 1 {
      ExpectEscaped(vs[0], '\n', rest);
      assert vs == [vs[0]];
    } else {
      var tail := TabLine(texts[1..]) + rest;
      FieldsRoundTrip(vs[1..], texts[1..], rest);
      ExpectEscaped(vs[0], '\t', tail);
      TabLineTail(texts, rest);
      assert [vs[0]] + vs[1..] == vs;
    }
  }

  /** The reader takes as many characters for a value as its escaped form has. */
  lemma {:induction false} ReadTextLength(s: string)
    ensures match ReadText(s)
            case Some(Field(Some(v), e, r)) => |Escape(v)| + 1 + |r| == |s|
            case _ => true
  {
    if s != "" && !IsSeparator(s[0]) {
      if s[0] != '\\' {
        ReadTextLength(s[1..]);
        PrependLength(s[0], ReadText(s[1..]));
      } else if |s| >= 2 && Unescape(s[1]).Some? {
        ReadTextLength(s[2..]);
        PrependLength(Unescape(s[1]).value, ReadText(s[2..]));
      }
    }
  }

  lemma PrependLength(c: char, f: Option<Field>)
    ensures match Prepend(c, f)
            case Some(Field(Some(v), e, r)) =>
              f.Some? && f.value.value.Some? && r == f.value.rest
              && |Escape(v)| == |EscapeChar(c)| + |Escape(f.value.value.value)|
            case _ => true
  {
  }

  /** Escaping makes a text longer unless it is plain. */
  lemma {:induction false} EscapeLength(v: string)
    ensures |v| <= |Escape(v)| && (|v| == |Escape(v)| <==> IsPlain(v))
  {
    if v != "" {
      EscapeLength(v[1..]);
      assert IsPlain(v) <==> IsPlainChar(v[0]) && IsPlain(v[1..]) by {
        assert v == [v[0]] + v[1..];
      }
    }
  }

  /** An attribute sent without escaping comes back as it was exactly when it is plain. */
  lemma UnescapedFieldExact(v: string, rest: string)
    ensures Expect(v + ['\t'] + rest, '\t') == Some((v, rest)) <==> IsPlain(v)
  {
    if IsPlain(v) {
      PlainIsEscaped(v);
      ExpectEscaped(v, '\t', rest);
    }
    ReadTextLength(v + ['\t'] + rest);
    EscapeLength(v);
  }

  /** A tab in LStat ends the field early; a backslash before a known letter is taken for
      an escape. */
  lemma UnescapedFieldIsMisread(rest: string)
    ensures Expect("a\tb" + ['\t'] + rest, '\t') == Some(("a", "b\t" + rest))
    ensures Expect("\\n" + ['\t'] + rest, '\t') == Some(("\n", rest))
  {
    var tail := "b\t" + rest;
    assert "a\tb" + ['\t'] + rest == "a" + ['\t'] + tail;
    PlainIsEscaped("a");
    ExpectEscaped("a", '\t', tail);
    assert Escape("\n") == "\\n" + Escape("\n"[1..]) && "\n"[1..] == "";
    assert Escape("\n") == "\\n";
    ExpectEscaped("\n", '\t', rest);
  }

  function Fields(row: NamedFile): seq<string> {
    [IntText(row.fileIndex), IntText(row.jobId), row.path, row.name, row.lstat, row.md5, NatText(row.deltaSeq)]
  }

  lemma FieldsToRow(row: NamedFile)
    ensures ToRow(Fields(row)) == Some(row)
  {
    IntRoundTrip(row.fileIndex);
    NatRoundTrip(row.jobId);
    NatRoundTrip(row.deltaSeq);
  }

  /** Leaving LStat and MD5 as they are is right when they need no escape. */
  lemma TextsAreEscaped(row: NamedFile, i: nat)
    requires IsPlain(row.lstat) && IsPlain(row.md5) && i < 7
    ensures Texts(row)[i] == Escape(Fields(row)[i])
  {
    IntRoundTrip(row.fileIndex);
    IntRoundTrip(row.jobId);
    NatRoundTrip(row.deltaSeq);
    if i != 2 && i != 3 { PlainIsEscaped(Texts(row)[i]); }
  }

  /** A line is read back whole, and nothing after it is touched. */
  lemma LineRoundTrip(row: NamedFile, rest: string)
    requires IsPlain(row.lstat) && IsPlain(row.md5)
    ensures ReadLine(Line(row) + rest) == Some((row, rest))
  {
    var texts, vs := Texts(row), Fields(row);
    forall i | 0 <= i < |vs| ensures texts[i] == Escape(vs[i]) { TextsAreEscaped(row, i); }
    FieldsRoundTrip(vs, texts, rest);
    FieldsToRow(row);
  }

  predicate IsPlainRow(row: NamedFile) {
    IsPlain(row.lstat) && IsPlain(row.md5)
  }

  predicate AllPlain(rows: seq<NamedFile>) {
    forall i :: 0 <= i < |rows| ==> IsPlainRow(rows[i])
  }

  lemma {:induction false} PlainStreamRoundTrip(rows: seq<NamedFile>)
    requires AllPlain(rows)
    ensures Read(Stream(rows)) == Some(rows)
  {
    if rows != [] {
      var row, rest := rows[0], Stream(rows[1..]);
      PlainStreamRoundTrip(rows[1..]);
      LineRoundTrip(row, rest);
      assert |Line(row)| > 0;
      assert [row] + rows[1..] == rows;
    }
  }

  // ---------------------------------------------------------- no other stream

  /** Texts with a separator each. */
  function Width(texts: seq<string>): nat {
    if texts == [] then 0 else |texts[0]| + 1 + Width(texts[1..])
  }

  function EscapeAll(vs: seq<string>): seq<string> {
    if vs == [] then [] else [Escape(vs[0])] + EscapeAll(vs[1..])
  }

  lemma {:induction false} TabLineWidth(texts: seq<string>)
    requires texts != []
    ensures |TabLine(texts)| == Width(texts)
  {
    if |texts| > 1 {
      TabLineWidth(texts[1..]);
    } else {
      assert texts[1..] == [];
    }
  }

  lemma ExpectLength(s: string, end: char)
    ensures match Expect(s, end) case Some((v, r)) => |Escape(v)| + 1 + |r| == |s| case None => true
  {
    ReadTextLength(s);
  }

  lemma {:induction false} ReadFieldsWidth(s: string, n: nat)
    requires n > 0
    ensures match ReadFields(s, n)
            case Some((vs, r)) => |vs| == n && Width(EscapeAll(vs)) + |r| == |s|
            case None => true
    decreases n
  {
    var end := if n == 1 then '\n' else '\t';
    ExpectLength(s, end);
    match Expect(s, end)
    case None =>
    case Some((v, r)) =>
      if n == 1 {
        WidthCons(v, []);
      } else {
        ReadFieldsWidth(r, n - 1);
        match ReadFields(r, n - 1)
        case None =>
        case Some((vs, r')) => WidthCons(v, vs);
      }
  }

  lemma WidthCons(v: string, vs: seq<string>)
    ensures Width(EscapeAll([v] + vs)) == |Escape(v)| + 1 + Width(EscapeAll(vs))
  {
  }

  lemma {:induction false} ParseNatLength(t: string)
    ensures ParseNat(t).Some? ==> |NatText(ParseNat(t).value)| <= |t|
  {
    if |t| > 1 && ParseNat(t).Some? {
      ParseNatLength(t[..|t| - 1]);
      var n := ParseNat(t[..|t| - 1]).value;
      assert ParseNat(t).value / 10 == n;
    }
  }

  lemma ParseIntLength(t: string)
    ensures ParseInt(t).Some? ==> |IntText(ParseInt(t).value)| <= |t|
  {
    if t != "" && t[0] == '-' {
      ParseNatLength(t[1..]);
    } else {
      ParseNatLength(t);
    }
  }

  /** The length of a row's line if every field were escaped. */
  function EscapedLength(row: NamedFile): nat {
    |IntText(row.fileIndex)| + |NatText(row.jobId)| + |Escape(row.path)| + |Escape(row.name)|
    + |Escape(row.lstat)| + |Escape(row.md5)| + |NatText(row.deltaSeq)| + 7
  }

  lemma Width7(t: seq<string>)
    requires |t| == 7
    ensures Width(t) == |t[0]| + |t[1]| + |t[2]| + |t[3]| + |t[4]| + |t[5]| + |t[6]| + 7
    ensures Width(EscapeAll(t)) == |Escape(t[0])| + |Escape(t[1])| + |Escape(t[2])| + |Escape(t[3])|
                                   + |Escape(t[4])| + |Escape(t[5])| + |Escape(t[6])| + 7
  {
    Width7Of(t);
    EscapeAllAt(t);
    Width7Of(EscapeAll(t));
  }

  lemma Width7Of(t: seq<string>)
    requires |t| == 7
    ensures Width(t) == |t[0]| + |t[1]| + |t[2]| + |t[3]| + |t[4]| + |t[5]| + |t[6]| + 7
  {
    assert Width(t[6..]) == |t[6]| + 1 + Width(t[6..][1..]) && t[6..][1..] == [];
    assert Width(t[5..]) == |t[5]| + 1 + Width(t[5..][1..]) && t[5..][1..] == t[6..];
    assert Width(t[4..]) == |t[4]| + 1 + Width(t[4..][1..]) && t[4..][1..] == t[5..];
    assert Width(t[3..]) == |t[3]| + 1 + Width(t[3..][1..]) && t[3..][1..] == t[4..];
    assert Width(t[2..]) == |t[2]| + 1 + Width(t[2..][1..]) && t[2..][1..] == t[3..];
    assert Width(t[1..]) == |t[1]| + 1 + Width(t[1..][1..]) && t[1..][1..] == t[2..];
  }

  lemma {:induction false} EscapeAllAt(vs: seq<string>)
    ensures |EscapeAll(vs)| == |vs| && forall i :: 0 <= i < |vs| ==> EscapeAll(vs)[i] == Escape(vs[i])
  {
    if vs != [] {
      EscapeAllAt(vs[1..]);
      forall i | 0 < i < |vs| ensures EscapeAll(vs)[i] == Escape(vs[i]) {
        assert EscapeAll(vs)[i] == EscapeAll(vs[1..])[i - 1];
      }
    }
  }

  /** A line that is read as some row is at least as long as that row fully escaped. */
  lemma ReadLineLength(s: string)
    ensures match ReadLine(s) case Some((row, r)) => EscapedLength(row) + |r| <= |s| case None => true
  {
    ReadFieldsWidth(s, 7);
    match ReadFields(s, 7)
    case None =>
    case Some((vs, r)) =>
      Width7(vs);
      ParseIntLength(vs[0]);
      ParseNatLength(vs[1]);
      ParseNatLength(vs[6]);
      EscapeLength(vs[0]);
      EscapeLength(vs[1]);
      EscapeLength(vs[6]);
  }

  function Total<T>(weight: T -> nat, s: seq<T>): nat {
    if s == [] then 0 else weight(s[0]) + Total(weight, s[1..])
  }

  function EscapedLengths(rows: seq<NamedFile>): nat {
    Total(EscapedLength, rows)
  }

  lemma {:induction false} ReadLength(s: string)
    ensures match Read(s) case Some(rows) => EscapedLengths(rows) <= |s| case None => true
    decreases |s|
  {
    if s != "" {
      ReadLineLength(s);
      match ReadLine(s)
      case None =>
      case Some((row, rest)) =>
        if |rest| < |s| {
          ReadLength(rest);
          match Read(rest)
          case None =>
          case Some(rows) => assert ([row] + rows)[1..] == rows;
        }
    }
  }

  lemma LineLength(row: NamedFile)
    ensures |Line(row)| <= EscapedLength(row) && (|Line(row)| == EscapedLength(row) <==> IsPlainRow(row))
  {
    TabLineWidth(Texts(row));
    Width7Of(Texts(row));
    IntIsNat(row.jobId);
    EscapeLength(row.lstat);
    EscapeLength(row.md5);
  }

  lemma IntIsNat(n: nat)
    ensures IntText(n) == NatText(n)
  {
  }

  lemma {:induction false} StreamLength(rows: seq<NamedFile>)
    ensures |Stream(rows)| <= EscapedLengths(rows)
    ensures |Stream(rows)| == EscapedLengths(rows) ==> AllPlain(rows)
  {
    if rows != [] {
      LineLength(rows[0]);
      StreamLength(rows[1..]);
      forall i | 1 <= i < |rows| ensures rows[i] == rows[1..][i - 1] { }
    }
  }

  /** Reading the stream of any rows gives back the rows exactly when every LStat and MD5
      is plain. */
  lemma StreamRoundTrip(rows: seq<NamedFile>)
    ensures Read(Stream(rows)) == Some(rows) <==> AllPlain(rows)
  {
    if AllPlain(rows) {
      PlainStreamRoundTrip(rows);
    }
    if Read(Stream(rows)) == Some(rows) {
      ReadLength(Stream(rows));
      StreamLength(rows);
    }
  }

  lemma {:induction false} LinesSnoc<T>(line: T -> string, s: seq<T>, x: T)
    ensures Lines(line, s + [x]) == Lines(line, s) + line(x)
  {
    if s == [] {
      assert s + [x] == [x] && [x][1..] == [];
      assert Lines(line, [x]) == line(x) + "";
    } else {
      LinesSnoc(line, s[1..], x);
      assert (s + [x])[1..] == s[1..] + [x];
      assert line(s[0]) + (Lines(line, s[1..]) + line(x)) == line(s[0]) + Lines(line, s[1..]) + line(x);
    }
  }
}
