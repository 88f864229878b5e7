/**
 The notifier's own mails: a message that is built is recognised again, and what its MAC covers tells any two
 lists of fields apart.
 */
module SystemMail {
  import opened Text
  import opened Utf8
  import Base64

  // ---------------------------------------------------------------- framing

  /** The fields one after another, each with its length before it. */
  function Frame(fields: seq<string>): string {
    if fields == [] then "" else Decimal(|fields[0]|) + ":" + fields[0] + "\n" + Frame(fields[1..])
  }

  /** The loop of `hmac`. */
  method FrameFields(fields: seq<string>) returns (framed: string)
    ensures framed == Frame(fields)
  {
    framed := "";
    assert fields[0..] == fields;
    for i := 0 to |fields|
      invariant framed + Frame(fields[i..]) == Frame(fields)
    {
      assert fields[i..] == [fields[i]] + fields[i + 1..];
      framed := framed + Decimal(|fields[i]|) + ":" + fields[i] + "\n";
    }
  }

  /** A length is read off up to the first colon. */
  lemma LengthPrefix(m: nat, n: nat, a: string, b: string)
    requires Decimal(m) + ":" + a == Decimal(n) + ":" + b
    ensures m == n && a == b
  {
    var x, y := Decimal(m), Decimal(n);
    assert ':' !in x && ':' !in y;
    SplitFirst(x, a, ':');
    SplitFirst(y, b, ':');
    var s := x + ":" + a;
    assert Split(s, ':')[0] == x && Split(y + ":" + b, ':')[0] == y;
    ParseOfDecimal(m);
    ParseOfDecimal(n);
    assert s[|x| + 1..] == a && (y + ":" + b)[|y| + 1..] == b;
  }

  /** Different lists of fields are framed differently. */
  lemma {:induction false} FrameInjective(a: seq<string>, b: seq<string>)
    requires Frame(a) == Frame(b)
    ensures a == b
    decreases |a|
  {
    if a != [] && b != [] {
      var x, y := a[0] + "\n" + Frame(a[1..]), b[0] + "\n" + Frame(b[1..]);
      assert Frame(a) == Decimal(|a[0]|) + ":" + x;
      assert Frame(b) == Decimal(|b[0]|) + ":" + y;
      LengthPrefix(|a[0]|, |b[0]|, x, y);
      assert x[..|a[0]|] == a[0] && y[..|b[0]|] == b[0];
      assert x[|a[0]| + 1..] == Frame(a[1..]) && y[|b[0]| + 1..] == Frame(b[1..]);
      FrameInjective(a[1..], b[1..]);
    }
  }

  // ---------------------------------------------------------------- line ends

  /** `str_replace` of CR LF. */
  function ReplaceCrlf(s: string, sub: string): string {
    if s == "" then "" else if "\r\n" <= s then sub + ReplaceCrlf(s[2..], sub) else [s[0]] + ReplaceCrlf(s[1..], sub)
  }

  function JoinCrlf(lines: seq<string>): string {
    if lines == [] then "" else if |lines| == 1 then lines[0] else lines[0] + "\r\n" + JoinCrlf(lines[1..])
  }

  predicate IsLine(line: string) { '\r' !in line && '\n' !in line }

  lemma {:induction false} ReplaceAfterLine(line: string, rest: string, sub: string)
    requires IsLine(line)
    ensures ReplaceCrlf(line + "\r\n" + rest, sub) == line + sub + ReplaceCrlf(rest, sub)
  {
    var s := line + "\r\n" + rest;
    if line == "" {
      assert s[..2] == "\r\n" && s[2..] == rest;
      assert line + sub + ReplaceCrlf(rest, sub) == sub + ReplaceCrlf(rest, sub);
    } else {
      assert s[0] == line[0] && s[1..] == line[1..] + "\r\n" + rest;
      ReplaceAfterLine(line[1..], rest, sub);
      assert line == [line[0]] + line[1..];
      assert [line[0]] + (line[1..] + sub + ReplaceCrlf(rest, sub)) == line + sub + ReplaceCrlf(rest, sub);
    }
  }

  lemma {:induction false} ReplaceInLine(line: string, sub: string)
    requires IsLine(line)
    ensures ReplaceCrlf(line, sub) == line
  {
    if line != "" {
      ReplaceInLine(line[1..], sub);
      assert line == [line[0]] + line[1..];
    }
  }

  /** CR LF between lines becomes LF. */
  lemma {:induction false} ReplaceOfJoin(lines: seq<string>)
    requires forall i :: 0 <= i < |lines| ==> IsLine(lines[i])
    ensures ReplaceCrlf(JoinCrlf(lines), "\n") == Join(lines, '\n')
  {
    if |lines| == 1 {
      ReplaceInLine(lines[0], "\n");
    } else if |lines| > 1 {
      ReplaceOfJoin(lines[1..]);
      ReplaceAfterLine(lines[0], JoinCrlf(lines[1..]), "\n");
    }
  }

  /** Where the first blank line begins, at CR LF CR LF. */
  function FindBlank(s: string): (at: Option<nat>)
    ensures at.Some? ==> at.value + 4 <= |s|
  {
    if |s| < 4 then None
    else if s[..4] == "\r\n\r\n" then Some(0)
    else
      var rest := FindBlank(s[1..]);
      if rest.None? then None else Some(1 + rest.value)
  }

  predicate BlankAt(s: string, at: nat) {
    at + 4 <= |s| && s[at..at + 4] == "\r\n\r\n"
  }

  lemma BlankLater(s: string, j: nat)
    requires s != "" && j > 0
    ensures BlankAt(s, j) <==> BlankAt(s[1..], j - 1)
  {
    if j + 4 <= |s| {
      assert s[1..][j - 1..j + 3] == s[j..j + 4];
    }
  }

  /** It is the first blank line. */
  lemma {:induction false} BlankIsFirst(s: string)
    ensures FindBlank(s).Some? ==> BlankAt(s, FindBlank(s).value)
    ensures forall j: nat :: BlankAt(s, j) ==> FindBlank(s).Some? && FindBlank(s).value <= j
  {
    if |s| >= 4 {
      BlankIsFirst(s[1..]);
      if FindBlank(s[1..]).Some? {
        BlankLater(s, FindBlank(s[1..]).value + 1);
      }
      forall j: nat | BlankAt(s, j) ensures FindBlank(s).Some? && FindBlank(s).value <= j {
        if j > 0 {
          BlankLater(s, j);
        }
      }
    }
  }

  lemma {:induction false} BlankAfterText(line: string, rest: string)
    requires '\r' !in line
    ensures FindBlank(line + rest) == match FindBlank(rest) case None => None case Some(at) => Some(|line| + at)
  {
    var s := line + rest;
    if line == "" {
      assert s == rest;
    } else {
      assert s[1..] == line[1..] + rest;
      BlankAfterText(line[1..], rest);
      if |s| >= 4 {
        assert s[..4][0] == line[0];
      }
    }
  }

  /** The first blank line after some lines is the one that follows them. */
  lemma {:induction false} BlankAfterLines(lines: seq<string>, rest: string)
    requires lines != [] && forall i :: 0 <= i < |lines| ==> IsLine(lines[i]) && lines[i] != ""
    ensures FindBlank(JoinCrlf(lines) + "\r\n\r\n" + rest) == Some(|JoinCrlf(lines)|)
  {
    var tail := "\r\n\r\n" + rest;
    if |lines| == 1 {
      assert tail[..4] == "\r\n\r\n";
      BlankAfterText(lines[0], tail);
      assert JoinCrlf(lines) + "\r\n\r\n" + rest == lines[0] + tail;
    } else {
      var after := JoinCrlf(lines[1..]) + "\r\n\r\n" + rest;
      BlankAfterLines(lines[1..], rest);
      BlankAfterText(lines[0], "\r\n" + after);
      assert JoinCrlf(lines) + "\r\n\r\n" + rest == lines[0] + ("\r\n" + after);
      assert after[0] == lines[1][0];
      BlankAfterCrlf(after);
    }
  }

  lemma BlankAfterCrlf(after: string)
    requires after != "" && after[0] != '\r'
    ensures FindBlank("\r\n" + after) == match FindBlank(after) case None => None case Some(at) => Some(2 + at)
  {
    var s := "\r\n" + after;
    assert s[1..] == "\n" + after && ("\n" + after)[1..] == after;
    if |s| >= 4 {
      assert s[..4][2] == after[0];
    }
    if |s[1..]| >= 4 {
      assert s[1..][..4][0] == '\n';
    }
  }

  // ---------------------------------------------------------------- headers

  const MAX_HEADER_PREFIX_BYTES := 65536
  const MAX_HEADER_LINE_BYTES := 997
  const MAX_MESSAGE_BYTES := 65536

  type Headers = map<string, seq<string>>

  /** The characters of a header's name. */
  function IsNameChar(c: char): bool { '!' <= c <= '~' && c != ':' }

  predicate IsPrintable(s: string) {
    forall i :: 0 <= i < |s| ==> ' ' <= s[i] <= '~'
  }

  /** The name up to the first colon and what follows it, when the line has the form of a header. */
  function SplitHeader(line: string): (parts: Option<(string, string)>)
    ensures parts.Some? ==>
              && line == parts.value.0 + ":" + parts.value.1 && parts.value.0 != ""
              && forall i :: 0 <= i < |parts.value.0| ==> IsNameChar(parts.value.0[i])
  {
    var n := NameLength(line);
    if n == 0 || n == |line| || line[n] != ':' then None else Some((line[..n], line[n + 1..]))
  }

  function NameLength(line: string): (n: nat)
    ensures n <= |line| && (forall i :: 0 <= i < n ==> IsNameChar(line[i])) && (n < |line| ==> !IsNameChar(line[n]))
  {
    if line == "" || !IsNameChar(line[0]) then 0 else 1 + NameLength(line[1..])
  }

  /** Appending to the values of a header. */
  function With(headers: Headers, name: string, value: string): Headers {
    headers[name := (if name in headers then headers[name] else []) + [value]]
  }

  /** One line of `parseHeaders`: the headers so far and the name the next line may continue. */
  function ParseLine(line: string, headers: Headers, previous: Option<string>, required: set<string>,
      mime: set<string>):
    Option<(Headers, Option<string>)>
  {
    if line == "" || |line| > MAX_HEADER_LINE_BYTES then None
    else if line[0] == ' ' || line[0] == '\t' then
      if previous.None? || previous.value in required then None
      else Some((if previous.value in mime then With(headers, previous.value, "\0folded") else headers, previous))
    else if SplitHeader(line).None? then None
    else
      var (display, text) := SplitHeader(line).value;
      var name := Lower(display);
      var spaced := text != "" && text[0] == ' ';
      if name in required && !spaced then None
      else
        var value :=
          if name in required then text[1..]
          else if name in mime then (if spaced then text[1..] else "\0invalid-syntax" + text)
          else text;
        Some((With(headers, name, value), Some(name)))
  }

  /** A line that begins with a blank continues a header that is not required; one that matters is spoilt by it. */
  lemma FoldedLine(line: string, headers: Headers, previous: Option<string>, required: set<string>, mime: set<string>)
    requires line != "" && |line| <= MAX_HEADER_LINE_BYTES && line[0] in " \t"
    ensures ParseLine(line, headers, previous, required, mime) ==
              if previous.None? || previous.value in required then None
              else if previous.value !in mime then Some((headers, previous))
              else Some((With(headers, previous.value, "\0folded"), previous))
  {
  }

  /** The value of a header that must be exact begins after its blank, and is spoilt when there is none. */
  lemma ExactLine(name: string, text: string, headers: Headers, previous: Option<string>, required: set<string>,
      mime: set<string>)
    requires name != "" && (forall i :: 0 <= i < |name| ==> IsNameChar(name[i])) && |name| + 1 + |text| <= 997
    requires Lower(name) !in required
    ensures var value :=
              if Lower(name) !in mime then text
              else if text != "" && text[0] == ' ' then text[1..] else "\0invalid-syntax" + text;
            ParseLine(name + ":" + text, headers, previous, required, mime) ==
              Some((With(headers, Lower(name), value), Some(Lower(name))))
  {
    hide Lower;
    NameLengthOf(name, ":" + text);
    assert name + ":" + text == name + (":" + text) && (name + ":" + text)[0] == name[0];
    assert (name + ":" + text)[..|name|] == name && (name + ":" + text)[|name| + 1..] == text;
  }

  function ParseLines(lines: seq<string>, headers: Headers, previous: Option<string>, required: set<string>,
      mime: set<string>):
    Option<Headers>
  {
    if lines == [] then Some(headers)
    else
      var next := ParseLine(lines[0], headers, previous, required, mime);
      if next.None? then None else ParseLines(lines[1..], next.value.0, next.value.1, required, mime)
  }

  /** `preg_match('//u')` */
  predicate IsUtf8(s: string) {
    IsBytes(s) && EncodeAll(Points(s)) == s
  }

  lemma IsUtf8IffWellFormed(s: string)
    requires IsBytes(s)
    ensures IsUtf8(s) <==> WellFormed(s)
  {
    if WellFormed(s) {
      WellFormedIsPoints(s);
    }
  }

  /** `parseHeaders` */
  function ParseHeaders(raw: string, required: set<string>, mime: set<string>): Option<Headers> {
    var normalized := ReplaceCrlf(raw, "\n");
    if !IsUtf8(raw) || '\r' in normalized then None
    else ParseLines(Split(normalized, '\n'), map[], None, required, mime)
  }

  /** The loop of `parseHeaders`. */
  method ReadHeaders(raw: string, required: set<string>, mime: set<string>) returns (headers: Option<Headers>)
    ensures headers == ParseHeaders(raw, required, mime)
  {
    hide ParseLine, IsUtf8, ReplaceCrlf, Split;
    var normalized := ReplaceCrlf(raw, "\n");
    if !IsUtf8(raw) || '\r' in normalized {
      return None;
    }
    var lines := Split(normalized, '\n');
    var soFar: Headers, previous: Option<string> := map[], None;
    assert lines[0..] == lines;
    for i := 0 to |lines|
      invariant ParseLines(lines, map[], None, required, mime) ==
                ParseLines(lines[i..], soFar, previous, required, mime)
    {
      var next := ParseLine(lines[i], soFar, previous, required, mime);
      assert lines[i..][1..] == lines[i + 1..];
      if next.None? {
        return None;
      }
      soFar, previous := next.value.0, next.value.1;
    }
    return Some(soFar);
  }

  predicate Continues(line: string) { line != "" && (line[0] == ' ' || line[0] == '\t') }

  /** The value a line gives to a header, when it is written as the name in any case, a colon and a space. */
  function ValueOn(line: string, name: string): Option<string> {
    var parts := if Continues(line) then None else SplitHeader(line);
    if parts.Some? && Lower(parts.value.0) == name && parts.value.1 != "" && parts.value.1[0] == ' ' then
      Some(parts.value.1[1..])
    else None
  }

  function ValuesOn(lines: seq<string>, name: string): seq<string> {
    if lines == [] then []
    else (if ValueOn(lines[0], name).Some? then [ValueOn(lines[0], name).value] else []) + ValuesOn(lines[1..], name)
  }

  function ValuesOf(headers: Headers, name: string): seq<string> { if name in headers then headers[name] else [] }

  /** No line is empty or too long, and no required header goes on in the next line. */
  predicate LinesOk(lines: seq<string>, required: set<string>) {
    && (forall i :: 0 <= i < |lines| ==> lines[i] != "" && |lines[i]| <= MAX_HEADER_LINE_BYTES)
    && (forall i, name :: 0 < i < |lines| && name in required && ValueOn(lines[i - 1], name).Some? ==>
      !Continues(lines[i]))
  }

  /** A required header has the values that are written, in their order, and nothing else. */
  lemma {:induction false} RequiredAsWritten(lines: seq<string>, headers: Headers, previous: Option<string>,
      required: set<string>, mime: set<string>)
    requires ParseLines(lines, headers, previous, required, mime).Some? && required !! mime
    ensures var parsed := ParseLines(lines, headers, previous, required, mime).value;
            && LinesOk(lines, required)
            && (previous.Some? && previous.value in required && lines != [] ==> !Continues(lines[0]))
            && forall name :: name in required ==>
                 ValuesOf(parsed, name) == ValuesOf(headers, name) + ValuesOn(lines, name)
  {
    hide ParseLine, ValueOn, With, Continues;
    if lines != [] {
      var (next, name) := ParseLine(lines[0], headers, previous, required, mime).value;
      RequiredAsWritten(lines[1..], next, name, required, mime);
      OneLineAsWritten(lines[0], headers, previous, required, mime);
      forall i | 0 < i < |lines| ensures lines[i] == lines[1..][i - 1] {
      }
    }
  }

  lemma OneLineAsWritten(line: string, headers: Headers, previous: Option<string>, required: set<string>,
      mime: set<string>)
    requires ParseLine(line, headers, previous, required, mime).Some? && required !! mime
    ensures var (next, now) := ParseLine(line, headers, previous, required, mime).value;
            && line != "" && |line| <= MAX_HEADER_LINE_BYTES
            && (Continues(line) ==> now == previous && previous.Some? && previous.value !in required)
            && (forall name :: name in required && ValueOn(line, name).Some? ==> now == Some(name))
            && forall name :: name in required ==>
                 ValuesOf(next, name) ==
                 ValuesOf(headers, name) + (if ValueOn(line, name).Some? then [ValueOn(line, name).value] else [])
  {
  }

  // ---------------------------------------------------------------- lines of known headers

  datatype Field = Field(display: string, value: string)

  function Line(f: Field): string { f.display + ": " + f.value }

  function Lines(fields: seq<Field>): seq<string> { seq(|fields|, i requires 0 <= i < |fields| => Line(fields[i])) }

  /** A header that is looked at, on a line that is not too long. */
  predicate FieldOk(f: Field, required: set<string>, mime: set<string>) {
    && f.display != "" && (forall i :: 0 <= i < |f.display| ==> IsNameChar(f.display[i]))
    && IsPrintable(f.value) && |Line(f)| <= MAX_HEADER_LINE_BYTES
    && (Lower(f.display) in required || Lower(f.display) in mime)
  }

  predicate NamesDiffer(fields: seq<Field>) {
    forall i, j :: 0 <= i < j < |fields| ==> Lower(fields[i].display) != Lower(fields[j].display)
  }

  lemma {:induction false} NameLengthOf(name: string, rest: string)
    requires (forall i :: 0 <= i < |name| ==> IsNameChar(name[i])) && rest != "" && !IsNameChar(rest[0])
    ensures NameLength(name + rest) == |name|
  {
    if name == "" {
      assert name + rest == rest;
    } else {
      assert (name + rest)[1..] == name[1..] + rest;
      NameLengthOf(name[1..], rest);
    }
  }

  /** A known header is read as its name and its value. */
  lemma FieldIsRead(f: Field, headers: Headers, previous: Option<string>, required: set<string>, mime: set<string>)
    requires FieldOk(f, required, mime) && Lower(f.display) !in headers
    ensures ParseLine(Line(f), headers, previous, required, mime) ==
            Some((headers[Lower(f.display) := [f.value]], Some(Lower(f.display))))
  {
    hide Lower;
    var line := Line(f);
    NameLengthOf(f.display, ": " + f.value);
    assert line == f.display + (": " + f.value);
    assert line[0] == f.display[0];
    assert line[..|f.display|] == f.display && line[|f.display| + 1..] == " " + f.value;
    assert (" " + f.value)[1..] == f.value;
    assert [] + [f.value] == [f.value];
  }

  /** All of them are read, each once. */
  lemma {:induction false} FieldsAreRead(fields: seq<Field>, headers: Headers, previous: Option<string>,
      required: set<string>, mime: set<string>)
    requires forall i :: 0 <= i < |fields| ==>
               FieldOk(fields[i], required, mime) && Lower(fields[i].display) !in headers
    requires NamesDiffer(fields)
    ensures var parsed := ParseLines(Lines(fields), headers, previous, required, mime);
            && parsed.Some?
            && (forall name :: name in headers ==> name in parsed.value && parsed.value[name] == headers[name])
            && (forall i :: 0 <= i < |fields| ==>
                  Lower(fields[i].display) in parsed.value
                    && parsed.value[Lower(fields[i].display)] == [fields[i].value])
  {
    hide Lower, ParseLine, FieldOk, Line;
    if fields != [] {
      var name, rest := Lower(fields[0].display), fields[1..];
      FieldIsRead(fields[0], headers, previous, required, mime);
      assert Lines(fields)[1..] == Lines(rest);
      var more := headers[name := [fields[0].value]];
      assert forall i :: 0 <= i < |rest| ==> rest[i] == fields[i + 1];
      FieldsAreRead(rest, more, Some(name), required, mime);
      assert name in more;
    }
  }

  lemma {:induction false} AsciiIsUtf8(s: string)
    requires forall i :: 0 <= i < |s| ==> s[i] as int < 0x80
    ensures IsUtf8(s)
  {
    if s != "" {
      ReadCases(s);
      AsciiIsUtf8(s[1..]);
      assert Points(s) == [s[0] as int] + Points(s[1..]);
      assert Encode(s[0] as int) == [s[0]];
      assert Points(s)[1..] == Points(s[1..]);
      assert s == [s[0]] + s[1..];
    }
  }

  lemma {:induction false} JoinIsAscii(lines: seq<string>)
    requires forall i :: 0 <= i < |lines| ==> IsPrintable(lines[i])
    ensures forall i :: 0 <= i < |JoinCrlf(lines)| ==> JoinCrlf(lines)[i] as int < 0x80
  {
    if |lines| > 1 {
      JoinIsAscii(lines[1..]);
      assert forall i :: 0 <= i < |lines[0]| ==> lines[0][i] as int < 0x80;
    }
  }

  lemma PrintableIsLine(line: string)
    requires IsPrintable(line)
    ensures IsLine(line)
  {
  }

  /** Printable lines are split apart again. */
  lemma LinesAreSplit(lines: seq<string>)
    requires lines != [] && forall i :: 0 <= i < |lines| ==> IsPrintable(lines[i])
    ensures var normalized := ReplaceCrlf(JoinCrlf(lines), "\n");
            IsUtf8(JoinCrlf(lines)) && '\r' !in normalized && Split(normalized, '\n') == lines
  {
    hide IsUtf8, ReplaceCrlf, JoinCrlf, Split, Join;
    forall i | 0 <= i < |lines| ensures IsLine(lines[i]) {
      PrintableIsLine(lines[i]);
    }
    JoinIsAscii(lines);
    AsciiIsUtf8(JoinCrlf(lines));
    ReplaceOfJoin(lines);
    JoinKeepsOut(lines, '\n', '\r');
    SplitOfJoin(lines, '\n');
  }

  lemma LineIsPrintable(f: Field, required: set<string>, mime: set<string>)
    requires FieldOk(f, required, mime)
    ensures IsPrintable(Line(f)) && Line(f) != ""
  {
  }

  /** A block of known headers is read back, each with its value. */
  lemma HeadersAreRead(fields: seq<Field>, required: set<string>, mime: set<string>)
    requires fields != [] && NamesDiffer(fields) && forall i :: 0 <= i < |fields| ==> FieldOk(fields[i], required, mime)
    ensures var parsed := ParseHeaders(JoinCrlf(Lines(fields)), required, mime);
            && parsed.Some?
            && forall i :: 0 <= i < |fields| ==>
                 Lower(fields[i].display) in parsed.value && parsed.value[Lower(fields[i].display)] == [fields[i].value]
  {
    hide FieldOk, Line, Lower, ParseLines, ReplaceCrlf, JoinCrlf, Split, IsUtf8, IsPrintable;
    var lines := Lines(fields);
    forall i | 0 <= i < |lines| ensures IsPrintable(lines[i]) {
      LineIsPrintable(fields[i], required, mime);
    }
    LinesAreSplit(lines);
    FieldsAreRead(fields, map[], None, required, mime);
  }

  // ---------------------------------------------------------------- the encoded body

  const BODY_COLUMNS := 76

  /** `chunk_split` at 76 columns with one line end after the last line. */
  function Wrapped(s: string): string {
    if |s| <= BODY_COLUMNS then s + "\r\n" else s[..BODY_COLUMNS] + "\r\n" + Wrapped(s[BODY_COLUMNS..])
  }

  lemma {:induction false} UnwrapOfWrapped(s: string)
    requires IsLine(s)
    ensures ReplaceCrlf(Wrapped(s), "") == s
    decreases |s|
  {
    hide ReplaceCrlf;
    if |s| <= BODY_COLUMNS {
      ReplaceAfterLine(s, "", "");
      assert s + "\r\n" == s + "\r\n" + "";
      NothingToReplace();
      assert s + "" + "" == s;
    } else {
      var line, rest := s[..BODY_COLUMNS], s[BODY_COLUMNS..];
      UnwrapOfWrapped(rest);
      ReplaceAfterLine(line, Wrapped(rest), "");
      assert line + "" + rest == s;
    }
  }

  lemma NothingToReplace()
    ensures ReplaceCrlf("", "") == ""
  {
  }

  /** `canonicalBase64` */
  function CanonicalBase64(body: string): string
    requires IsBytes(body)
  {
    Wrapped(Base64.Encode(body))
  }

  /** How a body is read: only its canonical writing is accepted. */
  function DecodeBody(rawBody: string): (body: Option<string>)
    ensures body.Some? ==> IsBytes(body.value) && CanonicalBase64(body.value) == rawBody
  {
    var body := Base64.Decode(ReplaceCrlf(rawBody, ""));
    if body.Some? && CanonicalBase64(body.value) == rawBody then body else None
  }

  // ---------------------------------------------------------------- the subject

  const CHUNK_BYTES := 45

  /** The text cut between code points into pieces of at most 45 bytes, the one being filled first. */
  function Chunks(chunk: string, points: seq<CodePoint>): (chunks: seq<string>)
    requires AllScalar(points)
    ensures IsBytes(chunk) ==> forall i :: 0 <= i < |chunks| ==> IsBytes(chunks[i])
    decreases |points|
  {
    if points == [] then (if chunk == "" then [] else [chunk])
    else
      var point := Encode(points[0]);
      if chunk != "" && |chunk + point| > CHUNK_BYTES then [chunk] + Chunks(point, points[1..])
      else Chunks(chunk + point, points[1..])
  }

  function Word(chunk: string): string
    requires IsBytes(chunk)
  {
    "=?UTF-8?B?" + Base64.Encode(chunk) + "?="
  }

  function Words(chunks: seq<string>): seq<string>
    requires forall i :: 0 <= i < |chunks| ==> IsBytes(chunks[i])
  {
    seq(|chunks|, i requires 0 <= i < |chunks| => Word(chunks[i]))
  }

  /** `encodeSubject` */
  function EncodeSubject(points: seq<CodePoint>): string
    requires AllScalar(points)
  {
    Join(Words(Chunks("", points)), ' ')
  }

  /** The loop of `encodeSubject`. */
  method SplitSubject(points: seq<CodePoint>) returns (chunks: seq<string>)
    requires AllScalar(points)
    ensures chunks == Chunks("", points)
  {
    chunks := [];
    var chunk := "";
    assert points[0..] == points;
    for i := 0 to |points|
      invariant chunks + Chunks(chunk, points[i..]) == Chunks("", points)
    {
      assert points[i..][1..] == points[i + 1..];
      var point := Encode(points[i]);
      if chunk != "" && |chunk + point| > CHUNK_BYTES {
        chunks := chunks + [chunk];
        chunk := "";
      }
      assert "" + point == point;
      chunk := chunk + point;
    }
    if chunk != "" {
      chunks := chunks + [chunk];
    }
  }

  /** The pieces are the text, none is empty, and none is too long for an encoded word. */
  lemma {:induction false} ChunksOfText(chunk: string, points: seq<CodePoint>)
    requires AllScalar(points) && |chunk| <= CHUNK_BYTES
    ensures Concat(Chunks(chunk, points)) == chunk + EncodeAll(points)
    ensures forall i :: 0 <= i < |Chunks(chunk, points)| ==> 0 < |Chunks(chunk, points)[i]| <= CHUNK_BYTES
    decreases |points|
  {
    if points == [] {
      assert chunk + "" == chunk;
    } else {
      var point, rest := Encode(points[0]), points[1..];
      if chunk != "" && |chunk + point| > CHUNK_BYTES {
        ChunksOfText(point, rest);
        assert ([chunk] + Chunks(point, rest))[1..] == Chunks(point, rest);
        assert chunk + (point + EncodeAll(rest)) == chunk + EncodeAll(points);
      } else {
        ChunksOfText(chunk + point, rest);
        assert chunk + point + EncodeAll(rest) == chunk + (point + EncodeAll(rest));
      }
    }
  }

  lemma EncodedIsPrintable(s: string)
    requires IsBytes(s)
    ensures IsPrintable(Base64.Encode(s)) && IsLine(Base64.Encode(s))
  {
    var text := Base64.Encode(s);
    forall i | 0 <= i < |text| ensures ' ' <= text[i] <= '~' {
      assert Base64.Value(text[i]).Some?;
    }
  }

  lemma WordIsPrintable(chunk: string)
    requires IsBytes(chunk)
    ensures IsPrintable(Word(chunk))
  {
    EncodedIsPrintable(chunk);
    assert IsPrintable("=?UTF-8?B?") && IsPrintable("?=");
  }

  lemma {:induction false} JoinIsPrintable(parts: seq<string>, sep: char)
    requires ' ' <= sep <= '~' && forall i :: 0 <= i < |parts| ==> IsPrintable(parts[i])
    ensures IsPrintable(Join(parts, sep))
  {
    if |parts| > 1 {
      JoinIsPrintable(parts[1..], sep);
    }
  }

  lemma SubjectIsPrintable(points: seq<CodePoint>)
    requires AllScalar(points)
    ensures IsPrintable(EncodeSubject(points))
  {
    hide IsPrintable, Word, Join;
    var chunks := Chunks("", points);
    forall i | 0 <= i < |chunks| ensures IsPrintable(Words(chunks)[i]) {
      WordIsPrintable(chunks[i]);
    }
    JoinIsPrintable(Words(chunks), ' ');
  }

  // ---------------------------------------------------------------- the names

  const PREFIX := "X-Xserver-Mail-Notifier-"
  const LOWER_PREFIX := "x-xserver-mail-notifier-"

  /** The headers of a mail. */
  datatype Name =
    To | Subject | Date | MimeVersion | ContentType | TransferEncoding | Version | Type | Event | BodySha256 | Auth

  predicate IsOwn(name: Name) { name == Version || name == Type || name == Event || name == BodySha256 || name == Auth }

  /** The end of a name, which is all of it for the usual headers. */
  function Suffix(name: Name): string {
    match name
    case To => "To"
    case Subject => "Subject"
    case Date => "Date"
    case MimeVersion => "MIME-Version"
    case ContentType => "Content-Type"
    case TransferEncoding => "Content-Transfer-Encoding"
    case Version => "Version"
    case Type => "Type"
    case Event => "Event"
    case BodySha256 => "Body-SHA256"
    case Auth => "Auth"
  }

  function LowerSuffix(name: Name): string {
    match name
    case To => "to"
    case Subject => "subject"
    case Date => "date"
    case MimeVersion => "mime-version"
    case ContentType => "content-type"
    case TransferEncoding => "content-transfer-encoding"
    case Version => "version"
    case Type => "type"
    case Event => "event"
    case BodySha256 => "body-sha256"
    case Auth => "auth"
  }

  /** A header's name as it is written. */
  function Display(name: Name): string { (if IsOwn(name) then PREFIX else "") + Suffix(name) }

  /** And as it is looked up. */
  function Key(name: Name): string { (if IsOwn(name) then LOWER_PREFIX else "") + LowerSuffix(name) }

  const REQUIRED: set<Name> := {To, Subject, Date, Version, Type, Event, BodySha256, Auth}
  const MIME: set<Name> := {MimeVersion, ContentType, TransferEncoding}

  function Keys(names: set<Name>): set<string> { set name | name in names :: Key(name) }

  lemma LowerOfBoth(a: string, b: string)
    ensures Lower(a + b) == Lower(a) + Lower(b)
  {
  }

  lemma PrefixLower()
    ensures Lower(PREFIX) == LOWER_PREFIX
  {
  }

  lemma ShortLower()
    ensures Lower("To") == "to" && Lower("Subject") == "subject" && Lower("Date") == "date"
    ensures Lower("Version") == "version"
    ensures Lower("Type") == "type" && Lower("Event") == "event" && Lower("Auth") == "auth"
  {
  }

  lemma MimeLower()
    ensures Lower("MIME-Version") == "mime-version" && Lower("Content-Type") == "content-type"
    ensures Lower("Body-SHA256") == "body-sha256"
  {
  }

  lemma EncodingLower()
    ensures Lower("Content-Transfer-Encoding") == "content-transfer-encoding"
  {
  }

  lemma KeyIsLower(name: Name)
    ensures Lower(Display(name)) == Key(name)
  {
    hide Lower;
    PrefixLower();
    ShortLower();
    MimeLower();
    EncodingLower();
    LowerOfBoth(PREFIX, Suffix(name));
    assert "" + Suffix(name) == Suffix(name);
    assert "" + LowerSuffix(name) == LowerSuffix(name);
  }

  predicate AllNameChars(s: string) {
    forall i :: 0 <= i < |s| ==> IsNameChar(s[i])
  }

  lemma PrefixIsName()
    ensures AllNameChars(PREFIX) && |PREFIX| == 24
  {
  }

  lemma SuffixIsName(name: Name)
    ensures AllNameChars(Suffix(name)) && 0 < |Suffix(name)| <= 25
  {
    match name
    case To => case Subject => case Date => case MimeVersion =>
    case ContentType => case TransferEncoding => case Version => case Type =>
    case Event => case BodySha256 => case Auth =>
  }

  lemma DisplayIsName(name: Name)
    ensures Display(name) != "" && |Display(name)| <= 49 && AllNameChars(Display(name))
  {
    hide Suffix, IsNameChar;
    PrefixIsName();
    SuffixIsName(name);
  }

  /** No two headers have the same name. */
  lemma KeysDiffer(a: Name, b: Name)
    requires Key(a) == Key(b)
    ensures a == b
  {
    hide Key;
    KeyLength(a);
    KeyLength(b);
  }

  /** All names differ in length but two pairs. */
  function Length(name: Name): nat {
    match name
    case To => 2 case Subject => 7 case Date => 4
    case MimeVersion => 12 case ContentType => 12 case TransferEncoding => 25
    case Version => 31 case Type => 28 case Event => 29 case BodySha256 => 35 case Auth => 28
  }

  lemma KeyLength(name: Name)
    ensures |Key(name)| == Length(name)
    ensures name == MimeVersion ==> Key(name)[0] == 'm'
    ensures name == ContentType ==> Key(name)[0] == 'c'
    ensures name == Type ==> Key(name)[24] == 't'
    ensures name == Auth ==> Key(name)[24] == 'a'
  {
    assert |LOWER_PREFIX| == 24;
  }

  // ---------------------------------------------------------------- building and recognising

  /** What a mail says, header by header. */
  datatype Mail = Mail(kind: string, event: string, to: string, subject: string, date: string, bodyHash: string)

  function Value(m: Mail, mac: string, name: Name): string {
    match name
    case To => m.to
    case Subject => m.subject
    case Date => m.date
    case MimeVersion => "1.0"
    case ContentType => "text/plain; charset=UTF-8"
    case TransferEncoding => "base64"
    case Version => "2"
    case Type => m.kind
    case Event => m.event
    case BodySha256 => m.bodyHash
    case Auth => "hmac-sha256=" + mac
  }

  /** The headers in the order in which they are written. */
  function Order(i: nat): Name
    requires i < 11
  {
    if i == 0 then To else if i == 1 then Subject else if i == 2 then Date else if i == 3 then MimeVersion
    else if i == 4 then ContentType else if i == 5 then TransferEncoding else if i == 6 then Version
    else if i == 7 then Type else if i == 8 then Event else if i == 9 then BodySha256 else Auth
  }

  function Place(name: Name): (i: nat)
    ensures i < 11 && Order(i) == name
  {
    match name
    case To => 0 case Subject => 1 case Date => 2 case MimeVersion => 3 case ContentType => 4 case TransferEncoding => 5
    case Version => 6 case Type => 7 case Event => 8 case BodySha256 => 9 case Auth => 10
  }

  function Fields(m: Mail, mac: string): (fields: seq<Field>)
    ensures |fields| == 11
  {
    seq(11, i requires 0 <= i < 11 => Field(Display(Order(i)), Value(m, mac, Order(i))))
  }

  /** What the MAC of a mail covers. */
  function MacFields(m: Mail): seq<string> {
    ["2", m.kind, m.event, m.to, m.subject, m.date, "1.0", "text/plain; charset=UTF-8", "base64", m.bodyHash]
  }

  /** The MAC covers the whole of what a mail says: mails framed alike are the same. */
  lemma MacCoversMail(a: Mail, b: Mail)
    requires Frame(MacFields(a)) == Frame(MacFields(b))
    ensures a == b
  {
    FrameInjective(MacFields(a), MacFields(b));
    var x, y := MacFields(a), MacFields(b);
    assert x[1] == y[1] && x[2] == y[2] && x[3] == y[3] && x[4] == y[4] && x[5] == y[5] && x[9] == y[9];
  }

  function SubjectText(kind: string, test: bool): (points: Option<seq<CodePoint>>)
    ensures points.Some? ==> AllScalar(points.value)
    ensures points.Some? <==> kind == "error" || kind == "recovery"
  {
    if kind == "error" then
      Some(CodePoints(if test then "【テスト・対応不要】障害通知メールの動作確認" else "【要確認】LINE WORKSメール通知で障害が発生しました"))
    else if kind == "recovery" then
      Some(CodePoints(if test then "【テスト・対応不要】復旧通知メールの動作確認" else "【復旧・要確認】LINE WORKSメール通知が復旧しました"))
    else None
  }

  /** The subjects tell an error from a recovery, and a test from the real thing. */
  lemma SubjectsAre()
    ensures SubjectText("error", true) == Some(CodePoints("【テスト・対応不要】障害通知メールの動作確認"))
    ensures SubjectText("error", false) == Some(CodePoints("【要確認】LINE WORKSメール通知で障害が発生しました"))
    ensures SubjectText("recovery", true) == Some(CodePoints("【テスト・対応不要】復旧通知メールの動作確認"))
    ensures SubjectText("recovery", false) == Some(CodePoints("【復旧・要確認】LINE WORKSメール通知が復旧しました"))
  {
  }

  /** `validV2Body` */
  predicate ValidBody(body: string) {
    && IsUtf8(body) && '\0' !in body && '\r' !in body
    && body != "" && body[|body| - 1] == '\n' && (|body| >= 2 ==> body[|body| - 2] != '\n')
  }

  /** A body is UTF-8 text that ends with one line end, without a carriage return or a NUL. */
  lemma ValidBodyIff(body: string)
    ensures ValidBody(body) <==>
              && body != "" && body == body[..|body| - 1] + "\n"
              && (|body| == 1 || body[..|body| - 1][|body| - 2] != '\n')
              && IsUtf8(body) && forall i :: 0 <= i < |body| ==> body[i] != '\0' && body[i] != '\r'
  {
  }

  /** A mailer's key and the functions it is built on. */
  datatype Mailer = Mailer(
    key: string,
    hash: string -> string,
    mac: (string, string) -> string,
    canonical: seq<string> -> Option<seq<string>>,
    formats: string -> bool,
    authenticV1: (Headers, string) -> bool)
  {
    /** Digests are 64 hexadecimal digits, canonical lists of addresses stay as they are, and dates are printable. */
    ghost predicate Lawful() {
      && (forall s :: IsHex(hash(s), 64))
      && (forall k, s :: IsHex(mac(k, s), 64))
      && (forall list :: canonical(list).Some? ==>
        canonical(canonical(list).value) == canonical(list) && AddressesOk(canonical(list).value))
      && (forall date :: formats(date) ==> IsPrintable(date))
    }

    static predicate AddressesOk(list: seq<string>) {
      list != [] && forall i :: 0 <= i < |list| ==> list[i] != "" && IsPrintable(list[i]) && ',' !in list[i]
    }

    /** `validDateWithOffset`, the reading of the date itself being given. */
    predicate ValidDate(date: string) {
      && (forall i :: 0 <= i < |date| ==> date[i] as int > 0x1F && date[i] as int != 0x7F)
      && formats(date) && |date| >= 6 && date[|date| - 6..] == " +0900"
    }

    function Mac(m: Mail): string { mac(key, Frame(MacFields(m))) }

    /** `build` */
    function Build(kind: string, recipients: seq<string>, date: string, event: string, body: string,
        test: bool): Option<string>
      requires IsBytes(body)
    {
      var list := canonical(recipients);
      if list.None? || SubjectText(kind, test).None? || !IsHex(event, 32) || !ValidDate(date) || !ValidBody(body) then
        None
      else
        var m :=
          Mail(kind, event, Join(list.value, ','), EncodeSubject(SubjectText(kind, test).value), date, hash(body));
        var lines := Lines(Fields(m, Mac(m)));
        if exists i :: 0 <= i < |lines| && |lines[i]| > MAX_HEADER_LINE_BYTES then None
        else
          var wire := JoinCrlf(lines) + "\r\n\r\n" + CanonicalBase64(body);
          if |wire| > MAX_MESSAGE_BYTES then None else Some(wire)
    }

    /** `canonicalTo` */
    predicate CanonicalTo(to: string) {
      var list := canonical(Split(to, ','));
      to != "" && list.Some? && Join(list.value, ',') == to
    }

    /** The mail the headers tell of. */
    function MailOf(headers: Headers): Mail
      requires forall name :: name in REQUIRED ==> Key(name) in headers && |headers[Key(name)]| == 1
    {
      assert To in REQUIRED && Subject in REQUIRED && Date in REQUIRED && Type in REQUIRED && Event in REQUIRED
        && BodySha256 in REQUIRED;
      Mail(headers[Key(Type)][0], headers[Key(Event)][0], headers[Key(To)][0],
           headers[Key(Subject)][0], headers[Key(Date)][0], headers[Key(BodySha256)][0])
    }

    /** `authenticateV2` */
    predicate AuthenticV2(headers: Headers, rawBody: string)
      requires forall name :: name in REQUIRED ==> Key(name) in headers && |headers[Key(name)]| == 1
    {
      assert Auth in REQUIRED;
      var m, claimed := MailOf(headers), headers[Key(Auth)][0];
      var body := DecodeBody(rawBody);
      && (forall name :: name in MIME ==> Key(name) in headers && headers[Key(name)] == [Value(m, "", name)])
      && (exists test :: SubjectText(m.kind, test).Some? && m.subject == EncodeSubject(SubjectText(m.kind, test).value))
      && ValidDate(m.date) && IsHex(m.event, 32) && IsHex(m.bodyHash, 64) && CanonicalTo(m.to)
      && |claimed| == 76 && claimed[..12] == "hmac-sha256=" && IsHex(claimed[12..], 64)
      && body.Some? && ValidBody(body.value)
      && m.bodyHash == hash(body.value) && claimed[12..] == Mac(m)
    }

    /** `isAuthentic` */
    predicate IsAuthentic(raw: string) {
      var at := FindBlank(if |raw| > MAX_HEADER_PREFIX_BYTES then raw[..MAX_HEADER_PREFIX_BYTES] else raw);
      at.Some? &&
      var headers := ParseHeaders(raw[..at.value], Keys(REQUIRED), Keys(MIME));
      headers.Some? &&
      (forall name :: name in REQUIRED ==> Key(name) in headers.value && |headers.value[Key(name)]| == 1) &&
      var rawBody, version := raw[at.value + 4..], headers.value[Key(Version)][0];
      if version == "1" then authenticV1(headers.value, rawBody)
      else version == "2" && |raw| <= MAX_MESSAGE_BYTES && AuthenticV2(headers.value, rawBody)
    }
  }

  /** A date is printable and in Japanese time. */
  lemma ValidDateTells(mailer: Mailer, date: string)
    requires mailer.ValidDate(date)
    ensures mailer.formats(date) && |date| >= 6 && date == date[..|date| - 6] + " +0900"
    ensures forall i :: 0 <= i < |date| ==> ' ' <= date[i] && date[i] != 127 as char
  {
  }

  /** The addresses of a mail are their own canonical list. */
  lemma CanonicalToTells(mailer: Mailer, to: string)
    requires mailer.CanonicalTo(to)
    ensures to != "" && exists list :: mailer.canonical(Split(to, ',')) == Some(list) && Join(list, ',') == to
  {
  }

  lemma BodyIsRead(body: string)
    requires IsBytes(body)
    ensures DecodeBody(CanonicalBase64(body)) == Some(body)
  {
    EncodedIsPrintable(body);
    UnwrapOfWrapped(Base64.Encode(body));
    Base64.DecodeOfEncode(body);
  }

  /** What can be written in a header. */
  predicate MailOk(m: Mail, mac: string) {
    && IsPrintable(m.kind) && IsPrintable(m.event) && IsPrintable(m.to) && IsPrintable(m.subject) && IsPrintable(m.date)
    && IsPrintable(m.bodyHash) && IsPrintable(mac)
  }

  lemma ConstantsPrintable()
    ensures IsPrintable("1.0") && IsPrintable("text/plain; charset=UTF-8") && IsPrintable("base64") && IsPrintable("2")
    ensures IsPrintable("hmac-sha256=") && |"hmac-sha256="| == 12
  {
  }

  lemma ValueIsPrintable(m: Mail, mac: string, name: Name)
    requires MailOk(m, mac)
    ensures IsPrintable(Value(m, mac, name))
  {
    hide IsPrintable;
    ConstantsPrintable();
    if name == Auth {
      BothPrintable("hmac-sha256=", mac);
    }
  }

  lemma BothPrintable(a: string, b: string)
    requires IsPrintable(a) && IsPrintable(b)
    ensures IsPrintable(a + b)
  {
  }

  lemma KeyIsKnown(name: Name)
    ensures Key(name) in Keys(REQUIRED) || Key(name) in Keys(MIME)
  {
    hide Key;
    assert name in REQUIRED || name in MIME;
  }

  lemma FieldIsOk(m: Mail, mac: string, i: nat)
    requires i < 11 && MailOk(m, mac) && |Lines(Fields(m, mac))[i]| <= MAX_HEADER_LINE_BYTES
    ensures FieldOk(Fields(m, mac)[i], Keys(REQUIRED), Keys(MIME))
  {
    hide Value, Display, Key, Order, IsPrintable, MailOk, Lower, Keys;
    var name := Order(i);
    DisplayIsName(name);
    KeyIsLower(name);
    KeyIsKnown(name);
    ValueIsPrintable(m, mac, name);
  }

  lemma FieldNamesDiffer(m: Mail, mac: string)
    ensures NamesDiffer(Fields(m, mac))
  {
    hide Value, Display, Key, Lower;
    var fields := Fields(m, mac);
    forall i, j | 0 <= i < j < |fields| ensures Lower(fields[i].display) != Lower(fields[j].display) {
      KeyIsLower(Order(i));
      KeyIsLower(Order(j));
      if Key(Order(i)) == Key(Order(j)) {
        KeysDiffer(Order(i), Order(j));
      }
    }
  }

  /** The headers of a mail are read back with their values. */
  lemma MailIsRead(m: Mail, mac: string)
    requires MailOk(m, mac) && forall i :: 0 <= i < 11 ==> |Lines(Fields(m, mac))[i]| <= MAX_HEADER_LINE_BYTES
    ensures var headers := ParseHeaders(JoinCrlf(Lines(Fields(m, mac))), Keys(REQUIRED), Keys(MIME));
            headers.Some? &&
            forall name :: Key(name) in headers.value && headers.value[Key(name)] == [Value(m, mac, name)]
  {
    hide Value, Display, Key, Order, IsPrintable, MailOk, Lower, FieldOk, NamesDiffer, ParseHeaders, JoinCrlf, Keys,
         Lines;
    var fields := Fields(m, mac);
    forall i | 0 <= i < |fields| ensures FieldOk(fields[i], Keys(REQUIRED), Keys(MIME)) {
      FieldIsOk(m, mac, i);
    }
    FieldNamesDiffer(m, mac);
    HeadersAreRead(fields, Keys(REQUIRED), Keys(MIME));
    var headers := ParseHeaders(JoinCrlf(Lines(fields)), Keys(REQUIRED), Keys(MIME));
    forall name: Name ensures Key(name) in headers.value && headers.value[Key(name)] == [Value(m, mac, name)] {
      var i := Place(name);
      KeyIsLower(name);
      assert fields[i].display == Display(name) && fields[i].value == Value(m, mac, name);
    }
  }

  /** Where a wire text splits into headers and body. */
  lemma WireSplits(m: Mail, mac: string, rawBody: string)
    requires MailOk(m, mac) && forall i :: 0 <= i < 11 ==> |Lines(Fields(m, mac))[i]| <= MAX_HEADER_LINE_BYTES
    ensures var block := JoinCrlf(Lines(Fields(m, mac)));
            FindBlank(block + "\r\n\r\n" + rawBody) == Some(|block|)
  {
    hide Value, Display, Key, Order, IsPrintable, MailOk, Lower, FieldOk, JoinCrlf, Keys, Line, IsLine;
    var fields := Fields(m, mac);
    var lines := Lines(fields);
    forall i | 0 <= i < |lines| ensures IsLine(lines[i]) && lines[i] != "" {
      FieldIsOk(m, mac, i);
      LineIsPrintable(fields[i], Keys(REQUIRED), Keys(MIME));
      PrintableIsLine(lines[i]);
    }
    BlankAfterLines(lines, rawBody);
  }

  /** What a mailer builds is made of. */
  lemma BuiltMail(mailer: Mailer, kind: string, recipients: seq<string>, date: string, event: string, body: string,
      test: bool)
    returns (m: Mail)
    requires mailer.Lawful() && IsBytes(body) && mailer.Build(kind, recipients, date, event, body, test).Some?
    ensures m.kind == kind && m.event == event && m.date == date && m.bodyHash == mailer.hash(body)
    ensures m.subject == EncodeSubject(SubjectText(kind, test).value) && mailer.CanonicalTo(m.to)
    ensures MailOk(m, mailer.Mac(m))
    ensures forall i :: 0 <= i < 11 ==> |Lines(Fields(m, mailer.Mac(m)))[i]| <= MAX_HEADER_LINE_BYTES
    ensures mailer.Build(kind, recipients, date, event, body, test) ==
            Some(JoinCrlf(Lines(Fields(m, mailer.Mac(m)))) + "\r\n\r\n" + CanonicalBase64(body))
  {
    hide JoinCrlf, Line, Fields, EncodeSubject, Split, Frame, CanonicalBase64;
    var list := mailer.canonical(recipients).value;
    SplitOfJoin(list, ',');
    m := Mail(kind, event, Join(list, ','), EncodeSubject(SubjectText(kind, test).value), date, mailer.hash(body));
    JoinIsPrintable(list, ',');
    SubjectIsPrintable(SubjectText(kind, test).value);
  }

  /** The MIME headers and the version are always the same. */
  lemma FixedValues(m: Mail, a: string, b: string, name: Name)
    requires name in MIME || name == Version
    ensures Value(m, a, name) == Value(m, b, name)
  {
  }

  lemma AuthValue(m: Mail, mac: string)
    requires IsHex(mac, 64)
    ensures var claimed := Value(m, mac, Auth);
            |claimed| == 76 && claimed[..12] == "hmac-sha256=" && claimed[12..] == mac
  {
    ConstantsPrintable();
  }

  /** The checks of version 2 pass on the headers and the body of a built mail. */
  lemma BuiltPassesV2(mailer: Mailer, m: Mail, headers: Headers, body: string, test: bool)
    requires mailer.Lawful() && IsBytes(body) && ValidBody(body) && mailer.ValidDate(m.date) && IsHex(m.event, 32)
    requires SubjectText(m.kind, test).Some? && m.subject == EncodeSubject(SubjectText(m.kind, test).value)
    requires mailer.CanonicalTo(m.to) && m.bodyHash == mailer.hash(body)
    requires forall name :: Key(name) in headers && headers[Key(name)] == [Value(m, mailer.Mac(m), name)]
    ensures mailer.AuthenticV2(headers, CanonicalBase64(body))
  {
    hide Key, EncodeSubject, ValidBody, Mailer.ValidDate, Mailer.CanonicalTo, CanonicalBase64, SubjectText, Frame,
         MacFields;
    BodyIsRead(body);
    AuthValue(m, mailer.Mac(m));
    forall name | name in MIME ensures headers[Key(name)] == [Value(m, "", name)] {
      FixedValues(m, "", mailer.Mac(m), name);
    }
    assert mailer.MailOf(headers) == m by {
      assert headers[Key(To)] == [Value(m, mailer.Mac(m), To)]
        && headers[Key(Subject)] == [Value(m, mailer.Mac(m), Subject)];
      assert headers[Key(Date)] == [Value(m, mailer.Mac(m), Date)]
        && headers[Key(Type)] == [Value(m, mailer.Mac(m), Type)];
      assert headers[Key(Event)] == [Value(m, mailer.Mac(m), Event)]
        && headers[Key(BodySha256)] == [Value(m, mailer.Mac(m), BodySha256)];
    }
    assert headers[Key(Auth)] == [Value(m, mailer.Mac(m), Auth)];
  }

  /** Every mail that is built is recognised. */
  lemma BuiltIsAuthentic(mailer: Mailer, kind: string, recipients: seq<string>, date: string, event: string,
      body: string, test: bool)
    requires mailer.Lawful() && IsBytes(body) && mailer.Build(kind, recipients, date, event, body, test).Some?
    ensures mailer.IsAuthentic(mailer.Build(kind, recipients, date, event, body, test).value)
  {
    hide Key, Value, EncodeSubject, ValidBody, Mailer.ValidDate, Mailer.CanonicalTo, CanonicalBase64, SubjectText,
         Frame, MacFields, MailOk,
         JoinCrlf, Fields, Line, Lines, Keys, ParseHeaders, Mailer.AuthenticV2, IsHex, Split, Mailer.Lawful, FindBlank;
    var m := BuiltMail(mailer, kind, recipients, date, event, body, test);
    var mac, rawBody := mailer.Mac(m), CanonicalBase64(body);
    var block := JoinCrlf(Lines(Fields(m, mac)));
    var wire := block + "\r\n\r\n" + rawBody;
    WireSplits(m, mac, rawBody);
    MailIsRead(m, mac);
    assert wire[..|block|] == block && wire[|block| + 4..] == rawBody;
    var headers := ParseHeaders(block, Keys(REQUIRED), Keys(MIME)).value;
    BuiltPassesV2(mailer, m, headers, body, test);
    assert headers[Key(Version)] == [Value(m, mac, Version)];
    VersionTwo(m, mac);
  }

  lemma VersionTwo(m: Mail, mac: string)
    ensures Value(m, mac, Version) == "2" && "2" != "1"
  {
  }

  /** The headers and the body are those of a mail with its own MAC, and the mail keeps to the rules. */
  ghost predicate Carries(mailer: Mailer, headers: Headers, rawBody: string, m: Mail, body: string) {
    && (forall name :: Key(name) in headers && headers[Key(name)] == [Value(m, mailer.Mac(m), name)])
    && IsBytes(body) && rawBody == CanonicalBase64(body) && m.bodyHash == mailer.hash(body) && ValidBody(body)
    && (exists test :: SubjectText(m.kind, test).Some? && m.subject == EncodeSubject(SubjectText(m.kind, test).value))
    && mailer.ValidDate(m.date) && IsHex(m.event, 32) && mailer.CanonicalTo(m.to)
  }

  /** Exactly such headers and bodies pass the checks of version 2. */
  lemma AuthenticIffCarried(mailer: Mailer, headers: Headers, rawBody: string)
    requires mailer.Lawful()
    requires forall name :: name in REQUIRED ==> Key(name) in headers && |headers[Key(name)]| == 1
    requires headers[Key(Version)] == ["2"]
    ensures mailer.AuthenticV2(headers, rawBody) <==> exists m, body :: Carries(mailer, headers, rawBody, m, body)
  {
    if mailer.AuthenticV2(headers, rawBody) {
      AuthenticIsCarried(mailer, headers, rawBody);
      assert Carries(mailer, headers, rawBody, mailer.MailOf(headers), DecodeBody(rawBody).value);
    }
    if m, body :| Carries(mailer, headers, rawBody, m, body) {
      var test :| SubjectText(m.kind, test).Some? && m.subject == EncodeSubject(SubjectText(m.kind, test).value);
      BuiltPassesV2(mailer, m, headers, body, test);
    }
  }

  lemma RequiredOrMime(name: Name)
    ensures name in REQUIRED || name in MIME
  {
    match name
    case To | Subject | Date | Version | Type | Event | BodySha256 | Auth => assert name in REQUIRED;
    case MimeVersion | ContentType | TransferEncoding => assert name in MIME;
  }

  /** Headers and body that pass carry the MAC of what the headers say, and the hash of that very body. */
  lemma AuthenticIsCarried(mailer: Mailer, headers: Headers, rawBody: string)
    requires forall name :: name in REQUIRED ==> Key(name) in headers && |headers[Key(name)]| == 1
    requires headers[Key(Version)] == ["2"] && mailer.AuthenticV2(headers, rawBody)
    ensures DecodeBody(rawBody).Some?
    ensures Carries(mailer, headers, rawBody, mailer.MailOf(headers), DecodeBody(rawBody).value)
  {
    hide Key, EncodeSubject, ValidBody, Mailer.ValidDate, Mailer.CanonicalTo, CanonicalBase64, SubjectText, Frame,
         MacFields, IsHex, DecodeBody;
    var m := mailer.MailOf(headers);
    var claimed := headers[Key(Auth)][0];
    assert claimed == claimed[..12] + claimed[12..];
    forall name ensures Key(name) in headers && headers[Key(name)] == [Value(m, mailer.Mac(m), name)] {
      RequiredOrMime(name);
      if name in MIME {
        FixedValues(m, "", mailer.Mac(m), name);
      }
    }
  }

  /** How a text is taken apart: at its first blank line, which lies within the prefix that is looked at. */
  ghost predicate TakenApart(raw: string, block: string, headers: Headers, rawBody: string) {
    && raw == block + "\r\n\r\n" + rawBody && |block| + 4 <= MAX_HEADER_PREFIX_BYTES
    && (forall j: nat :: j < |block| ==> !BlankAt(raw, j))
    && ParseHeaders(block, Keys(REQUIRED), Keys(MIME)) == Some(headers)
    && (forall name :: name in REQUIRED ==> Key(name) in headers && |headers[Key(name)]| == 1)
  }

  /** What is then read passes the checks of its version. */
  ghost predicate Passes(mailer: Mailer, raw: string, headers: Headers, rawBody: string)
    requires Key(Version) in headers
  {
    || (headers[Key(Version)] == ["1"] && mailer.authenticV1(headers, rawBody))
    || (headers[Key(Version)] == ["2"] && |raw| <= MAX_MESSAGE_BYTES
        && exists m, body :: Carries(mailer, headers, rawBody, m, body))
  }

  lemma VersionIsRead(raw: string, block: string, headers: Headers, rawBody: string)
    requires TakenApart(raw, block, headers, rawBody)
    ensures Key(Version) in headers
  {
    assert Version in REQUIRED;
  }

  lemma BlankInPrefix(raw: string, prefix: string)
    requires prefix == if |raw| > MAX_HEADER_PREFIX_BYTES then raw[..MAX_HEADER_PREFIX_BYTES] else raw
    ensures forall j: nat :: BlankAt(prefix, j) <==> BlankAt(raw, j) && j + 4 <= MAX_HEADER_PREFIX_BYTES
  {
    forall j: nat ensures BlankAt(prefix, j) <==> BlankAt(raw, j) && j + 4 <= MAX_HEADER_PREFIX_BYTES {
      if j + 4 <= |prefix| {
        assert prefix[j..j + 4] == raw[j..j + 4];
      }
    }
  }

  /** Where a text is taken apart. */
  lemma ApartAt(raw: string) returns (block: string, rawBody: string)
    ensures var prefix := if |raw| > MAX_HEADER_PREFIX_BYTES then raw[..MAX_HEADER_PREFIX_BYTES] else raw;
            FindBlank(prefix).Some? ==>
              && raw == block + "\r\n\r\n" + rawBody && |block| + 4 <= MAX_HEADER_PREFIX_BYTES
              && |block| == FindBlank(prefix).value && block == raw[..|block|] && rawBody == raw[|block| + 4..]
              && forall j: nat :: j < |block| ==> !BlankAt(raw, j)
  {
    hide FindBlank;
    var prefix := if |raw| > MAX_HEADER_PREFIX_BYTES then raw[..MAX_HEADER_PREFIX_BYTES] else raw;
    BlankIsFirst(prefix);
    BlankInPrefix(raw, prefix);
    block, rawBody := "", "";
    if FindBlank(prefix).Some? {
      var at := FindBlank(prefix).value;
      assert BlankAt(raw, at);
      block, rawBody := raw[..at], raw[at + 4..];
      assert raw == block + raw[at..at + 4] + rawBody;
    }
  }

  /** What is recognised is taken apart and passes. */
  lemma RecognisedPasses(mailer: Mailer, raw: string) returns (block: string, headers: Headers, rawBody: string)
    requires mailer.Lawful() && mailer.IsAuthentic(raw)
    ensures TakenApart(raw, block, headers, rawBody) && Key(Version) in headers
    ensures Passes(mailer, raw, headers, rawBody)
  {
    hide Key, ParseHeaders, Carries, Mailer.AuthenticV2, Keys, FindBlank, BlankAt;
    block, rawBody := ApartAt(raw);
    headers := ParseHeaders(block, Keys(REQUIRED), Keys(MIME)).value;
    assert Version in REQUIRED;
    if headers[Key(Version)] == ["2"] {
      AuthenticIffCarried(mailer, headers, rawBody);
    }
  }

  /** What is taken apart and passes is recognised. */
  lemma PassingIsRecognised(mailer: Mailer, raw: string, block: string, headers: Headers, rawBody: string)
    requires mailer.Lawful() && TakenApart(raw, block, headers, rawBody)
    requires Key(Version) in headers && Passes(mailer, raw, headers, rawBody)
    ensures mailer.IsAuthentic(raw)
  {
    hide Key, ParseHeaders, Carries, Mailer.AuthenticV2, Keys, FindBlank;
    var prefix := if |raw| > MAX_HEADER_PREFIX_BYTES then raw[..MAX_HEADER_PREFIX_BYTES] else raw;
    assert raw[|block|..|block| + 4] == "\r\n\r\n" && raw[..|block|] == block && raw[|block| + 4..] == rawBody;
    BlankIsFirst(prefix);
    BlankInPrefix(raw, prefix);
    assert BlankAt(prefix, |block|);
    if headers[Key(Version)] == ["2"] {
      AuthenticIffCarried(mailer, headers, rawBody);
    }
  }

  /** A text is recognised exactly when it can be taken apart into one of the two versions that passes its checks. */
  lemma RecognisedIff(mailer: Mailer, raw: string)
    requires mailer.Lawful()
    ensures mailer.IsAuthentic(raw) <==>
              exists block, headers, rawBody ::
                TakenApart(raw, block, headers, rawBody) && Key(Version) in headers
                  && Passes(mailer, raw, headers, rawBody)
  {
    hide Key, Carries, TakenApart, Passes, Mailer.IsAuthentic;
    if mailer.IsAuthentic(raw) {
      var block, headers, rawBody := RecognisedPasses(mailer, raw);
      VersionIsRead(raw, block, headers, rawBody);
    }
    if block, headers, rawBody :|
       TakenApart(raw, block, headers, rawBody) && Key(Version) in headers && Passes(mailer, raw, headers, rawBody) {
      PassingIsRecognised(mailer, raw, block, headers, rawBody);
    }
  }

  /** With a MAC that tells texts apart, two mails that pass with the same MAC say the same. */
  lemma OneMacOneMail(mailer: Mailer, first: (Headers, string, Mail, string), second: (Headers, string, Mail, string))
    requires forall s, t {:trigger mailer.mac(mailer.key, s), mailer.mac(mailer.key, t)} ::
               mailer.mac(mailer.key, s) == mailer.mac(mailer.key, t) ==> s == t
    requires Carries(mailer, first.0, first.1, first.2, first.3)
    requires Carries(mailer, second.0, second.1, second.2, second.3)
    requires first.0[Key(Auth)] == second.0[Key(Auth)]
    ensures first.2 == second.2
    ensures (forall s, t {:trigger mailer.hash(s), mailer.hash(t)} :: mailer.hash(s) == mailer.hash(t) ==> s == t) ==>
              first.3 == second.3 && first.1 == second.1
  {
    hide Key, ValidBody, CanonicalBase64, Frame, MacFields;
    var a, b := first.2, second.2;
    assert Value(a, mailer.Mac(a), Auth) == Value(b, mailer.Mac(b), Auth);
    var x, y := mailer.Mac(a), mailer.Mac(b);
    assert x == ("hmac-sha256=" + x)[12..] && y == ("hmac-sha256=" + y)[12..] by {
      ConstantsPrintable();
    }
    MacCoversMail(a, b);
  }

  /** Valid inputs are built, unless a line or the whole mail is too long. */
  lemma BuiltUnlessTooLong(mailer: Mailer, kind: string, recipients: seq<string>, date: string, event: string,
      body: string, test: bool)
    requires IsBytes(body) && mailer.canonical(recipients).Some? && kind in {"error", "recovery"} && IsHex(event, 32)
    requires mailer.ValidDate(date) && ValidBody(body)
    ensures var to := Join(mailer.canonical(recipients).value, ',');
            var subject := EncodeSubject(SubjectText(kind, test).value);
            var m := Mail(kind, event, to, subject, date, mailer.hash(body));
            var block := JoinCrlf(Lines(Fields(m, mailer.Mac(m))));
            && (forall i :: 0 <= i < 11 ==> |Lines(Fields(m, mailer.Mac(m)))[i]| <= MAX_HEADER_LINE_BYTES)
            && |block| + 4 + |CanonicalBase64(body)| <= MAX_MESSAGE_BYTES ==>
              mailer.Build(kind, recipients, date, event, body,
                test) == Some(block + "\r\n\r\n" + CanonicalBase64(body))
  {
    hide EncodeSubject, CanonicalBase64, ValidBody, Mailer.ValidDate, IsHex, JoinCrlf, Frame, MacFields, SubjectText;
  }
}
