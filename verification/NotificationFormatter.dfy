/**
 Cleaning text for a notification: what is not UTF-8 is replaced, control characters are dropped, and the
 title is cut between code points.
 */
module NotificationFormatter {
  import opened Text
  import opened Utf8

  /** C0 apart from tab, line feed and carriage return; DEL; C1. */
  predicate IsControl(c: CodePoint) {
    (c < 0x20 && c != 0x09 && c != 0x0A && c != 0x0D) || 0x7F <= c <= 0x9F
  }

  /** The points of a sequence that satisfy a predicate, in order. */
  function Keep(points: seq<CodePoint>, p: CodePoint -> bool): (kept: seq<CodePoint>)
    ensures AllScalar(points) ==> AllScalar(kept)
    ensures forall i :: 0 <= i < |kept| ==> p(kept[i])
    ensures (forall i :: 0 <= i < |points| ==> p(points[i])) ==> kept == points
  {
    if points == [] then [] else (if p(points[0]) then [points[0]] else []) + Keep(points[1..], p)
  }

  function NotControl(c: CodePoint): bool { !IsControl(c) }

  /** What is left of a text: its code points, read strictly, without the controls. */
  function Cleaned(value: string): (points: seq<CodePoint>)
    ensures AllScalar(points) && forall i :: 0 <= i < |points| ==> !IsControl(points[i])
  {
    Keep(Points(value), NotControl)
  }

  /** Cleaning again changes nothing, and clean text is left alone. */
  lemma CleanedIsClean(points: seq<CodePoint>)
    requires AllScalar(points) && forall i :: 0 <= i < |points| ==> !IsControl(points[i])
    ensures Cleaned(EncodeAll(points)) == points
  {
    PointsOfWellFormed(points);
  }

  lemma KeepFirst(first: CodePoint, rest: seq<CodePoint>, p: CodePoint -> bool)
    requires IsScalar(first) && AllScalar(rest)
    ensures EncodeAll(Keep([first] + rest, p)) == (if p(first) then Encode(first) else "") + EncodeAll(Keep(rest, p))
  {
    assert ([first] + rest)[1..] == rest;
    var kept := Keep(rest, p);
    assert ([first] + kept)[1..] == kept;
    assert [] + kept == kept;
  }

  /** What one turn of the loop takes and appends. */
  lemma OneTurn(value: string, offset: nat)
    requires offset < |value| && IsBytes(value)
    ensures var s := value[offset..]; var (c, n) := Read(s);
            && offset + n <= |value|
            && EncodeAll(Cleaned(s)) ==
               (if IsControl(c) then "" else Encode(c)) + EncodeAll(Cleaned(value[offset + n..]))
            && (Starts(s) ==> Encode(c) == value[offset..offset + n])
  {
    var s := value[offset..];
    var (c, n) := Read(s);
    assert s[n..] == value[offset + n..] && s[..n] == value[offset..offset + n];
    KeepFirst(c, Points(s[n..]), NotControl);
    if Starts(s) {
      EncodeOfRead(s);
    }
  }

  /** The bytes of the replacement character. */
  lemma ReplacementBytes()
    ensures Encode(REPLACEMENT) == [Byte(0xEF), Byte(0xBF), Byte(0xBD)]
  {
  }

  /** Which sequences of two bytes are controls. */
  lemma ControlBytes(s: string)
    requires s != "" && IsBytes(s) && s[0] as int >= 0x80 && Starts(s)
    ensures IsControl(Read(s).0) <==> s[0] as int == 0xC2 && s[1] as int <= 0x9F
    ensures s[0] as int == 0xC2 ==> Read(s).1 == 2
  {
  }

  /** What a turn of the loop does, byte by byte. */
  lemma TurnCases(value: string, offset: nat)
    requires offset < |value| && IsBytes(value)
    ensures var s := value[offset..]; var byte := s[0] as int; var here := EncodeAll(Cleaned(s));
            && ((byte < 0x20 && byte !in [0x09, 0x0A, 0x0D]) || byte == 0x7F ==>
              here == EncodeAll(Cleaned(value[offset + 1..])))
            && (byte < 0x80 && !((byte < 0x20 && byte !in [0x09, 0x0A, 0x0D]) || byte == 0x7F) ==>
                  here == [value[offset]] + EncodeAll(Cleaned(value[offset + 1..])))
    ensures var s := value[offset..]; var byte := s[0] as int; var here, n := EncodeAll(Cleaned(s)), SequenceLength(s);
            byte >= 0x80 ==>
              && (n == 0 ==> here == [Byte(0xEF), Byte(0xBF), Byte(0xBD)] + EncodeAll(Cleaned(value[offset + 1..])))
              && (n > 0 && byte == 0xC2 && s[1] as int <= 0x9F ==>
                n == 2 && here == EncodeAll(Cleaned(value[offset + 2..])))
              && (n > 0 && !(byte == 0xC2 && s[1] as int <= 0x9F) ==>
                    here == value[offset..offset + n] + EncodeAll(Cleaned(value[offset + n..])))
  {
    hide Cleaned, EncodeAll, SequenceLength, Read, Encode;
    var s := value[offset..];
    ReadCases(s);
    OneTurn(value, offset);
    ReplacementBytes();
    if s[0] as int >= 0x80 && Starts(s) {
      ControlBytes(s);
    }
    assert s[0] as int < 0x80 ==> value[offset..offset + 1] == [value[offset]];
  }

  /** `withoutControlCharacters` */
  method WithoutControlCharacters(value: string) returns (clean: string)
    requires IsBytes(value)
    ensures clean == EncodeAll(Cleaned(value))
  {
    hide Cleaned, EncodeAll, SequenceLength;
    clean := "";
    var offset: nat := 0;
    assert value[0..] == value;
    while offset < |value|
      invariant offset <= |value|
      invariant clean + EncodeAll(Cleaned(value[offset..])) == EncodeAll(Cleaned(value))
    {
      TurnCases(value, offset);
      var byte := value[offset] as int;
      if (byte < 0x20 && byte !in [0x09, 0x0A, 0x0D]) || byte == 0x7F {
        offset := offset + 1;
      } else if byte < 0x80 {
        clean := clean + [value[offset]];
        offset := offset + 1;
      } else {
        var sequenceLength := SequenceLength(value[offset..]);
        if sequenceLength == 0 {
          clean := clean + [Byte(0xEF), Byte(0xBF), Byte(0xBD)];
          offset := offset + 1;
        } else if byte == 0xC2 && value[offset + 1] as int <= 0x9F {
          offset := offset + 2;
        } else {
          clean := clean + value[offset..offset + sequenceLength];
          offset := offset + sequenceLength;
        }
      }
    }
    assert value[offset..] == "";
    NothingLeft();
  }

  lemma NothingLeft()
    ensures EncodeAll(Cleaned("")) == ""
  {
  }

  function FirstOf(points: seq<CodePoint>, limit: nat): (first: seq<CodePoint>)
    ensures first <= points && |first| <= limit && (|first| == limit || first == points)
    ensures AllScalar(points) ==> AllScalar(first)
  {
    if limit < |points| then points[..limit] else points
  }

  /** `firstCodePoints`: of well-formed text, the first code points. */
  method FirstCodePoints(value: string, limit: nat) returns (first: string)
    requires IsBytes(value)
    ensures first <= value
    ensures WellFormed(value) ==> first == EncodeAll(FirstOf(Points(value), limit))
  {
    hide EncodeAll, SequenceLength, Points, Read, WellFormed, Encode;
    ghost var points := Points(value);
    var offset: nat, count: nat := 0, 0;
    if WellFormed(value) {
      WellFormedIsPoints(value);
      assert value[0..] == value && points[0..] == points;
    }
    while offset < |value| && count < limit
      invariant offset <= |value| && count <= limit
      invariant WellFormed(value) ==> count <= |points| && value[offset..] == EncodeAll(points[count..])
    {
      if WellFormed(value) {
        NextPoint(value, offset, points, count);
      }
      var sequenceLength := SequenceLength(value[offset..]);
      offset := offset + (if sequenceLength == 0 then 1 else sequenceLength);
      count := count + 1;
    }
    if WellFormed(value) {
      CutAt(value, offset, points, count);
      if offset == |value| {
        NoneLeft(points[count..]);
      }
      assert points[..count] == FirstOf(points, limit);
    }
    return value[..offset];
  }

  /** One code point further on. */
  lemma NextPoint(value: string, offset: nat, points: seq<CodePoint>, count: nat)
    requires offset < |value| && count <= |points| && AllScalar(points) && value[offset..] == EncodeAll(points[count..])
    ensures var n := SequenceLength(value[offset..]); var next := offset + (if n == 0 then 1 else n);
            next <= |value| && count < |points| && value[next..] == EncodeAll(points[count + 1..])
  {
    hide Read, SequenceLength, Encode, Starts;
    var s := value[offset..];
    var c, rest := points[count], points[count + 1..];
    assert points[count..] == [c] + rest && ([c] + rest)[1..] == rest;
    ReadOfEncode(c, EncodeAll(rest));
    EncodeStarts(c, EncodeAll(rest));
    ReadCases(s);
    AsciiTakesOne(s);
    assert s[|Encode(c)|..] == EncodeAll(rest);
  }

  lemma AsciiTakesOne(s: string)
    requires s != "" && Starts(s)
    ensures Read(s).1 == if SequenceLength(s) == 0 then 1 else SequenceLength(s)
  {
    ReadCases(s);
  }

  lemma CutAt(value: string, offset: nat, points: seq<CodePoint>, count: nat)
    requires AllScalar(points) && value == EncodeAll(points) && offset <= |value| && count <= |points|
    requires value[offset..] == EncodeAll(points[count..])
    ensures value[..offset] == EncodeAll(points[..count])
  {
    hide EncodeAll;
    EncodeAllOfBoth(points[..count], points[count..]);
    assert points == points[..count] + points[count..];
    assert value == EncodeAll(points[..count]) + value[offset..];
  }

  lemma NoneLeft(points: seq<CodePoint>)
    requires AllScalar(points) && EncodeAll(points) == ""
    ensures points == []
  {
  }

  // ---------------------------------------------------------------- the title

  function UnknownSender(): (points: seq<CodePoint>) ensures AllScalar(points) && points != [] { CodePoints("（差出人不明）") }

  function NoSubject(): (points: seq<CodePoint>) ensures AllScalar(points) && points != [] { CodePoints("（件名なし）") }

  function Colon(): (points: seq<CodePoint>) ensures AllScalar(points) { CodePoints("：") }

  const TITLE_LIMIT := 100

  function NotBreak(c: CodePoint): bool { c != 0x09 && c != 0x0A && c != 0x0D }

  /** What `trim` removes from the ends. */
  predicate IsTrimmed(c: CodePoint) { c == 0x20 || c == 0x0A || c == 0x0D || c == 0x09 || c == 0x0B || c == 0x00 }

  function TrimLeft(points: seq<CodePoint>): (trimmed: seq<CodePoint>)
    ensures AllScalar(points) ==> AllScalar(trimmed)
    ensures trimmed != [] ==> !IsTrimmed(trimmed[0])
    ensures |trimmed| <= |points| && trimmed == points[|points| - |trimmed|..]
    ensures forall i :: 0 <= i < |points| - |trimmed| ==> IsTrimmed(points[i])
  {
    if points != [] && IsTrimmed(points[0]) then TrimLeft(points[1..]) else points
  }

  function TrimRight(points: seq<CodePoint>): (trimmed: seq<CodePoint>)
    ensures AllScalar(points) ==> AllScalar(trimmed)
    ensures trimmed != [] ==> !IsTrimmed(trimmed[|trimmed| - 1])
    ensures trimmed <= points
    ensures forall i :: |trimmed| <= i < |points| ==> IsTrimmed(points[i])
  {
    if points != [] && IsTrimmed(points[|points| - 1]) then TrimRight(points[..|points| - 1]) else points
  }

  /** A text as it appears in the title: clean, on one line, without space around it. */
  function TitleText(value: string): (points: seq<CodePoint>)
    ensures AllScalar(points)
    ensures points != [] ==> !IsTrimmed(points[|points| - 1])
  {
    TrimRight(TrimLeft(Keep(Cleaned(value), NotBreak)))
  }

  lemma {:induction false} TrimLeftKeeps(points: seq<CodePoint>, q: CodePoint -> bool)
    requires forall i :: 0 <= i < |points| ==> q(points[i])
    ensures forall i :: 0 <= i < |TrimLeft(points)| ==> q(TrimLeft(points)[i])
  {
    if points != [] && IsTrimmed(points[0]) {
      TrimLeftKeeps(points[1..], q);
    }
  }

  /** What may be in a title. */
  function InTitle(c: CodePoint): bool { !IsControl(c) && NotBreak(c) }

  lemma {:induction false} KeepInTitle(points: seq<CodePoint>)
    requires forall i :: 0 <= i < |points| ==> !IsControl(points[i])
    ensures forall i :: 0 <= i < |Keep(points, NotBreak)| ==> InTitle(Keep(points, NotBreak)[i])
  {
    hide IsControl;
    if points != [] {
      KeepInTitle(points[1..]);
    }
  }

  /** Nothing in a title's text is a control or breaks the line. */
  lemma TitleTextIsOneLine(value: string)
    ensures forall i :: 0 <= i < |TitleText(value)| ==> InTitle(TitleText(value)[i])
  {
    hide Cleaned, Keep, InTitle, TrimLeft, TrimRight;
    KeepInTitle(Cleaned(value));
    TrimLeftKeeps(Keep(Cleaned(value), NotBreak), InTitle);
    assert TitleText(value) <= TrimLeft(Keep(Cleaned(value), NotBreak));
  }

  function Drop(s: string, p: char -> bool): (r: string)
    ensures IsBytes(s) ==> IsBytes(r)
  {
    if s == "" then "" else (if p(s[0]) then "" else [s[0]]) + Drop(s[1..], p)
  }

  function IsBreakByte(c: char): bool { c == '\t' || c == '\n' || c == '\r' }

  lemma {:induction false} DropBoth(a: string, b: string, p: char -> bool)
    ensures Drop(a + b, p) == Drop(a, p) + Drop(b, p)
  {
    if a == "" {
      assert a + b == b;
    } else {
      assert (a + b)[1..] == a[1..] + b && (a + b)[0] == a[0];
      DropBoth(a[1..], b, p);
      var first := if p(a[0]) then "" else [a[0]];
      assert first + (Drop(a[1..], p) + Drop(b, p)) == first + Drop(a[1..], p) + Drop(b, p);
    }
  }

  /** Every byte of a code point beyond ASCII is beyond ASCII. */
  lemma BytesBeyond(c: CodePoint)
    requires IsScalar(c) && c >= 0x80
    ensures forall i :: 0 <= i < |Encode(c)| ==> Encode(c)[i] as int >= 0x80
  {
  }

  lemma {:induction false} DropNothing(s: string, p: char -> bool)
    requires forall i :: 0 <= i < |s| ==> !p(s[i])
    ensures Drop(s, p) == s
  {
    if s != "" {
      DropNothing(s[1..], p);
      assert s == [s[0]] + s[1..];
    }
  }

  lemma DropPoint(c: CodePoint)
    requires IsScalar(c)
    ensures Drop(Encode(c), IsBreakByte) == if NotBreak(c) then Encode(c) else ""
  {
    if c >= 0x80 {
      BytesBeyond(c);
      DropNothing(Encode(c), IsBreakByte);
    }
  }

  /** Dropping the line breaks from the bytes drops them from the code points. */
  lemma {:induction false} DropBreaks(points: seq<CodePoint>)
    requires AllScalar(points)
    ensures Drop(EncodeAll(points), IsBreakByte) == EncodeAll(Keep(points, NotBreak))
  {
    hide Encode, NotBreak, IsBreakByte;
    if points != [] {
      var c, rest := points[0], points[1..];
      DropBreaks(rest);
      DropBoth(Encode(c), EncodeAll(rest), IsBreakByte);
      assert points == [c] + rest;
      KeepFirst(c, rest, NotBreak);
      DropPoint(c);
    }
  }

  predicate IsTrimmedByte(c: char) { c == ' ' || c == '\n' || c == '\r' || c == '\t' || c == '\U{000B}' || c == '\0' }

  function TrimBytesLeft(s: string): string {
    if s != "" && IsTrimmedByte(s[0]) then TrimBytesLeft(s[1..]) else s
  }

  function TrimBytesRight(s: string): string {
    if s != "" && IsTrimmedByte(s[|s| - 1]) then TrimBytesRight(s[..|s| - 1]) else s
  }

  lemma EmptyWriting(points: seq<CodePoint>)
    requires AllScalar(points)
    ensures EncodeAll(points) == "" <==> points == []
  {
  }

  /** A code point is trimmed exactly when its bytes are, at either end. */
  lemma TrimmedBytes(c: CodePoint)
    requires IsScalar(c)
    ensures var s := Encode(c); IsTrimmedByte(s[0]) == IsTrimmedByte(s[|s| - 1]) == IsTrimmed(c)
    ensures IsTrimmed(c) ==> Encode(c) == [Byte(c)]
  {
    if c >= 0x80 {
      BytesBeyond(c);
    }
  }

  lemma {:induction false} TrimLeftBytes(points: seq<CodePoint>)
    requires AllScalar(points)
    ensures TrimBytesLeft(EncodeAll(points)) == EncodeAll(TrimLeft(points))
  {
    hide Encode, IsTrimmed, IsTrimmedByte;
    if points != [] {
      var s, rest := EncodeAll(points), EncodeAll(points[1..]);
      TrimmedBytes(points[0]);
      assert s[0] == Encode(points[0])[0];
      if IsTrimmed(points[0]) {
        assert s[1..] == rest;
        TrimLeftBytes(points[1..]);
      }
    }
  }

  lemma LastPoint(points: seq<CodePoint>)
    requires AllScalar(points) && points != []
    ensures EncodeAll(points) == EncodeAll(points[..|points| - 1]) + Encode(points[|points| - 1])
  {
    hide Encode;
    var last := [points[|points| - 1]];
    EncodeAllOfBoth(points[..|points| - 1], last);
    assert points == points[..|points| - 1] + last;
    assert EncodeAll(last) == Encode(last[0]) + "";
  }

  lemma {:induction false} TrimRightBytes(points: seq<CodePoint>)
    requires AllScalar(points)
    ensures TrimBytesRight(EncodeAll(points)) == EncodeAll(TrimRight(points))
    decreases |points|
  {
    hide Encode, IsTrimmed, IsTrimmedByte, EncodeAll;
    EmptyWriting(points);
    if points != [] {
      LastPoint(points);
      var s, c, rest := EncodeAll(points), points[|points| - 1], EncodeAll(points[..|points| - 1]);
      TrimmedBytes(c);
      assert s[|s| - 1] == Encode(c)[|Encode(c)| - 1];
      if IsTrimmed(c) {
        assert s[..|s| - 1] == rest;
        TrimRightBytes(points[..|points| - 1]);
      }
    }
  }

  /** `withoutTitleControls` */
  method WithoutTitleControls(value: string) returns (text: string)
    requires IsBytes(value)
    ensures text == EncodeAll(TitleText(value))
  {
    hide Cleaned, EncodeAll;
    var clean := WithoutControlCharacters(value);
    DropBreaks(Cleaned(value));
    TrimLeftBytes(Keep(Cleaned(value), NotBreak));
    TrimRightBytes(TrimLeft(Keep(Cleaned(value), NotBreak)));
    text := TrimBytesRight(TrimBytesLeft(Drop(clean, IsBreakByte)));
  }

  function Or(points: seq<CodePoint>, other: seq<CodePoint>): (r: seq<CodePoint>)
    ensures AllScalar(points) && AllScalar(other) ==> AllScalar(r)
  {
    if points == [] then other else points
  }

  /** The title before it is cut. */
  function Joined(a: seq<CodePoint>, b: seq<CodePoint>, c: seq<CodePoint>): (points: seq<CodePoint>)
    requires AllScalar(a) && AllScalar(b) && AllScalar(c)
    ensures AllScalar(points) && EncodeAll(points) == EncodeAll(a) + EncodeAll(b) + EncodeAll(c)
  {
    EncodeAllOfBoth(a, b);
    EncodeAllOfBoth(a + b, c);
    a + b + c
  }

  function WholeTitle(from: string, subject: string): (points: seq<CodePoint>)
    ensures AllScalar(points)
  {
    Joined(Or(TitleText(from), UnknownSender()), Colon(), Or(TitleText(subject), NoSubject()))
  }

  /** The bytes the title is put together from. */
  lemma TitleBytes(from: string, subject: string, sender: string, topic: string)
    requires sender == EncodeAll(TitleText(from)) && topic == EncodeAll(TitleText(subject))
    ensures var a := if sender == "" then EncodeAll(UnknownSender()) else sender;
            var b := if topic == "" then EncodeAll(NoSubject()) else topic;
            EncodeAll(WholeTitle(from, subject)) == a + EncodeAll(Colon()) + b
  {
    hide EncodeAll, TitleText, UnknownSender, NoSubject, Colon;
    EmptyWriting(TitleText(from));
    EmptyWriting(TitleText(subject));
  }

  /** `title`: at most a hundred code points of the whole title, cut between two of them. */
  method Title(from: string, subject: string) returns (title: string)
    requires IsBytes(from) && IsBytes(subject)
    ensures title == EncodeAll(FirstOf(WholeTitle(from, subject), TITLE_LIMIT))
  {
    hide EncodeAll, TitleText, Points, WholeTitle, UnknownSender, NoSubject, Colon, WellFormed;
    var sender := WithoutTitleControls(from);
    var topic := WithoutTitleControls(subject);
    TitleBytes(from, subject, sender, topic);
    WritingIsWellFormed(WholeTitle(from, subject));
    var whole :=
      (if sender == "" then EncodeAll(UnknownSender()) else sender) + EncodeAll(Colon())
      + (if topic == "" then EncodeAll(NoSubject()) else topic);
    title := FirstCodePoints(whole, TITLE_LIMIT);
  }
}
