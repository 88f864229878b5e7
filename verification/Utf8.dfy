/**
 UTF-8 of section 4 of RFC 3629: code points as bytes, and the strict reading of one sequence.
 */
module Utf8 {
  import opened Text

  type CodePoint = nat

  predicate IsScalar(c: CodePoint) { c < 0xD800 || 0xE000 <= c < 0x110000 }

  predicate AllScalar(points: seq<CodePoint>) {
    forall i :: 0 <= i < |points| ==> IsScalar(points[i])
  }

  /** The code points of a text given as characters. */
  function CodePoints(s: string): (points: seq<CodePoint>)
    ensures AllScalar(points) && |points| == |s|
  {
    seq(|s|, i requires 0 <= i < |s| => s[i] as int)
  }

  function Byte(n: nat): char requires n < 256 { n as char }

  /** The six bits of a code point that start at a multiple of six. */
  function Tail(n: nat): char { Byte(0x80 + n % 64) }

  function Encode(c: CodePoint): (s: string)
    requires IsScalar(c)
    ensures 1 <= |s| <= 4 && IsBytes(s)
  {
    if c < 0x80 then [Byte(c)]
    else if c < 0x800 then [Byte(0xC0 + c / 64), Tail(c)]
    else if c < 0x10000 then [Byte(0xE0 + c / 4096), Tail(c / 64), Tail(c)]
    else [Byte(0xF0 + c / 262144), Tail(c / 4096), Tail(c / 64), Tail(c)]
  }

  function EncodeAll(points: seq<CodePoint>): (s: string)
    requires AllScalar(points)
    ensures IsBytes(s)
  {
    if points == [] then "" else Encode(points[0]) + EncodeAll(points[1..])
  }

  ghost predicate WellFormed(s: string) {
    exists points :: AllScalar(points) && s == EncodeAll(points)
  }

  predicate IsTail(s: string, i: nat) {
    i < |s| && 0x80 <= s[i] as int < 0xC0
  }

  /** `utf8SequenceLength` at the start of a text: 0 when no sequence of two to four bytes starts it. */
  function SequenceLength(s: string): (n: nat)
    requires s != ""
    ensures n <= |s| && n <= 4 && n != 1
  {
    var first := s[0] as int;
    if 0xC2 <= first <= 0xDF && IsTail(s, 1) then 2
    else if IsTail(s, 2) &&
      ((first == 0xE0 && 0xA0 <= s[1] as int <= 0xBF) || (0xE1 <= first <= 0xEC && IsTail(s, 1)) ||
       (first == 0xED && 0x80 <= s[1] as int <= 0x9F) || (0xEE <= first <= 0xEF && IsTail(s, 1))) then 3
    else if IsTail(s, 2) && IsTail(s, 3) &&
      ((first == 0xF0 && 0x90 <= s[1] as int <= 0xBF) || (0xF1 <= first <= 0xF3 && IsTail(s, 1)) ||
       (first == 0xF4 && 0x80 <= s[1] as int <= 0x8F)) then 4
    else 0
  }

  const REPLACEMENT: CodePoint := 0xFFFD

  function Six(c: char): (n: nat)
    ensures n < 64
  {
    var n := c as nat;
    n % 64
  }

  /** One code point and the bytes it takes; a byte that starts no sequence stands for the replacement character. */
  function Read(s: string): (r: (CodePoint, nat))
    requires s != ""
    ensures 1 <= r.1 <= |s| && IsScalar(r.0)
  {
    var n := SequenceLength(s);
    if (s[0] as int) < 0x80 then (s[0] as int, 1)
    else if n == 2 then (s[0] as int % 32 * 64 + Six(s[1]), 2)
    else if n == 3 then (s[0] as int % 16 * 4096 + Six(s[1]) * 64 + Six(s[2]), 3)
    else if n == 4 then (s[0] as int % 8 * 262144 + Six(s[1]) * 4096 + Six(s[2]) * 64 + Six(s[3]), 4)
    else (REPLACEMENT, 1)
  }

  /** A text read as code points. */
  function Points(s: string): (points: seq<CodePoint>)
    ensures AllScalar(points)
  {
    if s == "" then [] else [Read(s).0] + Points(s[Read(s).1..])
  }

  lemma Split2(c: nat)
    requires 0x80 <= c < 0x800
    ensures 2 <= c / 64 < 32 && c == c / 64 * 64 + c % 64
  {
  }

  lemma Split3(c: nat)
    requires 0x800 <= c < 0x10000
    ensures c / 4096 < 16 && (0xE0 + c / 4096) % 16 == c / 4096
    ensures c == c / 4096 * 4096 + c / 64 % 64 * 64 + c % 64
    ensures c / 4096 == 0 ==> c / 64 % 64 >= 32
    ensures c / 4096 == 13 && IsScalar(c) ==> c / 64 % 64 < 32
  {
    assert c / 64 == c / 4096 * 64 + c / 64 % 64;
  }

  lemma Split4(c: nat)
    requires 0x10000 <= c < 0x110000
    ensures c / 262144 <= 4 && c == c / 262144 * 262144 + c / 4096 % 64 * 4096 + c / 64 % 64 * 64 + c % 64
    ensures c / 262144 == 0 ==> c / 4096 % 64 >= 16
    ensures c / 262144 == 4 ==> c / 4096 % 64 < 16
  {
    assert c / 64 == c / 4096 * 64 + c / 64 % 64;
    assert c / 4096 == c / 262144 * 64 + c / 4096 % 64;
  }

  lemma TailIs(n: nat)
    ensures Tail(n) as int == 0x80 + n % 64 && Six(Tail(n)) == n % 64
  {
  }

  lemma ReadOfEncode2(c: CodePoint, rest: string)
    requires 0x80 <= c < 0x800
    ensures Read(Encode(c) + rest) == (c, 2)
  {
    hide Tail, Six;
    var s := Encode(c) + rest;
    TailIs(c);
    Split2(c);
    assert s[0] as int == 0xC0 + c / 64 && s[1] == Tail(c);
  }

  lemma ReadOfEncode3(c: CodePoint, rest: string)
    requires 0x800 <= c < 0x10000 && IsScalar(c)
    ensures Read(Encode(c) + rest) == (c, 3)
  {
    hide Tail, Six;
    var s := Encode(c) + rest;
    TailIs(c);
    TailIs(c / 64);
    Split3(c);
    assert s[0] as int == 0xE0 + c / 4096 && s[1] == Tail(c / 64) && s[2] == Tail(c);
    assert SequenceLength(s) == 3;
  }

  lemma ReadOfEncode4(c: CodePoint, rest: string)
    requires 0x10000 <= c < 0x110000
    ensures Read(Encode(c) + rest) == (c, 4)
  {
    hide Tail, Six;
    var s := Encode(c) + rest;
    TailIs(c);
    TailIs(c / 64);
    TailIs(c / 4096);
    Split4(c);
    assert s[0] as int == 0xF0 + c / 262144 && s[1] == Tail(c / 4096) && s[2] == Tail(c / 64) && s[3] == Tail(c);
    assert SequenceLength(s) == 4;
  }

  /** What is written for a code point is read back as it. */
  lemma ReadOfEncode(c: CodePoint, rest: string)
    requires IsScalar(c)
    ensures Read(Encode(c) + rest) == (c, |Encode(c)|)
  {
    hide SequenceLength, Tail, Six;
    if c < 0x80 {
      assert (Encode(c) + rest)[0] == Byte(c);
    } else if c < 0x800 {
      ReadOfEncode2(c, rest);
    } else if c < 0x10000 {
      ReadOfEncode3(c, rest);
    } else {
      ReadOfEncode4(c, rest);
    }
  }

  /** Whether a sequence, or an ASCII byte, starts the text. */
  predicate Starts(s: string)
    requires s != ""
  {
    s[0] as int < 0x80 || SequenceLength(s) > 0
  }

  /** Putting the bits of a sequence together, and taking them apart again. */
  lemma Join2(a: nat, b: nat)
    requires a < 32 && b < 64
    ensures (a * 64 + b) / 64 == a && (a * 64 + b) % 64 == b
  {
  }

  lemma Join3(a: nat, b: nat, c: nat)
    requires a < 16 && b < 64 && c < 64
    ensures var n := a * 4096 + b * 64 + c; n / 4096 == a && n / 64 % 64 == b && n % 64 == c
  {
    var n := a * 4096 + b * 64 + c;
    assert n / 64 == a * 64 + b;
  }

  lemma Join4(a: nat, b: nat, c: nat, d: nat)
    requires a < 8 && b < 64 && c < 64 && d < 64
    ensures var n := a * 262144 + b * 4096 + c * 64 + d;
            n / 262144 == a && n / 4096 % 64 == b && n / 64 % 64 == c && n % 64 == d
  {
    var n := a * 262144 + b * 4096 + c * 64 + d;
    assert n / 64 == a * 4096 + b * 64 + c;
    assert n / 4096 == a * 64 + b;
  }

  /** A byte that continues a sequence is given by its six bits. */
  lemma TailOfSix(c: char, n: nat)
    requires 0x80 <= c as int < 0xC0 && n % 64 == Six(c)
    ensures Tail(n) == c
  {
    assert (c as int - 0x80) % 64 == c as int - 0x80;
  }

  lemma EncodeOfRead2(s: string)
    requires s != "" && IsBytes(s) && SequenceLength(s) == 2
    ensures Encode(Read(s).0) == s[..2]
  {
    hide Tail, Six;
    var c, a := Read(s).0, s[0] as int - 0xC0;
    assert s[0] as int % 32 == a;
    Join2(a, Six(s[1]));
    TailOfSix(s[1], c);
    assert s[..2] == [s[0], s[1]];
  }

  lemma EncodeOfRead3(s: string)
    requires s != "" && IsBytes(s) && SequenceLength(s) == 3
    ensures Encode(Read(s).0) == s[..3]
  {
    hide Tail, Six;
    var c, a := Read(s).0, s[0] as int - 0xE0;
    assert s[0] as int % 16 == a;
    SixIs(s[1]);
    Join3(a, Six(s[1]), Six(s[2]));
    TailOfSix(s[1], c / 64);
    TailOfSix(s[2], c);
    assert s[..3] == [s[0], s[1], s[2]];
  }

  lemma EncodeOfRead4(s: string)
    requires s != "" && IsBytes(s) && SequenceLength(s) == 4
    ensures Encode(Read(s).0) == s[..4]
  {
    hide Tail, Six;
    var c, a := Read(s).0, s[0] as int - 0xF0;
    assert s[0] as int % 8 == a;
    SixIs(s[1]);
    Join4(a, Six(s[1]), Six(s[2]), Six(s[3]));
    TailOfSix(s[1], c / 4096);
    TailOfSix(s[2], c / 64);
    TailOfSix(s[3], c);
    assert s[..4] == [s[0], s[1], s[2], s[3]];
  }

  lemma SixIs(c: char)
    requires 0x80 <= c as int < 0xC0
    ensures Six(c) == c as int - 0x80
  {
    assert c as int == 2 * 64 + (c as int - 0x80);
  }

  /** A sequence that is read is the writing of the code point it stands for. */
  lemma EncodeOfRead(s: string)
    requires s != "" && IsBytes(s) && Starts(s)
    ensures Encode(Read(s).0) == s[..Read(s).1]
  {
    var n := SequenceLength(s);
    if s[0] as int < 0x80 {
      assert s[..1] == [s[0]];
    } else if n == 2 {
      EncodeOfRead2(s);
    } else if n == 3 {
      EncodeOfRead3(s);
    } else {
      EncodeOfRead4(s);
    }
  }

  lemma {:induction false} EncodeAllOfBoth(a: seq<CodePoint>, b: seq<CodePoint>)
    requires AllScalar(a) && AllScalar(b)
    ensures EncodeAll(a + b) == EncodeAll(a) + EncodeAll(b)
  {
    if a == [] {
      assert a + b == b;
    } else {
      assert (a + b)[1..] == a[1..] + b;
      EncodeAllOfBoth(a[1..], b);
    }
  }

  /** Well-formed text is read as the code points it was written from. */
  lemma {:induction false} PointsOfEncodeAll(points: seq<CodePoint>, rest: string)
    requires AllScalar(points)
    ensures Points(EncodeAll(points) + rest) == points + Points(rest)
  {
    if points == [] {
      assert EncodeAll(points) + rest == rest;
    } else {
      var after := EncodeAll(points[1..]) + rest;
      assert EncodeAll(points) + rest == Encode(points[0]) + after;
      ReadOfEncode(points[0], after);
      assert (Encode(points[0]) + after)[|Encode(points[0])|..] == after;
      PointsOfEncodeAll(points[1..], rest);
    }
  }

  lemma PointsOfWellFormed(points: seq<CodePoint>)
    requires AllScalar(points)
    ensures Points(EncodeAll(points)) == points
  {
    PointsOfEncodeAll(points, "");
    assert EncodeAll(points) + "" == EncodeAll(points);
  }

  /** A text is well formed exactly when a sequence starts wherever one is read. */
  lemma {:induction false} WellFormedIffStarts(s: string)
    requires s != "" && IsBytes(s)
    ensures WellFormed(s) <==> Starts(s) && WellFormed(s[Read(s).1..])
  {
    hide Encode, Read, SequenceLength, Starts;
    if WellFormed(s) {
      var points :| AllScalar(points) && s == EncodeAll(points);
      ReadOfEncode(points[0], EncodeAll(points[1..]));
      assert s[Read(s).1..] == EncodeAll(points[1..]);
      EncodeStarts(points[0], EncodeAll(points[1..]));
    }
    if Starts(s) && WellFormed(s[Read(s).1..]) {
      var points :| AllScalar(points) && s[Read(s).1..] == EncodeAll(points);
      EncodeOfRead(s);
      var all := [Read(s).0] + points;
      assert all[1..] == points;
      assert s == s[..Read(s).1] + s[Read(s).1..];
      assert s == EncodeAll(all);
    }
  }

  lemma EncodeStarts(c: CodePoint, rest: string)
    requires IsScalar(c)
    ensures Starts(Encode(c) + rest)
  {
    ReadOfEncode(c, rest);
  }

  lemma WritingIsWellFormed(points: seq<CodePoint>)
    requires AllScalar(points)
    ensures WellFormed(EncodeAll(points)) && Points(EncodeAll(points)) == points
  {
    PointsOfWellFormed(points);
  }

  /** Well-formed text is the writing of the code points it is read as. */
  lemma WellFormedIsPoints(s: string)
    requires WellFormed(s)
    ensures s == EncodeAll(Points(s))
  {
    var points :| AllScalar(points) && s == EncodeAll(points);
    PointsOfWellFormed(points);
  }

  /** The three ways a text may start. */
  lemma ReadCases(s: string)
    requires s != ""
    ensures s[0] as int < 0x80 ==> Read(s) == (s[0] as int, 1) && Starts(s) && SequenceLength(s) == 0
    ensures s[0] as int >= 0x80 && SequenceLength(s) == 0 ==> Read(s) == (REPLACEMENT, 1)
    ensures s[0] as int >= 0x80 && SequenceLength(s) > 0 ==> Read(s).1 == SequenceLength(s) && Starts(s)
  {
  }
}
