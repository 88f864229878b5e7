/**
 Base64 of section 4 of RFC 4648, as `base64_encode` writes it and as `base64_decode` followed by
 the re-encoding comparison accepts it: only canonical text decodes.
 */
module Base64 {
  import opened Text

  /** A six-bit value, or PAD for the padding character. */
  type Sextet = v: nat | v <= 64

  const PAD: Sextet := 64

  // ---------------------------------------------------------------- bytes and six-bit values

  function High(x: nat): Sextet requires x < 256 { x / 4 }

  function MidHigh(x: nat, y: nat): Sextet requires x < 256 && y < 256 { x % 4 * 16 + y / 16 }

  function MidLow(y: nat, z: nat): Sextet requires y < 256 && z < 256 { y % 16 * 4 + z / 64 }

  function Low(z: nat): Sextet requires z < 256 { z % 64 }

  function Sextets(s: string): seq<Sextet>
    requires IsBytes(s)
  {
    if |s| == 0 then []
    else
      var x := s[0] as int;
      if |s| == 1 then [High(x), MidHigh(x, 0), PAD, PAD]
      else
        var y := s[1] as int;
        if |s| == 2 then [High(x), MidHigh(x, y), MidLow(y, 0), PAD]
        else
          var z := s[2] as int;
          [High(x), MidHigh(x, y), MidLow(y, z), Low(z)] + Sextets(s[3..])
  }

  function First(a: nat, b: nat): char requires a < 64 && b < 64 { (a * 4 + b / 16) as char }

  function Second(b: nat, c: nat): char requires b < 64 && c < 64 { (b % 16 * 16 + c / 4) as char }

  function Third(c: nat, d: nat): char requires c < 64 && d < 64 { (c % 4 * 64 + d) as char }

  function Bytes(v: seq<Sextet>): (s: Option<string>)
    ensures s.Some? ==> IsBytes(s.value)
  {
    if |v| == 0 then Some("")
    else if |v| < 4 || v[0] == PAD || v[1] == PAD then None
    else if |v| == 4 && v[2] == PAD && v[3] == PAD then Some([First(v[0], v[1])])
    else if v[2] == PAD then None
    else if |v| == 4 && v[3] == PAD then Some([First(v[0], v[1]), Second(v[1], v[2])])
    else if v[3] == PAD then None
    else
      var rest := Bytes(v[4..]);
      if rest.None? then None
      else Some([First(v[0], v[1]), Second(v[1], v[2]), Third(v[2], v[3])] + rest.value)
  }

  /** The shares of three bytes give the bytes back. */
  lemma Shares(x: nat, y: nat, z: nat)
    requires x < 256 && y < 256 && z < 256
    ensures High(x) < 64 && MidHigh(x, y) < 64 && MidLow(y, z) < 64
    ensures First(High(x), MidHigh(x, y)) as int == x
    ensures Second(MidHigh(x, y), MidLow(y, z)) as int == y
    ensures Third(MidLow(y, z), Low(z)) as int == z
  {
    var b, c := MidHigh(x, y), MidLow(y, z);
    assert b / 16 == x % 4 && b % 16 == y / 16;
    assert c / 4 == y % 16 && c % 4 == z / 64;
  }

  lemma {:induction false} BytesOfSextets(s: string)
    requires IsBytes(s)
    ensures Bytes(Sextets(s)) == Some(s)
  {
    if |s| == 1 {
      Shares(s[0] as int, 0, 0);
      assert s == [s[0]];
    } else if |s| == 2 {
      Shares(s[0] as int, s[1] as int, 0);
      assert s == [s[0], s[1]];
    } else if |s| >= 3 {
      Shares(s[0] as int, s[1] as int, s[2] as int);
      BytesOfSextets(s[3..]);
      assert Sextets(s)[4..] == Sextets(s[3..]);
      assert s == [s[0], s[1], s[2]] + s[3..];
    }
  }

  // ---------------------------------------------------------------- the alphabet

  function Digit(v: Sextet): (c: char)
    ensures Value(c) == Some(v)
  {
    if v < 26 then ('A' as int + v) as char
    else if v < 52 then ('a' as int + (v - 26)) as char
    else if v < 62 then ('0' as int + (v - 52)) as char
    else if v == 62 then '+'
    else if v == 63 then '/'
    else '='
  }

  function Value(c: char): (v: Option<Sextet>) {
    if 'A' <= c <= 'Z' then Some(c as int - 'A' as int)
    else if 'a' <= c <= 'z' then Some(c as int - 'a' as int + 26)
    else if '0' <= c <= '9' then Some(c as int - '0' as int + 52)
    else if c == '+' then Some(62)
    else if c == '/' then Some(63)
    else if c == '=' then Some(PAD)
    else None
  }

  function Digits(v: seq<Sextet>): (text: string)
    ensures forall i :: 0 <= i < |text| ==> Value(text[i]).Some?
  {
    if |v| == 0 then "" else [Digit(v[0])] + Digits(v[1..])
  }

  function Values(text: string): Option<seq<Sextet>> {
    if text == "" then Some([])
    else
      var rest := Values(text[1..]);
      if Value(text[0]).None? || rest.None? then None else Some([Value(text[0]).value] + rest.value)
  }

  lemma {:induction false} ValuesOfDigits(v: seq<Sextet>)
    ensures Values(Digits(v)) == Some(v)
  {
    if |v| > 0 {
      ValuesOfDigits(v[1..]);
      assert Digits(v)[1..] == Digits(v[1..]);
      assert v == [v[0]] + v[1..];
    }
  }

  // ---------------------------------------------------------------- the codec

  function Encode(s: string): string
    requires IsBytes(s)
  {
    Digits(Sextets(s))
  }

  /** A strict decoder: the text must be the canonical encoding of the result. */
  function Decode(text: string): (s: Option<string>)
    ensures s.Some? ==> IsBytes(s.value) && Encode(s.value) == text
  {
    var v := Values(text);
    var s := if v.Some? then Bytes(v.value) else None;
    if s.Some? && Encode(s.value) == text then s else None
  }

  /** Decoding returns exactly the encoded bytes, so encoding is injective. */
  lemma DecodeOfEncode(s: string)
    requires IsBytes(s)
    ensures Decode(Encode(s)) == Some(s)
  {
    ValuesOfDigits(Sextets(s));
    BytesOfSextets(s);
  }
}
