/** The URL-safe base64 alphabet without padding (section 5 of RFC 4648), as
    encoding/base64.RawURLEncoding writes and reads it. */
module Base64 {
  import opened Documents

  type Byte = x: int | 0 <= x < 256
  type Sextet = x: int | 0 <= x < 64

  function EncodeSextet(x: Sextet): char {
    if x < 26 then ('A' as int + x) as char
    else if x < 52 then ('a' as int + (x - 26)) as char
    else if x < 62 then ('0' as int + (x - 52)) as char
    else if x == 62 then '-' else '_'
  }

  function DecodeSextet(ch: char): Option<Sextet> {
    if 'A' <= ch <= 'Z' then Some(ch as int - 'A' as int)
    else if 'a' <= ch <= 'z' then Some(ch as int - 'a' as int + 26)
    else if '0' <= ch <= '9' then Some(ch as int - '0' as int + 52)
    else if ch == '-' then Some(62)
    else if ch == '_' then Some(63)
    else None
  }

  function Encode(bytes: seq<Byte>): string {
    if |bytes| == 0 then ""
    else if |bytes| == 1 then
      [EncodeSextet(bytes[0] / 4), EncodeSextet(bytes[0] % 4 * 16)]
    else if |bytes| == 2 then
      [EncodeSextet(bytes[0] / 4), EncodeSextet(bytes[0] % 4 * 16 + bytes[1] / 16), EncodeSextet(bytes[1] % 16 * 4)]
    else
      [EncodeSextet(bytes[0] / 4), EncodeSextet(bytes[0] % 4 * 16 + bytes[1] / 16),
       EncodeSextet(bytes[1] % 16 * 4 + bytes[2] / 64), EncodeSextet(bytes[2] % 64)] + Encode(bytes[3..])
  }

  /** Line breaks are skipped wherever they stand. */
  function SkipLineBreaks(s: string): string {
    if |s| == 0 then ""
    else (if s[0] == '\r' || s[0] == '\n' then "" else [s[0]]) + SkipLineBreaks(s[1..])
  }

  function DecodeAll(s: string): Option<seq<Sextet>> {
    if |s| == 0 then Some([])
    else
      match (DecodeSextet(s[0]), DecodeAll(s[1..]))
      case (Some(x), Some(rest)) => Some([x] + rest)
      case _ => None
  }

  function FirstByte(a: Sextet, b: Sextet): Byte { a as int * 4 + b as int / 16 }
  function SecondByte(b: Sextet, c: Sextet): Byte { b as int % 16 * 16 + c as int / 4 }
  function ThirdByte(c: Sextet, d: Sextet): Byte { c as int % 4 * 64 + d as int }

  /** Four sextets make three bytes; the bits left over at the end are dropped, whatever they are. */
  function Regroup(xs: seq<Sextet>): Option<seq<Byte>> {
    if |xs| == 0 then Some([])
    else if |xs| == 1 then None
    else if |xs| == 2 then Some([FirstByte(xs[0], xs[1])])
    else if |xs| == 3 then Some([FirstByte(xs[0], xs[1]), SecondByte(xs[1], xs[2])])
    else
      match Regroup(xs[4..])
      case Some(rest) => Some([FirstByte(xs[0], xs[1]), SecondByte(xs[1], xs[2]), ThirdByte(xs[2], xs[3])] + rest)
      case None => None
  }

  function Decode(s: string): Option<seq<Byte>> {
    match DecodeAll(SkipLineBreaks(s))
    case Some(xs) => Regroup(xs)
    case None => None
  }

  /** The sextets behind an encoding. */
  function Sextets(bytes: seq<Byte>): seq<Sextet> {
    if |bytes| == 0 then []
    else if |bytes| == 1 then [bytes[0] / 4, bytes[0] % 4 * 16]
    else if |bytes| == 2 then [bytes[0] / 4, bytes[0] % 4 * 16 + bytes[1] / 16, bytes[1] % 16 * 4]
    else [bytes[0] / 4, bytes[0] % 4 * 16 + bytes[1] / 16, bytes[1] % 16 * 4 + bytes[2] / 64, bytes[2] % 64] + Sextets(bytes[3..])
  }

  function Letters(xs: seq<Sextet>): string {
    seq(|xs|, i requires 0 <= i < |xs| => EncodeSextet(xs[i]))
  }

  lemma {:induction false} EncodeIsLetters(bytes: seq<Byte>)
    ensures Encode(bytes) == Letters(Sextets(bytes))
  {
    if |bytes| >= 3 { EncodeIsLetters(bytes[3..]); }
  }

  lemma {:induction false} LettersDecode(xs: seq<Sextet>)
    ensures DecodeAll(Letters(xs)) == Some(xs)
  {
    if |xs| > 0 {
      LettersDecode(xs[1..]);
      assert Letters(xs)[1..] == Letters(xs[1..]);
      assert xs == [xs[0]] + xs[1..];
    }
  }

  lemma {:induction false} NoLineBreaks(s: string)
    requires forall i | 0 <= i < |s| :: s[i] != '\r' && s[i] != '\n'
    ensures SkipLineBreaks(s) == s
  {
    if |s| > 0 { NoLineBreaks(s[1..]); }
  }

  /** The bits of three bytes, cut in six and put together again. */
  lemma GroupOfThree(a: Byte, b: Byte, c: Byte)
    ensures FirstByte(a / 4, a % 4 * 16 + b / 16) == a && FirstByte(a / 4, a % 4 * 16) == a
    ensures SecondByte(a % 4 * 16 + b / 16, b % 16 * 4 + c / 64) == b && SecondByte(a % 4 * 16 + b / 16, b % 16 * 4) == b
    ensures ThirdByte(b % 16 * 4 + c / 64, c % 64) == c
  {
  }

  lemma RegroupSingle(a: Byte)
    ensures Regroup([a / 4, a % 4 * 16]) == Some([a])
  {
  }

  lemma RegroupPair(a: Byte, b: Byte)
    ensures Regroup([a / 4, a % 4 * 16 + b / 16, b % 16 * 4]) == Some([a, b])
  {
    var xs: seq<Sextet> := [a / 4, a % 4 * 16 + b / 16, b % 16 * 4];
    GroupOfThree(a, b, 0);
    assert Regroup(xs) == Some([FirstByte(xs[0], xs[1]), SecondByte(xs[1], xs[2])]);
  }

  lemma RegroupFour(w: Sextet, x: Sextet, y: Sextet, z: Sextet, xs: seq<Sextet>, rest: seq<Byte>)
    requires Regroup(xs) == Some(rest)
    ensures Regroup([w, x, y, z] + xs) == Some([FirstByte(w, x), SecondByte(x, y), ThirdByte(y, z)] + rest)
  {
    assert ([w, x, y, z] + xs)[4..] == xs;
  }

  lemma RegroupStep(a: Byte, b: Byte, c: Byte, xs: seq<Sextet>, rest: seq<Byte>)
    requires Regroup(xs) == Some(rest)
    ensures Regroup([a / 4, a % 4 * 16 + b / 16, b % 16 * 4 + c / 64, c % 64] + xs) == Some([a, b, c] + rest)
  {
    GroupOfThree(a, b, c);
    RegroupFour(a / 4, a % 4 * 16 + b / 16, b % 16 * 4 + c / 64, c % 64, xs, rest);
  }

  lemma {:induction false} RegroupSextets(bytes: seq<Byte>)
    ensures Regroup(Sextets(bytes)) == Some(bytes)
  {
    if |bytes| == 1 {
      RegroupSingle(bytes[0]);
      assert bytes == [bytes[0]];
    } else if |bytes| == 2 {
      RegroupPair(bytes[0], bytes[1]);
      assert bytes == [bytes[0], bytes[1]];
    } else if |bytes| >= 3 {
      var a, b, c, rest := bytes[0], bytes[1], bytes[2], bytes[3..];
      RegroupSextets(rest);
      RegroupStep(a, b, c, Sextets(rest), rest);
      SextetsStep(a, b, c, rest);
      assert bytes == [a, b, c] + rest;
    }
  }

  lemma SextetsStep(a: Byte, b: Byte, c: Byte, rest: seq<Byte>)
    ensures Sextets([a, b, c] + rest) == [a / 4, a % 4 * 16 + b / 16, b % 16 * 4 + c / 64, c % 64] + Sextets(rest)
  {
  }

  /** Decoding undoes encoding. */
  lemma RoundTrip(bytes: seq<Byte>)
    ensures Decode(Encode(bytes)) == Some(bytes)
  {
    EncodeIsLetters(bytes);
    DecodeLetters(Sextets(bytes));
    RegroupSextets(bytes);
  }

  lemma DecodeLetters(xs: seq<Sextet>)
    ensures Decode(Letters(xs)) == Regroup(xs)
  {
    LettersDecode(xs);
    NoLineBreaks(Letters(xs));
  }

  // ---------------------------------------------------------------- every string

  lemma AlphabetIs(x: Sextet)
    ensures x < 26 ==> EncodeSextet(x) == "ABCDEFGHIJKLMNOPQRSTUVWXYZ"[x]
    ensures 26 <= x < 52 ==> EncodeSextet(x) == "abcdefghijklmnopqrstuvwxyz"[x - 26]
    ensures 52 <= x ==> EncodeSextet(x) == "0123456789-_"[x - 52]
  {
  }

  /** Reading a letter undoes writing it, and no other character is read. */
  lemma LetterIff(ch: char, x: Sextet)
    ensures DecodeSextet(ch) == Some(x) <==> EncodeSextet(x) == ch
  {
  }

  predicate IsLetter(ch: char) { exists x: Sextet :: EncodeSextet(x) == ch }

  lemma {:induction false} LettersOfDecoded(s: string)
    ensures DecodeAll(s).Some? <==> forall i | 0 <= i < |s| :: IsLetter(s[i])
    ensures DecodeAll(s).Some? ==> Letters(DecodeAll(s).value) == s
  {
    if |s| > 0 {
      LettersOfDecoded(s[1..]);
      assert s == [s[0]] + s[1..];
      assert DecodeSextet(s[0]).Some? <==> IsLetter(s[0]) by {
        if DecodeSextet(s[0]).Some? {
          LetterIff(s[0], DecodeSextet(s[0]).value);
        }
        if x: Sextet :| EncodeSextet(x) == s[0] {
          LetterIff(s[0], x);
        }
      }
      if DecodeAll(s).Some? {
        var xs := DecodeAll(s).value;
        assert Letters(xs)[1..] == Letters(xs[1..]) && xs[1..] == DecodeAll(s[1..]).value;
      }
    }
  }

  lemma FourMore(n: nat)
    ensures (n + 4) % 4 == n % 4 && (n + 4) * 6 / 8 == n * 6 / 8 + 3
  {
  }

  lemma {:induction false} RegroupSomeIff(xs: seq<Sextet>)
    ensures Regroup(xs).Some? <==> |xs| % 4 != 1
  {
    if |xs| >= 4 {
      FourMore(|xs| - 4);
      RegroupSomeIff(xs[4..]);
    }
  }

  lemma {:induction false} RegroupLength(xs: seq<Sextet>)
    requires Regroup(xs).Some?
    ensures |Regroup(xs).value| == |xs| * 6 / 8
  {
    if |xs| >= 4 {
      FourMore(|xs| - 4);
      RegroupLength(xs[4..]);
    }
  }

  /** For every string: it decodes exactly when, line breaks apart, it consists of letters and does
      not leave a single one over, to as many bytes as its bits make. */
  lemma DecodesIff(s: string)
    ensures var t := SkipLineBreaks(s);
      && (Decode(s).Some? <==> |t| % 4 != 1 && forall i | 0 <= i < |t| :: IsLetter(t[i]))
      && (Decode(s).Some? ==> |Decode(s).value| == |t| * 6 / 8)
  {
    var t := SkipLineBreaks(s);
    LettersOfDecoded(t);
    if DecodeAll(t).Some? {
      RegroupSomeIff(DecodeAll(t).value);
      if Decode(s).Some? { RegroupLength(DecodeAll(t).value); }
      assert |Letters(DecodeAll(t).value)| == |t|;
    }
  }

  /** The sextets with the bits that make no whole byte set to zero. */
  function Cleared(xs: seq<Sextet>): seq<Sextet> {
    if |xs| % 4 == 2 then xs[..|xs|-1] + [xs[|xs|-1] / 16 * 16]
    else if |xs| % 4 == 3 then xs[..|xs|-1] + [xs[|xs|-1] / 4 * 4]
    else xs
  }

  lemma ClearedFour(xs: seq<Sextet>)
    requires |xs| >= 4
    ensures |Cleared(xs)| == |xs| && Cleared(xs)[..4] == xs[..4] && Cleared(xs)[4..] == Cleared(xs[4..])
  {
    assert |xs[4..]| % 4 == |xs| % 4;
  }

  /** Bits that make no whole byte are not looked at. */
  lemma {:induction false} LeftoverBitsAreIgnored(xs: seq<Sextet>)
    ensures Regroup(Cleared(xs)) == Regroup(xs)
  {
    if |xs| >= 4 {
      ClearedFour(xs);
      LeftoverBitsAreIgnored(xs[4..]);
      assert forall i | 0 <= i < 4 :: Cleared(xs)[i] == Cleared(xs)[..4][i] && xs[i] == xs[..4][i];
    }
  }

  /** The alphabet leaves out '.' (and ':'). */
  lemma NoSeparator(bytes: seq<Byte>)
    ensures forall i | 0 <= i < |Encode(bytes)| :: Encode(bytes)[i] != '.' && Encode(bytes)[i] != ':'
  {
  }
}
