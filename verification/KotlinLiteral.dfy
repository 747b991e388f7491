/** Kotlin string literals: the escaping chain of the generated map, the one-pass
    decoder, and the pattern that finds literal arguments in Kotlin sources. */
module KotlinLiteral {
  import opened Text

  function Escape(value: string): string {
    var s1 := ReplaceAll(value, "\\", "\\\\");
    var s2 := ReplaceAll(s1, "\"", "\\\"");
    var s3 := ReplaceAll(s2, "$", "\\$");
    ReplaceAll(s3, "\n", "\\n")
  }

  predicate IsHex(c: char) { '0' <= c <= '9' || 'a' <= c <= 'f' || 'A' <= c <= 'F' }

  function HexValue(c: char): nat
    requires IsHex(c)
  {
    if c <= '9' then c as int - '0' as int
    else if c <= 'F' then c as int - 'A' as int + 10
    else c as int - 'a' as int + 10
  }

  // A `\u` with four hexadecimal digits.
  predicate StartsUnicode(s: string) {
    |s| >= 6 && s[0] == '\\' && s[1] == 'u' && IsHex(s[2]) && IsHex(s[3]) && IsHex(s[4]) && IsHex(s[5])
  }

  predicate StartsEscape(s: string) {
    |s| >= 2 && s[0] == '\\' && (s[1] == 'n' || s[1] == '"' || s[1] == '$' || s[1] == '\\')
  }

  /** One left-to-right pass. `fromCharCode` makes a code unit from its number. */
  function Decode(s: string, fromCharCode: nat -> char): string
    decreases |s|
  {
    if s == "" then ""
    else if StartsUnicode(s) then
      var unit := ((HexValue(s[2]) * 16 + HexValue(s[3])) * 16 + HexValue(s[4])) * 16 + HexValue(s[5]);
      [fromCharCode(unit)] + Decode(s[6..], fromCharCode)
    else if StartsEscape(s) then
      [if s[1] == 'n' then '\n' else s[1]] + Decode(s[2..], fromCharCode)
    else [s[0]] + Decode(s[1..], fromCharCode)
  }

  // ----- the escaped text, one image per character

  function Image(c: char): string {
    if c == '\n' then "\\n" else if c == '\\' || c == '"' || c == '$' then ['\\', c] else [c]
  }

  function Images(s: string): string {
    if s == "" then "" else Image(s[0]) + Images(s[1..])
  }

  const ESCAPES: seq<(char, string)> := [('\\', "\\\\"), ('"', "\\\""), ('$', "\\$"), ('\n', "\\n")]

  lemma EscapeChar(c: char)
    ensures Passes([c], ESCAPES) == Image(c)
  {
    var k := if c == '\\' then 0 else if c == '"' then 1 else if c == '$' then 2 else if c == '\n' then 3 else 4;
    if k < 4 {
      PassesChar(c, ESCAPES, k);
    } else {
      PassesSkip([c], ESCAPES);
    }
  }

  lemma {:induction false} PassesAreImages(s: string)
    ensures Passes(s, ESCAPES) == Images(s)
    decreases |s|
  {
    hide Passes;
    if s == "" {
      PassesSkip("", ESCAPES);
    } else {
      assert s == [s[0]] + s[1..];
      PassesSplit([s[0]], s[1..], ESCAPES);
      EscapeChar(s[0]);
      PassesAreImages(s[1..]);
    }
  }

  lemma EscapeIsImages(value: string)
    ensures Escape(value) == Images(value)
  {
    hide ReplaceAll, Passes, Images;
    var s1 := ReplaceAll(value, "\\", "\\\\");
    var s2 := ReplaceAll(s1, "\"", "\\\"");
    var s3 := ReplaceAll(s2, "$", "\\$");
    PassesFrom(value, ESCAPES, 0);
    PassesFrom(s1, ESCAPES, 1);
    PassesFrom(s2, ESCAPES, 2);
    PassesFrom(s3, ESCAPES, 3);
    assert ESCAPES[0..] == ESCAPES && ESCAPES[4..] == [];
    PassesSkip(Escape(value), []);
    PassesAreImages(value);
  }

  // ----- the round trip

  lemma DecodeImage(c: char, rest: string, fromCharCode: nat -> char)
    ensures Decode(Image(c) + rest, fromCharCode) == [c] + Decode(rest, fromCharCode)
  {
    var s := Image(c) + rest;
    if |Image(c)| == 2 {
      assert s[0] == '\\' && s[1] == Image(c)[1] && s[2..] == rest;
    } else {
      assert s[0] == c && s[1..] == rest;
    }
  }

  lemma {:induction false} DecodeImages(s: string, fromCharCode: nat -> char)
    ensures Decode(Images(s), fromCharCode) == s
    decreases |s|
  {
    hide Image;
    if s == "" {
    } else {
      DecodeImage(s[0], Images(s[1..]), fromCharCode);
      DecodeImages(s[1..], fromCharCode);
    }
  }

  /** Decoding an escaped text gives the text back, with no exceptions. */
  lemma RoundTrip(s: string, fromCharCode: nat -> char)
    ensures Decode(Escape(s), fromCharCode) == s
  {
    EscapeIsImages(s);
    DecodeImages(s, fromCharCode);
  }

  // ----- the literal pattern

  // What `.` does not match.
  predicate IsLineTerminator(c: char) {
    c == '\n' || c == '\r' || c == 0x2028 as char || c == 0x2029 as char
  }

  // `(?:\\.|[^"\\])*` over the whole of `b`.
  predicate IsBody(b: string)
    decreases |b|
  {
    if b == "" then true
    else if b[0] == '\\' then |b| >= 2 && !IsLineTerminator(b[1]) && IsBody(b[2..])
    else b[0] != '"' && IsBody(b[1..])
  }

  // The pattern, standing on an opening quote with `text` after it, captures `b`.
  predicate Captures(text: string, b: string) {
    b != "" && IsBody(b) && StartsWith(text, b + "\"")
  }

  lemma {:induction false} ImagesAreBody(s: string)
    ensures IsBody(Images(s))
    decreases |s|
  {
    if s == "" {
    } else {
      ImagesAreBody(s[1..]);
      assert Images(s)[|Image(s[0])|..] == Images(s[1..]);
    }
  }

  lemma BodyStart(text: string, b: string)
    requires IsBody(b) && StartsWith(text, b + "\"")
    ensures text != "" && (b == "" <==> text[0] == '"') && (b != "" ==> text[0] == b[0])
  {
    assert text[0] == (b + "\"")[0];
  }

  // Only one body ends at a closing quote.
  lemma {:induction false} BodyUnique(text: string, a: string, b: string)
    requires IsBody(a) && IsBody(b)
    requires StartsWith(text, a + "\"") && StartsWith(text, b + "\"")
    ensures a == b
    decreases |a| + |b|
  {
    BodyStart(text, a);
    BodyStart(text, b);
    if a != "" && b != "" {
      var k := if a[0] == '\\' then 2 else 1;
      assert (a + "\"")[k..] == a[k..] + "\"" && (b + "\"")[k..] == b[k..] + "\"";
      assert text[..|a| + 1][k..] == text[k..][..|a[k..]| + 1];
      assert text[..|b| + 1][k..] == text[k..][..|b[k..]| + 1];
      BodyUnique(text[k..], a[k..], b[k..]);
      assert text[..|a| + 1][..k] == text[..k] == text[..|b| + 1][..k];
      assert (a + "\"")[..k] == a[..k] && (b + "\"")[..k] == b[..k];
      assert a == a[..k] + a[k..] && b == b[..k] + b[k..];
    }
  }

  /** In a source that holds an escaped text between quotes, the pattern captures
      exactly the escaped text when it is not empty, and nothing otherwise. What it
      captures decodes to the text. */
  lemma CapturesExactly(s: string, rest: string, b: string, fromCharCode: nat -> char)
    ensures Captures(Escape(s) + "\"" + rest, b) <==> s != "" && b == Escape(s)
    ensures Captures(Escape(s) + "\"" + rest, b) ==> Decode(b, fromCharCode) == s
  {
    var e := Escape(s);
    var text := e + "\"" + rest;
    EscapeIsImages(s);
    ImagesAreBody(s);
    RoundTrip(s, fromCharCode);
    assert text[..|e| + 1] == e + "\"";
    if Captures(text, b) {
      BodyUnique(text, b, e);
    }
  }

  // ----- what the escaper and the decoder do one by one

  /** A text that can stand in a literal: line feeds, quotes, dollar signs and backslashes are
      all escaped. */
  predicate IsLiteralText(t: string)
    decreases |t|
  {
    if t == "" then true
    else if t[0] == '\\' then StartsEscape(t) && IsLiteralText(t[2..])
    else t[0] != '\n' && t[0] != '"' && t[0] != '$' && IsLiteralText(t[1..])
  }

  lemma {:induction false} ImagesAreLiteralText(s: string)
    ensures IsLiteralText(Images(s))
    decreases |s|
  {
    if s == "" {
    } else {
      ImagesAreLiteralText(s[1..]);
      assert Images(s)[|Image(s[0])|..] == Images(s[1..]);
    }
  }

  lemma EscapedIsLiteralText(s: string)
    ensures IsLiteralText(Escape(s))
  {
    EscapeIsImages(s);
    ImagesAreLiteralText(s);
  }

  function HexDigit(d: nat, upper: bool): char
    requires d < 16
  {
    if upper then "0123456789ABCDEF"[d] else "0123456789abcdef"[d]
  }

  // The four digits of a code unit.
  function HexUnit(unit: nat, upper: bool): string
    requires unit < 0x10000
  {
    [HexDigit(unit / 4096, upper), HexDigit(unit / 256 % 16, upper),
     HexDigit(unit / 16 % 16, upper), HexDigit(unit % 16, upper)]
  }

  const HEX_DIGITS := "0123456789abcdefABCDEF"

  /** The digits of both cases and nothing else. */
  lemma HexDigitListed(c: char)
    ensures IsHex(c) <==> c in HEX_DIGITS
  {
    if '0' <= c <= '9' {
      assert HEX_DIGITS[c as int - '0' as int] == c;
    } else if 'a' <= c <= 'f' {
      assert HEX_DIGITS[c as int - 'a' as int + 10] == c;
    } else if 'A' <= c <= 'F' {
      assert HEX_DIGITS[c as int - 'A' as int + 16] == c;
    }
  }

  lemma HexDigitIs(d: nat, upper: bool)
    requires d < 16
    ensures IsHex(HexDigit(d, upper)) && HexValue(HexDigit(d, upper)) == d
  {
  }

  lemma DigitsMake(unit: nat)
    requires unit < 0x10000
    ensures ((unit / 4096 * 16 + unit / 256 % 16) * 16 + unit / 16 % 16) * 16 + unit % 16 == unit
    ensures unit / 4096 < 16
  {
  }

  lemma FourDigits(a: char, b: char, c: char, d: char, rest: string, fromCharCode: nat -> char)
    requires IsHex(a) && IsHex(b) && IsHex(c) && IsHex(d)
    ensures Decode("\\u" + [a, b, c, d] + rest, fromCharCode)
      == [fromCharCode(((HexValue(a) * 16 + HexValue(b)) * 16 + HexValue(c)) * 16 + HexValue(d))]
         + Decode(rest, fromCharCode)
  {
    hide HexValue, IsHex;
    var s := "\\u" + [a, b, c, d] + rest;
    assert s[2] == a && s[3] == b && s[4] == c && s[5] == d && s[6..] == rest;
  }

  /** A `\u` escape gives the code unit of its four digits, in either case. */
  lemma UnicodeDecodes(unit: nat, upper: bool, rest: string, fromCharCode: nat -> char)
    requires unit < 0x10000
    ensures Decode("\\u" + HexUnit(unit, upper) + rest, fromCharCode)
      == [fromCharCode(unit)] + Decode(rest, fromCharCode)
  {
    hide HexDigit, HexValue, IsHex, Decode;
    DigitsMake(unit);
    var a, b := HexDigit(unit / 4096, upper), HexDigit(unit / 256 % 16, upper);
    var c, d := HexDigit(unit / 16 % 16, upper), HexDigit(unit % 16, upper);
    HexDigitIs(unit / 4096, upper);
    HexDigitIs(unit / 256 % 16, upper);
    HexDigitIs(unit / 16 % 16, upper);
    HexDigitIs(unit % 16, upper);
    FourDigits(a, b, c, d, rest, fromCharCode);
  }

  // Neither kind of escape starts `s`.
  lemma StartsNothing(s: string)
    requires |s| >= 2 ==> s[1] != 'n' && s[1] != '"' && s[1] != '$' && s[1] != '\\'
    requires |s| >= 6 && s[1] == 'u' ==> exists i :: 2 <= i < 6 && !IsHex(s[i])
    ensures !StartsUnicode(s) && !StartsEscape(s)
  {
    hide IsHex;
  }

  /** A backslash before anything else is kept: before the end, before a character other
      than an n, a quote, a dollar sign or a backslash, unless it is a `u` with four digits. */
  lemma OtherBackslashStays(s: string, fromCharCode: nat -> char)
    requires s != "" && s[0] == '\\'
    requires |s| >= 2 ==> s[1] != 'n' && s[1] != '"' && s[1] != '$' && s[1] != '\\'
    requires |s| >= 6 && s[1] == 'u' ==> exists i :: 2 <= i < 6 && !IsHex(s[i])
    ensures Decode(s, fromCharCode) == "\\" + Decode(s[1..], fromCharCode)
  {
    hide IsHex, StartsUnicode, StartsEscape;
    StartsNothing(s);
  }

  /** Text without backslashes is kept. */
  lemma {:induction false} PlainStays(s: string, fromCharCode: nat -> char)
    requires '\\' !in s
    ensures Decode(s, fromCharCode) == s
    decreases |s|
  {
    if s == "" {
    } else {
      assert s[0] in s;
      PlainStays(s[1..], fromCharCode);
    }
  }
}
