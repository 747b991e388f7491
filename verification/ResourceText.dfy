/** Escaping and decoding of Android resource text: two chains of `replaceAll` passes.
    Decoding an escaped, quoted text is proved to give exactly the text in which every
    letter n after a backslash has become a line feed. */
module ResourceText {
  import opened Text

  function Escape(value: string): string {
    var s1 := ReplaceAll(value, "\\", "\\\\");
    var s2 := ReplaceAll(s1, "\n", "\\n");
    var s3 := ReplaceAll(s2, "'", "\\'");
    var s4 := ReplaceAll(s3, "\"", "\\\"");
    var s5 := ReplaceAll(s4, "&", "&amp;");
    var s6 := ReplaceAll(s5, "<", "&lt;");
    ReplaceAll(s6, ">", "&gt;")
  }

  function DecodeXml(value: string): string {
    var s1 := ReplaceAll(value, "&lt;", "<");
    var s2 := ReplaceAll(s1, "&gt;", ">");
    var s3 := ReplaceAll(s2, "&quot;", "\"");
    var s4 := ReplaceAll(s3, "&amp;", "&");
    var s5 := ReplaceAll(s4, "\\n", "\n");
    var s6 := ReplaceAll(s5, "\\'", "'");
    var s7 := ReplaceAll(s6, "\\\"", "\"");
    ReplaceAll(s7, "\\\\", "\\")
  }

  // `slice(1, -1)` of a lone quote is empty.
  function Decode(rawValue: string): string {
    var trimmed := Trim(rawValue);
    var quoted := trimmed != "" && trimmed[0] == '"' && trimmed[|trimmed| - 1] == '"';
    DecodeXml(if !quoted then trimmed else if |trimmed| == 1 then "" else trimmed[1..|trimmed| - 1])
  }

  // A backslash with the letter n right after it.
  ghost predicate HasBackslashN(s: string) {
    exists i: nat :: i + 1 < |s| && s[i] == '\\' && s[i + 1] == 'n'
  }

  predicate StartsBackslashN(s: string) {
    |s| >= 2 && s[0] == '\\' && s[1] == 'n'
  }

  function MangledAt(s: string, i: nat): char
    requires i < |s|
  {
    if 0 < i && s[i - 1] == '\\' && s[i] == 'n' then '\n' else s[i]
  }

  /** The text that comes back: each letter n after a backslash is a line feed. */
  function Mangled(s: string): (r: string)
    ensures |r| == |s|
    ensures forall i :: 0 <= i < |s| ==> r[i] == MangledAt(s, i)
  {
    if s == "" then ""
    else if StartsBackslashN(s) then "\\\n" + Mangled(s[2..])
    else [s[0]] + Mangled(s[1..])
  }

  // ----- what each pass has made of one character

  // Stage 0 is the escaped text; stage k is what k passes of the decoder leave.
  function Image(k: nat, c: char): string {
    if c == '<' then (if k < 1 then "&lt;" else "<")
    else if c == '>' then (if k < 2 then "&gt;" else ">")
    else if c == '&' then (if k < 4 then "&amp;" else "&")
    else if c == '\n' then (if k < 5 then "\\n" else "\n")
    else if c == '\'' then (if k < 6 then "\\'" else "'")
    else if c == '"' then (if k < 7 then "\\\"" else "\"")
    else if c == '\\' then (if k < 8 then "\\\\" else "\\")
    else [c]
  }

  // From stage 5 on, a backslash and a letter n have lost to the line feed pass.
  function Stage(k: nat, s: string): string {
    if s == "" then ""
    else if k >= 5 && StartsBackslashN(s) then "\\\n" + Stage(k, s[2..])
    else Image(k, s[0]) + Stage(k, s[1..])
  }

  // ----- escaping is one image per character

  const ESCAPES: seq<(char, string)> := [
    ('\\', "\\\\"), ('\n', "\\n"), ('\'', "\\'"), ('"', "\\\""), ('&', "&amp;"), ('<', "&lt;"), ('>', "&gt;")]

  lemma EscapeChar(c: char)
    ensures Passes([c], ESCAPES) == Image(0, c)
  {
    hide Settled, Passes;
    var k := if c == '\\' then 0 else if c == '\n' then 1 else if c == '\'' then 2 else if c == '"' then 3
             else if c == '&' then 4 else if c == '<' then 5 else if c == '>' then 6 else 7;
    if k < 7 {
      PassesChar(c, ESCAPES, k);
    } else {
      PassesSkip([c], ESCAPES);
    }
  }

  lemma {:induction false} PassesAreStage(s: string)
    ensures Passes(s, ESCAPES) == Stage(0, s)
    decreases |s|
  {
    hide Passes;
    if s == "" {
      PassesSkip("", ESCAPES);
    } else {
      assert s == [s[0]] + s[1..];
      PassesSplit([s[0]], s[1..], ESCAPES);
      EscapeChar(s[0]);
      PassesAreStage(s[1..]);
    }
  }

  lemma EscapeIsStage(value: string)
    ensures Escape(value) == Stage(0, value)
  {
    hide ReplaceAll, Passes, Stage;
    var s1 := ReplaceAll(value, "\\", "\\\\");
    var s2 := ReplaceAll(s1, "\n", "\\n");
    var s3 := ReplaceAll(s2, "'", "\\'");
    var s4 := ReplaceAll(s3, "\"", "\\\"");
    var s5 := ReplaceAll(s4, "&", "&amp;");
    var s6 := ReplaceAll(s5, "<", "&lt;");
    PassesFrom(value, ESCAPES, 0);
    PassesFrom(s1, ESCAPES, 1);
    PassesFrom(s2, ESCAPES, 2);
    PassesFrom(s3, ESCAPES, 3);
    PassesFrom(s4, ESCAPES, 4);
    PassesFrom(s5, ESCAPES, 5);
    PassesFrom(s6, ESCAPES, 6);
    assert ESCAPES[0..] == ESCAPES && ESCAPES[7..] == [];
    PassesSkip(Escape(value), []);
    PassesAreStage(value);
  }

  // ----- the passes of the decoder, one stage each

  function Pattern(k: nat): (p: string)
    requires k < 8
    ensures p != ""
  {
    ["&lt;", "&gt;", "&quot;", "&amp;", "\\n", "\\'", "\\\"", "\\\\"][k]
  }

  function Replacement(k: nat): string
    requires k < 8
  {
    ["<", ">", "\"", "&", "\n", "'", "\"", "\\"][k]
  }

  function Pass(k: nat, s: string): string
    requires k < 8
  {
    ReplaceAll(s, Pattern(k), Replacement(k))
  }

  // An entity whose second character differs is copied.
  lemma OtherEntity(image: string, p: string, r: string, rest: string)
    requires |image| > 2 && |p| > 2 && image[0] == p[0] == '&' && image[1] != p[1]
    requires '&' !in image[1..]
    ensures ReplaceAll(image + rest, p, r) == image + ReplaceAll(rest, p, r)
  {
    assert image == ['&'] + image[1..];
    assert image + rest == ['&'] + (image[1..] + rest);
    assert !StartsWith(image + rest, p) by {
      assert (image + rest)[1] == image[1];
    }
    ReplaceMiss('&', image[1..] + rest, p, r);
    ReplaceSkip(image[1..], rest, p, r);
    assert ['&'] + (image[1..] + ReplaceAll(rest, p, r)) == image + ReplaceAll(rest, p, r);
  }

  // An entity pass turns each image into the next one, whatever follows.
  lemma EntityStep(k: nat, c: char, rest: string)
    requires k < 4
    ensures Pass(k, Image(k, c) + rest) == Image(k + 1, c) + Pass(k, rest)
  {
    var image, p, r := Image(k, c), Pattern(k), Replacement(k);
    if image == p {
      ReplaceHit(p, rest, r);
    } else if '&' in image {
      OtherEntity(image, p, r, rest);
    } else {
      ReplaceSkip(image, rest, p, r);
    }
  }

  lemma {:induction false} EntityPass(k: nat, s: string)
    requires k < 4
    ensures Pass(k, Stage(k, s)) == Stage(k + 1, s)
    decreases |s|
  {
    if s == "" {
    } else {
      EntityStep(k, s[0], Stage(k, s[1..]));
      EntityPass(k, s[1..]);
    }
  }

  // The second character a backslash pass looks for never starts what comes next.
  lemma StageHead(k: nat, s: string)
    requires 4 <= k < 7 && s != ""
    ensures Stage(k, s) != ""
    ensures k == 4 ==> (Stage(k, s)[0] == 'n' <==> s[0] == 'n')
    ensures k == 5 ==> Stage(k, s)[0] != '\''
    ensures k == 6 ==> Stage(k, s)[0] != '"'
  {
  }

  // Two backslashes pass through when the next character is not the one looked for.
  lemma BackslashesStay(k: nat, rest: string)
    requires 4 <= k < 7
    requires rest != "" ==> rest[0] != Pattern(k)[1]
    ensures Pass(k, "\\\\" + rest) == "\\\\" + Pass(k, rest)
  {
    var p, r := Pattern(k), Replacement(k);
    ReplaceMiss('\\', rest, p, r);
    assert "\\\\" + rest == "\\" + ("\\" + rest);
    ReplaceMiss('\\', "\\" + rest, p, r);
    assert "\\" + ("\\" + Pass(k, rest)) == "\\\\" + Pass(k, rest);
  }

  lemma PlainImage(k: nat, c: char)
    requires 4 <= k < 8 && c != '\\'
    ensures var image, p := Image(k, c), Pattern(k);
      && |p| == 2 && p[0] == '\\' && image != ""
      && (image == p ==> Image(k + 1, c) == Replacement(k))
      && (image != p ==> Image(k + 1, c) == image)
      && (image != p ==> '\\' !in image || (|image| == 2 && image[0] == '\\' && image[1] != p[1] && image[1] != '\\'))
  {
  }

  lemma PlainStep(k: nat, c: char, rest: string)
    requires 4 <= k < 8 && c != '\\'
    ensures Pass(k, Image(k, c) + rest) == Image(k + 1, c) + Pass(k, rest)
  {
    var p, r := Pattern(k), Replacement(k);
    var image := Image(k, c);
    PlainImage(k, c);
    hide Image, Pattern, Replacement;
    if image == p {
      ReplaceHit(p, rest, r);
    } else if '\\' in image {
      assert image + rest == "\\" + (image[1..] + rest);
      ReplaceMiss('\\', image[1..] + rest, p, r);
      ReplaceSkip(image[1..], rest, p, r);
      assert "\\" + (image[1..] + Pass(k, rest)) == image + Pass(k, rest);
    } else {
      ReplaceSkip(image, rest, p, r);
    }
  }

  // A backslash followed by a line feed stays as it is.
  lemma LineFeedStays(k: nat, rest: string)
    requires 5 <= k < 8
    ensures Pass(k, "\\\n" + rest) == "\\\n" + Pass(k, rest)
  {
    var p, r := Pattern(k), Replacement(k);
    assert "\\\n" + rest == "\\" + ("\n" + rest);
    ReplaceMiss('\\', "\n" + rest, p, r);
    ReplaceSkip("\n", rest, p, r);
    assert "\\" + ("\n" + Pass(k, rest)) == "\\\n" + Pass(k, rest);
  }

  // In the line feed pass, the second of two backslashes takes the letter n with it.
  lemma LineFeedHit(rest: string)
    ensures Pass(4, "\\\\" + ("n" + rest)) == "\\\n" + Pass(4, rest)
  {
    var p, r := Pattern(4), Replacement(4);
    assert "\\\\" + ("n" + rest) == "\\" + (p + rest);
    ReplaceMiss('\\', p + rest, p, r);
    ReplaceHit(p, rest, r);
    assert "\\" + ("\n" + Pass(4, rest)) == "\\\n" + Pass(4, rest);
  }

  lemma {:induction false} BackslashPass(k: nat, s: string)
    requires 4 <= k < 8
    ensures Pass(k, Stage(k, s)) == Stage(k + 1, s)
    decreases |s|
  {
    if s == "" {
    } else if StartsBackslashN(s) {
      BackslashPass(k, s[2..]);
      if k == 4 {
        assert Stage(4, s[1..]) == "n" + Stage(4, s[1..][1..]) && s[1..][1..] == s[2..];
        LineFeedHit(Stage(4, s[2..]));
      } else {
        LineFeedStays(k, Stage(k, s[2..]));
      }
    } else {
      BackslashPass(k, s[1..]);
      if s[0] != '\\' {
        PlainStep(k, s[0], Stage(k, s[1..]));
      } else if k < 7 {
        if s[1..] != "" {
          StageHead(k, s[1..]);
        }
        BackslashesStay(k, Stage(k, s[1..]));
      } else {
        ReplaceHit("\\\\", Stage(7, s[1..]), "\\");
      }
    }
  }

  lemma {:induction false} LastStage(s: string)
    ensures Stage(8, s) == Mangled(s)
    decreases |s|
  {
    if s == "" {
    } else {
      if StartsBackslashN(s) {
        LastStage(s[2..]);
      } else {
        LastStage(s[1..]);
      }
    }
  }

  // ----- the main results

  lemma DecodeByPasses(s0: string, s1: string, s2: string, s3: string, s4: string, s5: string, s6: string,
      s7: string, s8: string)
    requires s1 == Pass(0, s0) && s2 == Pass(1, s1) && s3 == Pass(2, s2) && s4 == Pass(3, s3)
    requires s5 == Pass(4, s4) && s6 == Pass(5, s5) && s7 == Pass(6, s6) && s8 == Pass(7, s7)
    ensures DecodeXml(s0) == s8
  {
    hide ReplaceAll;
  }

  lemma DecodeXmlEscape(s: string)
    ensures DecodeXml(Escape(s)) == Mangled(s)
  {
    hide *;
    EscapeIsStage(s);
    EntityPass(0, s);
    EntityPass(1, s);
    EntityPass(2, s);
    EntityPass(3, s);
    BackslashPass(4, s);
    BackslashPass(5, s);
    BackslashPass(6, s);
    BackslashPass(7, s);
    DecodeByPasses(Stage(0, s), Stage(1, s), Stage(2, s), Stage(3, s), Stage(4, s), Stage(5, s), Stage(6, s),
      Stage(7, s), Stage(8, s));
    LastStage(s);
  }

  /** Decoding a quoted, escaped text gives the text with each letter n after a
      backslash turned into a line feed, for every text. */
  lemma DecodeOfEscape(s: string)
    ensures Decode("\"" + Escape(s) + "\"") == Mangled(s)
  {
    var raw := "\"" + Escape(s) + "\"";
    TrimFixed(raw);
    assert raw[1..|raw| - 1] == Escape(s);
    DecodeXmlEscape(s);
  }

  /** The round trip holds exactly for texts without a backslash before a letter n. */
  lemma RoundTripIff(s: string)
    ensures Decode("\"" + Escape(s) + "\"") == s <==> !HasBackslashN(s)
  {
    DecodeOfEscape(s);
    if HasBackslashN(s) {
      var i: nat :| i + 1 < |s| && s[i] == '\\' && s[i + 1] == 'n';
      assert Mangled(s)[i + 1] == '\n';
    }
    if Mangled(s) != s {
      var i :| 0 <= i < |s| && Mangled(s)[i] != s[i];
      var j: nat := i - 1;
      assert j + 1 < |s| && s[j] == '\\' && s[j + 1] == 'n';
    }
  }

  /** A text on which the round trip fails: a backslash and the letter n. */
  lemma RoundTripFails()
    ensures Decode("\"" + Escape("\\n") + "\"") == "\\\n" != "\\n"
  {
    DecodeOfEscape("\\n");
    assert Mangled("\\n") == "\\\n" + Mangled("");
  }

  // ----- what is written, and what else is read

  predicate EscapesNext(c: char) { c == '\\' || c == 'n' || c == '\'' || c == '"' }

  predicate IsMarkup(c: char) { c == '<' || c == '>' || c == '&' || c == '\n' || c == '\'' || c == '"' }

  /** A text that can stand in a quoted row: an ampersand only starts one of three entities, a
      backslash only one of four escapes, and there is no other markup or quote. */
  predicate IsRowText(t: string)
    decreases |t|
  {
    if t == "" then true
    else if StartsWith(t, "&amp;") then IsRowText(t[5..])
    else if StartsWith(t, "&lt;") || StartsWith(t, "&gt;") then IsRowText(t[4..])
    else if t[0] == '\\' then |t| >= 2 && EscapesNext(t[1]) && IsRowText(t[2..])
    else !IsMarkup(t[0]) && IsRowText(t[1..])
  }

  lemma ImageIsRowText(c: char, rest: string)
    requires IsRowText(rest)
    ensures IsRowText(Image(0, c) + rest)
  {
    var t := Image(0, c) + rest;
    assert t[|Image(0, c)|..] == rest;
    if c == '&' {
      assert t[..5] == "&amp;";
    } else if c == '<' {
      assert t[..4] == "&lt;" && t[1] != 'a';
    } else if c == '>' {
      assert t[..4] == "&gt;" && t[1] != 'a';
    }
  }

  lemma {:induction false} StageIsRowText(s: string)
    ensures IsRowText(Stage(0, s))
    decreases |s|
  {
    hide IsRowText, Image;
    if s == "" {
      NothingIsRowText();
    } else {
      StageIsRowText(s[1..]);
      ImageIsRowText(s[0], Stage(0, s[1..]));
    }
  }

  lemma NothingIsRowText()
    ensures IsRowText("")
  {
  }

  lemma EscapedIsRowText(s: string)
    ensures IsRowText(Escape(s))
  {
    hide *;
    EscapeIsStage(s);
    StageIsRowText(s);
  }

  lemma EscapeFirst(s: string)
    requires s != ""
    ensures Escape(s) != "" && Escape(s)[0] == Image(0, s[0])[0]
  {
    hide Escape;
    EscapeIsStage(s);
    ImageEnds(s[0]);
    hide Image;
  }

  lemma EscapeLast(s: string)
    requires s != ""
    ensures var last := Image(0, s[|s| - 1]);
      last != "" && Escape(s) != "" && Escape(s)[|Escape(s)| - 1] == last[|last| - 1]
  {
    hide *;
    var front, c := s[..|s| - 1], s[|s| - 1];
    EscapeIsPasses(s);
    assert s == front + [c];
    PassesSplit(front, [c], ESCAPES);
    EscapeChar(c);
    ImageEnds(c);
  }

  lemma EscapeIsPasses(s: string)
    ensures Escape(s) == Passes(s, ESCAPES)
  {
    hide *;
    EscapeIsStage(s);
    PassesAreStage(s);
  }

  /** White space around a quoted row is ignored, and a row without quotes is read the same
      way. Of a lone quote nothing is left. */
  lemma DecodeAround(s: string, before: string, after: string)
    requires (forall c :: c in before ==> IsSpace(c)) && forall c :: c in after ==> IsSpace(c)
    ensures Decode(before + "\"" + Escape(s) + "\"" + after) == Mangled(s)
    ensures (s != "" ==> !IsSpace(s[0]) && !IsSpace(s[|s| - 1])) ==> Decode(before + Escape(s) + after) == Mangled(s)
    ensures Decode(before + "\"" + after) == ""
  {
    hide Escape, Mangled, DecodeXml, Trim, Image;
    var e := Escape(s);
    DecodeXmlEscape(s);
    var raw := "\"" + e + "\"";
    assert before + "\"" + e + "\"" + after == before + raw + after;
    TrimAround(before, raw, after);
    assert raw[1..|raw| - 1] == e;
    TrimAround(before, "\"", after);
    DecodeNothing();
    if s != "" && !IsSpace(s[0]) && !IsSpace(s[|s| - 1]) {
      EscapeFirst(s);
      EscapeLast(s);
      ImageEnds(s[0]);
      ImageEnds(s[|s| - 1]);
      TrimAround(before, e, after);
    }
    if s == "" {
      EscapeNothing();
      TrimSpace(before + "" + after);
    }
  }

  lemma ImageEnds(c: char)
    ensures var image := Image(0, c);
      && image != "" && image[0] != '"' && (!IsSpace(c) ==> !IsSpace(image[0]) && !IsSpace(image[|image| - 1]))
  {
  }

  lemma DecodeNothing()
    ensures DecodeXml("") == ""
  {
  }

  lemma EscapeNothing()
    ensures Escape("") == ""
  {
  }

  // ----- the entity that is read but never written

  // The text with its quotes as entities, after `k` passes.
  function WithQuotes(k: nat, s: string): string {
    if s == "" then "" else (if s[0] == '"' && k < 3 then "&quot;" else [s[0]]) + WithQuotes(k, s[1..])
  }

  lemma QuoteStep(k: nat, c: char, rest: string)
    requires k < 4 && c != '&'
    ensures var image := if c == '"' && k < 3 then "&quot;" else [c];
      Pass(k, image + rest) == (if c == '"' && k < 2 then "&quot;" else [c]) + Pass(k, rest)
  {
    var p, r := Pattern(k), Replacement(k);
    if c == '"' && k < 3 {
      if k == 2 {
        ReplaceHit(p, rest, r);
      } else {
        OtherEntity("&quot;", p, r, rest);
      }
    } else {
      ReplaceSkip([c], rest, p, r);
    }
  }

  lemma {:induction false} QuotePass(k: nat, s: string)
    requires k < 4 && '&' !in s
    ensures Pass(k, WithQuotes(k, s)) == WithQuotes(k + 1, s)
    decreases |s|
  {
    hide Pass, Pattern, Replacement, ReplaceAll;
    if s == "" {
      PassNothing(k);
    } else {
      assert s[0] in s;
      QuoteStep(k, s[0], WithQuotes(k, s[1..]));
      QuotePass(k, s[1..]);
    }
  }

  lemma PassNothing(k: nat)
    requires k < 8
    ensures Pass(k, "") == ""
  {
  }

  lemma {:induction false} QuotesDone(s: string)
    ensures WithQuotes(4, s) == s
    decreases |s|
  {
    if s == "" {
    } else {
      QuotesDone(s[1..]);
    }
  }

  lemma PlainPass(k: nat, s: string)
    requires 4 <= k < 8 && '\\' !in s
    ensures Pass(k, s) == s
  {
    ReplaceSkip(s, "", Pattern(k), Replacement(k));
    assert s + "" == s;
  }

  /** Quotes written as entities are read as quotes. */
  lemma QuoteEntities(s: string)
    requires '&' !in s && '\\' !in s
    ensures DecodeXml(WithQuotes(0, s)) == s
  {
    hide *;
    QuotePass(0, s);
    QuotePass(1, s);
    QuotePass(2, s);
    QuotePass(3, s);
    QuotesDone(s);
    PlainPass(4, s);
    PlainPass(5, s);
    PlainPass(6, s);
    PlainPass(7, s);
    DecodeByPasses(WithQuotes(0, s), WithQuotes(1, s), WithQuotes(2, s), WithQuotes(3, s), s, s, s, s, s);
  }
}
