/** The rows of the Android resource files, and what the script reads back from them: its
    decoder undoes the quoting and escaping, but neither the doubled percent signs nor the
    placeholders. This decides which checked-in translations a build can keep. */
module ResourceRows {
  import opened Text
  import opened Sorting
  import opened Interpolations
  import opened ResourceText
  import opened AndroidRender
  import opened TranslationVote

  // The text of a row, as it is written and as it is read again.
  function Row(source: string, value: string): string
    requires Rendered(source, value).Ok?
  {
    "\"" + Rendered(source, value).value + "\""
  }

  // ----- decoding a row

  function MangledGaps(l: Lexed): Lexed {
    match l
    case Tail(g) => Tail(Mangled(g))
    case Piece(g, t, rest) => Piece(Mangled(g), t, MangledGaps(rest))
  }

  lemma MangledSplits(a: string, b: string)
    requires !(a != "" && a[|a| - 1] == '\\' && b != "" && b[0] == 'n')
    ensures Mangled(a + b) == Mangled(a) + Mangled(b)
  {
    hide Mangled;
    var whole, parts := Mangled(a + b), Mangled(a) + Mangled(b);
    forall i | 0 <= i < |a + b| ensures whole[i] == parts[i] {
      if i < |a| {
        assert parts[i] == Mangled(a)[i];
      } else {
        assert parts[i] == Mangled(b)[i - |a|];
        if i > |a| {
          assert (a + b)[i - 1] == b[i - 1 - |a|];
        }
      }
    }
  }

  lemma {:induction false} DoubledAt(g: string)
    ensures DoublePercent(Mangled(g)) == Mangled(DoublePercent(g))
    ensures g != "" <==> DoublePercent(g) != ""
    ensures g != "" ==> DoublePercent(g)[0] == g[0]
    decreases |g|
  {
    if g == "" {
    } else {
      assert g == [g[0]] + g[1..];
      DoubledAt(g[1..]);
      if g[0] == '%' {
        ReplaceHit("%", g[1..], "%%");
        ReplaceHit("%", Mangled(g[1..]), "%%");
        MangledSplits("%%", DoublePercent(g[1..]));
        MangledSplits("%", g[1..]);
        assert Mangled("%%") == "%%" && Mangled("%") == "%";
      } else if StartsBackslashN(g) {
        DoubledAt(g[2..]);
        assert g == "\\n" + g[2..];
        ReplaceSkip("\\n", g[2..], "%", "%%");
        ReplaceSkip("\\\n", Mangled(g[2..]), "%", "%%");
        MangledSplits("\\n", DoublePercent(g[2..]));
        MangledSplits("\\n", g[2..]);
        assert Mangled("\\n") == "\\\n";
      } else {
        ReplaceMiss(g[0], g[1..], "%", "%%");
        ReplaceMiss(g[0], Mangled(g[1..]), "%", "%%");
        MangledSplits([g[0]], DoublePercent(g[1..]));
        MangledSplits([g[0]], g[1..]);
        assert Mangled([g[0]]) == [g[0]];
      }
    }
  }

  lemma MangledPlaceholder(k: nat)
    ensures Mangled(Placeholder(k)) == Placeholder(k)
  {
    var p, d := Placeholder(k), Decimal(k);
    forall i | 0 <= i < |p| ensures p[i] != '\\' && MangledAt(p, i) == p[i] {
      NoBackslashIn(k, i);
      if i > 0 {
        NoBackslashIn(k, i - 1);
      }
    }
  }

  lemma NoBackslashIn(k: nat, i: nat)
    requires i < |Placeholder(k)|
    ensures Placeholder(k)[i] != '\\'
  {
    var d := Decimal(k);
    if 1 <= i < 1 + |d| {
      assert Placeholder(k)[i] == d[i - 1] && d[i - 1] in d;
    }
  }

  // Decoding damages gaps one by one; placeholders come through whole.
  lemma {:induction false} MangledRender(l: Lexed, numbers: seq<nat>)
    requires |numbers| == |Tokens(l)|
    ensures Tokens(MangledGaps(l)) == Tokens(l)
    ensures Mangled(RenderWith(l, numbers)) == RenderWith(MangledGaps(l), numbers)
    decreases l
  {
    match l
    case Tail(g) =>
      DoubledAt(g);
    case Piece(g, t, rest) =>
      MangledRender(rest, numbers[1..]);
      DoubledAt(g);
      var p, after := Placeholder(numbers[0]), RenderWith(rest, numbers[1..]);
      MangledPlaceholder(numbers[0]);
      assert p[0] == '%' && p[|p| - 1] == 's';
      MangledSplits(p, after);
      MangledSplits(DoublePercent(g), p + after);
  }

  ghost predicate CleanGaps(l: Lexed) {
    !HasBackslashN(l.gap) && (l.Piece? ==> CleanGaps(l.rest))
  }

  lemma MangledIff(g: string)
    ensures Mangled(g) == g <==> !HasBackslashN(g)
  {
    DecodeOfEscape(g);
    RoundTripIff(g);
  }

  lemma {:induction false} MangledWeave(l: Lexed)
    ensures |Weave(MangledGaps(l))| == |Weave(l)|
    ensures Weave(MangledGaps(l)) == Weave(l) <==> CleanGaps(l)
    decreases l
  {
    MangledIff(l.gap);
    if l.Piece? {
      MangledWeave(l.rest);
      var a, b := Mangled(l.gap) + l.token, l.gap + l.token;
      var x, y := Weave(MangledGaps(l.rest)), Weave(l.rest);
      if a + x == b + y {
        assert (a + x)[..|l.gap|] == Mangled(l.gap) && (b + y)[..|l.gap|] == l.gap;
        assert (a + x)[|a|..] == x && (b + y)[|b|..] == y;
      }
    }
  }

  /** What the decoder makes of any written row: the rendering, with each letter n after a
      backslash outside the tokens turned into a line feed. */
  lemma DecodedRow(source: string, value: string)
    requires Accepted(source, value)
    ensures Rendered(source, value).Ok?
    ensures Scan(source) == Some([]) ==> Decode(Row(source, value)) == Mangled(value)
    ensures Scan(source) != Some([]) ==>
      var numbers := Numbers(SourceTokens(value), SourceTokens(source));
      && |numbers| == |Tokens(MangledGaps(Lex(value).value))|
      && Decode(Row(source, value)) == RenderWith(MangledGaps(Lex(value).value), numbers)
  {
    hide Rendered, Scan, Decode, Escape, Mangled, RenderWith, MangledGaps, Numbers, SourceTokens;
    RenderedIff(source, value);
    if Scan(source) == Some([]) {
      NoTokensUnchanged(source, value);
      DecodeOfEscape(value);
    } else {
      RenderedText(source, value);
      var l, numbers := Lex(value).value, Numbers(SourceTokens(value), SourceTokens(source));
      DecodeOfEscape(RenderWith(l, numbers));
      MangledRender(l, numbers);
    }
  }

  // ----- formatting what was decoded

  /** The decoded text of a row, formatted with the source's tokens unless the row is
      marked unformatted. */
  function ReadBack(source: string, row: string): Option<string>
    requires Scan(source).Some?
  {
    if MarkedUnformatted(source) then Some(Decode(row)) else Format(Decode(row), SourceTokens(source))
  }

  /** Reading a row back with the script's decoder and formatting it gives the value with
      each letter n after a backslash, outside the tokens, turned into a line feed. */
  lemma ReadBackText(source: string, value: string)
    requires Accepted(source, value)
    ensures Rendered(source, value).Ok?
    ensures ReadBack(source, Row(source, value)) == Some(Weave(MangledGaps(Lex(value).value)))
  {
    RenderedIff(source, value);
    DecodedRow(source, value);
    ScanTiles(value);
    SameElements(SourceTokens(value), SourceTokens(source));
    var l := Lex(value).value;
    if Scan(source) == Some([]) {
      assert l == Tail(value) by {
        assert value[0..] == value;
      }
    } else {
      RenderedText(source, value);
      MangledRender(l, Numbers(SourceTokens(value), SourceTokens(source)));
      FormatRendered(MangledGaps(l), Numbers(SourceTokens(value), SourceTokens(source)), SourceTokens(source));
    }
  }

  /** So it gives exactly the value if and only if no text of the value outside its tokens
      has a backslash before a letter n. */
  lemma ReadBackIff(source: string, value: string)
    requires Accepted(source, value)
    ensures Rendered(source, value).Ok?
    ensures ReadBack(source, Row(source, value)) == Some(value) <==> CleanGaps(Lex(value).value)
  {
    ReadBackText(source, value);
    ScanTiles(value);
    MangledWeave(Lex(value).value);
  }

  // ----- the English row

  function Percents(n: nat): string {
    if n == 0 then "" else "%" + Percents(n - 1)
  }

  lemma {:induction false} PercentsTurn(n: nat, rest: string)
    ensures Percents(n) + ("%" + rest) == "%" + (Percents(n) + rest)
  {
    if n == 0 {
      assert "" + ("%" + rest) == "%" + rest == "%" + ("" + rest);
    } else {
      PercentsTurn(n - 1, rest);
      assert Percents(n) + ("%" + rest) == "%" + (Percents(n - 1) + ("%" + rest));
      assert "%" + ("%" + (Percents(n - 1) + rest)) == "%" + (Percents(n) + rest);
    }
  }

  ghost predicate SamePercents(a: string, b: string) {
    |a| == |b| && forall i :: 0 <= i < |a| ==> (a[i] == '%' <==> b[i] == '%')
  }

  // Doubling percent signs only moves text back, so the sign of a placeholder comes too
  // early or too late to meet the dollar sign of a token.
  lemma {:induction false} DoubledNeverMeets(n: nat, a: string, b: string, x: string, y: string)
    requires SamePercents(a, b)
    ensures Percents(n) + (DoublePercent(a) + ("%" + x)) != b + ("$" + y)
    decreases |a|
  {
    var l, r := Percents(n) + (DoublePercent(a) + ("%" + x)), b + ("$" + y);
    if a == "" {
      assert DoublePercent(a) + ("%" + x) == "%" + x;
      PercentsTurn(n, x);
      assert l[0] == '%' && r[0] == '$';
    } else if l == r {
      var a', b' := a[1..], b[1..];
      assert a == [a[0]] + a' && b == [b[0]] + b';
      assert r[1..] == b' + ("$" + y) && r[0] == b[0];
      assert SamePercents(a', b') by {
        assert forall i :: 0 <= i < |a'| ==> a'[i] == a[i + 1] && b'[i] == b[i + 1];
      }
      var tail := DoublePercent(a') + ("%" + x);
      DoubledStep(n, a[0], a', x);
      assert Percents(0) + tail == tail;
      DoubledNeverMeets(if a[0] == '%' then n + 1 else 0, a', b', x, y);
    }
  }

  // What is left after the first character.
  lemma DoubledStep(n: nat, c: char, rest: string, x: string)
    requires n == 0 || c == '%'
    ensures var l := Percents(n) + (DoublePercent([c] + rest) + ("%" + x));
      var tail := DoublePercent(rest) + ("%" + x);
      l == (if c == '%' then "%" + (Percents(n + 1) + tail) else [c] + tail)
  {
    var tail := DoublePercent(rest) + ("%" + x);
    if c == '%' {
      ReplaceHit("%", rest, "%%");
      assert DoublePercent([c] + rest) + ("%" + x) == "%" + ("%" + tail);
      PercentsTurn(n, "%" + tail);
      PercentsTurn(n, tail);
      assert "%" + (Percents(n) + tail) == Percents(n + 1) + tail;
    } else {
      ReplaceMiss(c, rest, "%", "%%");
      assert DoublePercent([c] + rest) + ("%" + x) == [c] + tail;
      assert Percents(0) + ([c] + tail) == [c] + tail;
    }
  }

  // The first placeholder and the first token.
  lemma FirstPlaceholder(l: Lexed, numbers: seq<nat>) returns (x: string)
    requires l.Piece? && |numbers| == |Tokens(l)|
    ensures RenderWith(l, numbers) == DoublePercent(l.gap) + ("%" + x)
  {
    hide DoublePercent;
    var p, after := Placeholder(numbers[0]), RenderWith(l.rest, numbers[1..]);
    x := p[1..] + after;
    assert p + after == "%" + x;
  }

  lemma FirstToken(l: Lexed) returns (y: string)
    requires l.Piece? && IsToken(l.token)
    ensures Weave(l) == l.gap + ("$" + y)
  {
    y := l.token[1..] + Weave(l.rest);
    assert l.token == "$" + l.token[1..];
    assert l.gap + l.token + Weave(l.rest) == l.gap + ("$" + y);
  }

  lemma TokenDecodedAway(l: Lexed, numbers: seq<nat>)
    requires l.Piece? && IsToken(l.token) && |numbers| == |Tokens(MangledGaps(l))|
    ensures RenderWith(MangledGaps(l), numbers) != Weave(l)
  {
    hide DoublePercent, RenderWith, Weave, Mangled, IsToken, Tokens;
    var x := FirstPlaceholder(MangledGaps(l), numbers);
    var y := FirstToken(l);
    var m := Mangled(l.gap);
    assert Percents(0) + (DoublePercent(m) + ("%" + x)) == DoublePercent(m) + ("%" + x);
    DoubledNeverMeets(0, m, l.gap, x, y);
  }

  /** Decoding the English row gives its source back if and only if the source has no
      interpolation and no backslash before a letter n. */
  lemma EnglishRowIff(source: string)
    requires Scan(source).Some?
    ensures Rendered(source, source).Ok?
    ensures Decode(Row(source, source)) == source <==> Scan(source) == Some([]) && !HasBackslashN(source)
  {
    DecodedRow(source, source);
    ScanTiles(source);
    if Scan(source) == Some([]) {
      MangledIff(source);
    } else {
      var l := Lex(source).value;
      TokenDecodedAway(l, Numbers(SourceTokens(source), SourceTokens(source)));
    }
  }

  // ----- keeping a checked-in translation

  // The decoded English and translated rows of a key.
  datatype Existing = Existing(source: string, translation: string)

  function GeneratedTranslation(source: string, artifactTranslations: seq<string>, existing: Option<Existing>): string {
    var candidates :=
      if artifactTranslations != [] then artifactTranslations
      else if existing.Some? && existing.value.source == source && existing.value.translation != source
      then [existing.value.translation]
      else [];
    AndroidVote(source, candidates)
  }

  // The value written for a source, from its artifact translations and the checked-in
  // rows of its key; a key without a row reads as the empty text.
  function GeneratedValue(source: string, translations: seq<string>, englishRow: string, localeRow: string): string {
    var existingSource, existingTranslation := Decode(englishRow), Decode(localeRow);
    var existing :=
      if existingSource != "" && existingTranslation != "" then Some(Existing(existingSource, existingTranslation))
      else None;
    var selected := GeneratedTranslation(source, translations, existing);
    if selected != "" then selected else source
  }

  lemma VoteOnOne(source: string, value: string)
    ensures AndroidVote(source, []) == ""
    ensures AndroidVote(source, [value]) == value
  {
    AndroidWins(source, [value]);
  }

  /** Where artifacts translate the source, the winner of their vote is written, whatever
      the checked-in rows say; an empty winner gives way to the source. */
  lemma ValueFromArtifacts(source: string, translations: seq<string>, englishRow: string, localeRow: string)
      returns (w: string)
    requires translations != []
    ensures IsWinner(source, translations, w)
    ensures GeneratedValue(source, translations, englishRow, localeRow) == if w != "" then w else source
  {
    hide Decode, IsWinner, AndroidVote;
    w := AndroidVote(source, translations);
    AndroidWins(source, translations);
  }

  /** Without artifact translations, the decoded translated row is written if it is not empty
      and the English row decodes to the source, and the source is not empty; else the source. */
  lemma ValueFromRows(source: string, englishRow: string, localeRow: string)
    ensures GeneratedValue(source, [], englishRow, localeRow) ==
      if source != "" && Decode(englishRow) == source && Decode(localeRow) != "" then Decode(localeRow) else source
  {
    hide Decode, AndroidVote;
    VoteOnOne(source, Decode(localeRow));
  }

  lemma MangledLength(text: string)
    ensures Mangled(text) == "" <==> text == ""
  {
  }

  /** What a build writes when the artifacts no longer translate a source and both rows are
      the ones it wrote before: the decoded translation if the source has no interpolation
      and no backslash before a letter n, and both texts are not empty; else the source. */
  lemma ValueWithoutArtifacts(source: string, translated: string)
    requires Accepted(source, translated)
    ensures Rendered(source, source).Ok? && Rendered(source, translated).Ok?
    ensures GeneratedValue(source, [], Row(source, source), Row(source, translated)) ==
      if Scan(source) == Some([]) && !HasBackslashN(source) && source != "" && translated != ""
      then Mangled(translated) else source
  {
    hide Decode, Row, Scan, Rendered, AndroidVote, HasBackslashN, GeneratedValue;
    RenderedIff(source, translated);
    EnglishRowIff(source);
    DecodedRow(source, translated);
    MangledLength(translated);
    ValueFromRows(source, Row(source, source), Row(source, translated));
  }

  /** So the checked-in translation of an unchanged source is kept if and only if it is the
      source itself, or neither text has an interpolation, a backslash before a letter n or
      no characters at all. */
  lemma KeptIff(source: string, translated: string)
    requires Accepted(source, translated)
    ensures Rendered(source, source).Ok? && Rendered(source, translated).Ok?
    ensures GeneratedValue(source, [], Row(source, source), Row(source, translated)) == translated <==>
      translated == source
      || (Scan(source) == Some([]) && !HasBackslashN(source) && !HasBackslashN(translated)
          && source != "" && translated != "")
  {
    hide GeneratedValue, Scan, Rendered, HasBackslashN, Mangled;
    ValueWithoutArtifacts(source, translated);
    MangledIff(translated);
  }

  // Turning a letter into a line feed opens no interpolation.
  lemma MangledScans(text: string)
    requires Scan(text) == Some([])
    ensures Scan(Mangled(text)) == Some([])
  {
    ScanTiles(text);
    assert text[0..] == text && Lex(text) == Some(Tail(text));
    var m := Mangled(text);
    forall i: nat ensures !OpensAt(m, i) {
      assert !OpensAt(text, i);
      if i + 1 < |m| {
        assert m[i] == MangledAt(text, i) && m[i + 1] == MangledAt(text, i + 1);
      }
    }
    ScanIsUnique(m, Tail(m));
  }

  lemma MangledTwice(text: string)
    ensures Mangled(Mangled(text)) == Mangled(text)
  {
    var m := Mangled(text);
    forall i: nat | i + 1 < |m| ensures !(m[i] == '\\' && m[i + 1] == 'n') {
      assert m[i] == MangledAt(text, i) && m[i + 1] == MangledAt(text, i + 1);
    }
    MangledIff(m);
  }

  // What a build without artifacts writes can be written into a row again.
  lemma WrittenIsAccepted(source: string, translated: string)
    requires Accepted(source, translated)
    ensures Accepted(source, source)
    ensures Scan(source) == Some([]) ==> Accepted(source, Mangled(translated))
  {
    if Scan(source) == Some([]) {
      SameElements(SourceTokens(source), SourceTokens(translated));
      assert Scan(translated) == Some([]);
      MangledScans(translated);
    }
  }

  /** One build without artifacts settles: the value it writes can be written again, and
      the next build, on the rows of that value, writes it again. */
  lemma BuildSettles(source: string, translated: string)
    requires Accepted(source, translated)
    ensures Rendered(source, source).Ok? && Rendered(source, translated).Ok?
    ensures var value := GeneratedValue(source, [], Row(source, source), Row(source, translated));
      && Accepted(source, value) && Rendered(source, value).Ok?
      && GeneratedValue(source, [], Row(source, source), Row(source, value)) == value
  {
    hide GeneratedValue, Scan, Rendered, Row, HasBackslashN, Mangled, Accepted;
    ValueWithoutArtifacts(source, translated);
    WrittenIsAccepted(source, translated);
    var value := GeneratedValue(source, [], Row(source, source), Row(source, translated));
    RenderedIff(source, value);
    ValueWithoutArtifacts(source, value);
    MangledIff(source);
    MangledTwice(translated);
    MangledLength(translated);
  }

  lemma OneName(s: string, after: string)
    requires s == "$a" + after && (after == "" || (after[0] == '!' && |after| == 1))
    ensures Scan(s) == Some([Interpolation(0, 2, "$a")])
  {
    var l := Piece("", "$a", Tail(after));
    assert IsName("$a") && Weave(l) == s;
    assert ValidLex(l, false);
    ScanIsUnique(s, l);
    assert Intervals(l, 0) == [Interpolation(0, 2, "$a")];
  }

  /** A checked-in translation that is not kept, although its source is unchanged. */
  lemma KeptFails()
    ensures Rendered("$a", "$a!").Ok? && Rendered("$a", "$a").Ok?
    ensures GeneratedValue("$a", [], Row("$a", "$a"), Row("$a", "$a!")) == "$a"
  {
    hide Rendered, GeneratedValue, Row, Scan;
    OneName("$a", "");
    OneName("$a!", "!");
    RenderedIff("$a", "$a!");
    ValueWithoutArtifacts("$a", "$a!");
  }
}
