/** Rendering a translated text as an Android format string. Kotlin interpolations of
    the translation become numbered placeholders that name the source's arguments.
    Formatting the result with the source's tokens gives the translation back. */
module AndroidRender {
  import opened Text
  import opened Sorting
  import opened Interpolations
  import opened ResourceText

  // ----- token counts

  predicate KeyLe(a: (string, nat), b: (string, nat)) { TextLe(a.0, b.0) }

  function TokenCounts(tokens: seq<string>): seq<(string, nat)> {
    Sort(KeyLe, CountEntries(tokens))
  }

  lemma CountsForget(a: seq<string>, b: seq<string>)
    requires multiset(a) == multiset(b)
    ensures TokenCounts(a) == TokenCounts(b)
  {
    EntriesForget(a, b);
    EntriesHaveNoDuplicates(a);
    KeyOrder();
    SortForgets(KeyLe, CountEntries(a), CountEntries(b));
  }

  lemma KeyOrder()
    ensures Preorder(KeyLe)
    ensures forall x, y :: KeyLe(x, y) && KeyLe(y, x) ==> x.0 == y.0
  {
    TextOrder();
    forall x: (string, nat), y: (string, nat) | KeyLe(x, y) && KeyLe(y, x) ensures x.0 == y.0 {
      TextLeAntisymmetric(x.0, y.0);
    }
  }

  lemma CountsDetermine(a: seq<string>, b: seq<string>, v: string)
    requires forall e :: e in CountEntries(a) <==> e in CountEntries(b)
    ensures multiset(a)[v] == multiset(b)[v]
  {
    EntryIff(a, v, multiset(a)[v]);
    EntryIff(b, v, multiset(a)[v]);
    EntryIff(a, v, multiset(b)[v]);
    EntryIff(b, v, multiset(b)[v]);
    assert v in a <==> v in multiset(a);
    assert v in b <==> v in multiset(b);
    assert (v, multiset(a)[v]) in CountEntries(a) <==> (v, multiset(a)[v]) in CountEntries(b);
    assert (v, multiset(b)[v]) in CountEntries(a) <==> (v, multiset(b)[v]) in CountEntries(b);
  }

  /** The sorted counts agree exactly when the tokens agree as multisets. */
  lemma TokenCountsIff(a: seq<string>, b: seq<string>)
    ensures TokenCounts(a) == TokenCounts(b) <==> multiset(a) == multiset(b)
  {
    if multiset(a) == multiset(b) {
      CountsForget(a, b);
    }
    if TokenCounts(a) == TokenCounts(b) {
      SameElements(CountEntries(a), TokenCounts(a));
      SameElements(CountEntries(b), TokenCounts(b));
      forall v ensures multiset(a)[v] == multiset(b)[v] {
        CountsDetermine(a, b, v);
      }
    }
  }

  // ----- the numbers of the source's tokens

  // The one-based positions of `token`, in order.
  function Positions(tokens: seq<string>, token: string): seq<nat> {
    if tokens == [] then []
    else
      var last := |tokens| - 1;
      Positions(tokens[..last], token) + (if tokens[last] == token then [last + 1] else [])
  }

  // Position `n` holds the token, after `k` earlier occurrences.
  ghost predicate IsPosition(tokens: seq<string>, token: string, n: nat, k: nat) {
    1 <= n <= |tokens| && tokens[n - 1] == token && multiset(tokens[..n - 1])[token] == k
  }

  // The k-th position holds the token, with k earlier occurrences.
  lemma {:induction false} PositionsCount(tokens: seq<string>, token: string)
    ensures var ps := Positions(tokens, token);
      && |ps| == multiset(tokens)[token]
      && forall k :: 0 <= k < |ps| ==> IsPosition(tokens, token, ps[k], k)
    decreases |tokens|
  {
    if tokens == [] {
    } else {
      var last := |tokens| - 1;
      var front := tokens[..last];
      assert tokens == front + [tokens[last]];
      PositionsCount(front, token);
      var ps := Positions(tokens, token);
      forall k | 0 <= k < |ps|
        ensures IsPosition(tokens, token, ps[k], k)
      {
        if k < |Positions(front, token)| {
          assert tokens[..ps[k] - 1] == front[..ps[k] - 1];
        }
      }
    }
  }

  lemma PositionsStep(tokens: seq<string>, i: nat, token: string)
    requires i < |tokens|
    ensures Positions(tokens[..i + 1], token)
      == Positions(tokens[..i], token) + (if tokens[i] == token then [i + 1] else [])
  {
    assert tokens[..i + 1][..i] == tokens[..i];
  }

  ghost predicate IsIndex(m: map<string, seq<nat>>, tokens: seq<string>) {
    forall t :: Lookup(m, t, []) == Positions(tokens, t)
  }

  lemma IndicesGrow(indices: map<string, seq<nat>>, tokens: seq<string>, i: nat)
    requires i < |tokens| && IsIndex(indices, tokens[..i])
    ensures IsIndex(indices[tokens[i] := Lookup(indices, tokens[i], []) + [i + 1]], tokens[..i + 1])
  {
    var more := indices[tokens[i] := Lookup(indices, tokens[i], []) + [i + 1]];
    forall t ensures Lookup(more, t, []) == Positions(tokens[..i + 1], t) {
      PositionsStep(tokens, i, t);
      assert Lookup(indices, t, []) == Positions(tokens[..i], t);
    }
  }

  /** The Map from each source token to its positions. */
  method SourceIndices(tokens: seq<string>) returns (indices: map<string, seq<nat>>)
    ensures IsIndex(indices, tokens)
  {
    indices := map[];
    for i := 0 to |tokens|
      invariant IsIndex(indices, tokens[..i])
    {
      var token := tokens[i];
      IndicesGrow(indices, tokens, i);
      indices := indices[token := Lookup(indices, token, []) + [i + 1]];
    }
    assert tokens[..|tokens|] == tokens;
  }

  function Placeholder(k: nat): string { "%" + Decimal(k) + "$s" }

  // A token that the source has too few of would be kept as it is.
  function Choose(positions: seq<nat>, token: string, occurrence: nat): string {
    if occurrence < |positions| then Placeholder(positions[occurrence]) else token
  }

  function Slot(sourceTokens: seq<string>, token: string, occurrence: nat): string {
    Choose(Positions(sourceTokens, token), token, occurrence)
  }

  function DoublePercent(s: string): string { ReplaceAll(s, "%", "%%") }

  // Renders a tokenization after the tokens `seen`.
  function RenderLexed(l: Lexed, sourceTokens: seq<string>, seen: seq<string>): string
    decreases l
  {
    match l
    case Tail(g) => DoublePercent(g)
    case Piece(g, t, rest) =>
      DoublePercent(g) + Slot(sourceTokens, t, multiset(seen)[t]) + RenderLexed(rest, sourceTokens, seen + [t])
  }

  function Values(ivs: seq<Interpolation>): seq<string> {
    seq(|ivs|, i requires 0 <= i < |ivs| => ivs[i].value)
  }

  // ----- the rendering operation

  function Rendered(source: string, translated: string): Result<string> {
    var sourceScan, translatedScan := Scan(source), Scan(translated);
    if sourceScan.None? || translatedScan.None? then Err("unbalanced interpolation placeholders")
    else if TokenCounts(Values(sourceScan.value)) != TokenCounts(Values(translatedScan.value)) then
      Err("changed interpolation placeholders")
    else if sourceScan.value == [] then Ok(Escape(translated))
    else Ok(Escape(RenderLexed(Lex(translated).value, Values(sourceScan.value), [])))
  }

  lemma RenderStep(s: string, cursor: nat, ivs: seq<Interpolation>, i: nat, sourceTokens: seq<string>)
    requires i < |ivs| && Ordered(s, cursor, ivs[i..])
    ensures cursor <= ivs[i].start < ivs[i].end <= |s| && Ordered(s, ivs[i].end, ivs[i + 1..])
    ensures var t, tokens := ivs[i].value, Values(ivs);
      RenderLexed(LexFrom(s, cursor, ivs[i..]), sourceTokens, tokens[..i])
      == DoublePercent(s[cursor..ivs[i].start]) + Slot(sourceTokens, t, multiset(tokens[..i])[t])
         + RenderLexed(LexFrom(s, ivs[i].end, ivs[i + 1..]), sourceTokens, tokens[..i + 1])
  {
    var tokens := Values(ivs);
    assert ivs[i..][0] == ivs[i] && ivs[i..][1..] == ivs[i + 1..];
    assert tokens[..i + 1] == tokens[..i] + [ivs[i].value];
  }

  ghost predicate IsTally(m: map<string, nat>, seen: seq<string>) {
    forall t :: Lookup(m, t, 0) == multiset(seen)[t]
  }

  lemma TallyGrows(m: map<string, nat>, seen: seq<string>, token: string)
    requires IsTally(m, seen)
    ensures IsTally(m[token := Lookup(m, token, 0) + 1], seen + [token])
  {
    var more := m[token := Lookup(m, token, 0) + 1];
    forall t ensures Lookup(more, t, 0) == multiset(seen + [token])[t] {
      assert Lookup(m, t, 0) == multiset(seen)[t];
    }
  }

  lemma RenderAtEnd(s: string, cursor: nat, sourceTokens: seq<string>, seen: seq<string>)
    requires Ordered(s, cursor, [])
    ensures cursor <= |s| && RenderLexed(LexFrom(s, cursor, []), sourceTokens, seen) == DoublePercent(s[cursor..])
  {
  }

  lemma Reassociate(a: string, b: string, c: string, d: string)
    ensures a + (b + c + d) == a + b + c + d
  {
  }

  /** The loop that replaces each interpolation of the translation. */
  method RenderPlaceholders(translated: string, ivs: seq<Interpolation>, sourceTokens: seq<string>)
    returns (rendered: string)
    requires Ordered(translated, 0, ivs)
    ensures rendered == RenderLexed(LexFrom(translated, 0, ivs), sourceTokens, [])
  {
    hide RenderLexed, LexFrom, Ordered, Positions, Placeholder, DoublePercent;
    var sourceIndices := SourceIndices(sourceTokens);
    var translatedOccurrences: map<string, nat> := map[];
    var cursor: nat := 0;
    rendered := "";
    ghost var tokens := Values(ivs);
    ghost var all := RenderLexed(LexFrom(translated, 0, ivs), sourceTokens, []);
    assert ivs[0..] == ivs && tokens[..0] == [];
    for i := 0 to |ivs|
      invariant Ordered(translated, cursor, ivs[i..])
      invariant IsTally(translatedOccurrences, tokens[..i])
      invariant all == rendered + RenderLexed(LexFrom(translated, cursor, ivs[i..]), sourceTokens, tokens[..i])
    {
      RenderStep(translated, cursor, ivs, i, sourceTokens);
      var interpolation := ivs[i];
      var token := interpolation.value;
      assert tokens[..i + 1] == tokens[..i] + [token];
      var gap := DoublePercent(translated[cursor..interpolation.start]);
      var occurrence := Lookup(translatedOccurrences, token, 0);
      assert occurrence == multiset(tokens[..i])[token];
      TallyGrows(translatedOccurrences, tokens[..i], token);
      translatedOccurrences := translatedOccurrences[token := occurrence + 1];
      var indices := Lookup(sourceIndices, token, []);
      var slot := Choose(indices, token, occurrence);
      ghost var rest := LexFrom(translated, interpolation.end, ivs[i + 1..]);
      ghost var later := RenderLexed(rest, sourceTokens, tokens[..i + 1]);
      Reassociate(rendered, gap, slot, later);
      rendered := rendered + gap;
      rendered := rendered + slot;
      cursor := interpolation.end;
    }
    assert ivs[|ivs|..] == [];
    RenderAtEnd(translated, cursor, sourceTokens, tokens[..|ivs|]);
    rendered := rendered + DoublePercent(translated[cursor..]);
  }

  method RenderAndroidResourceValue(source: string, translated: string) returns (r: Result<string>)
    ensures r == Rendered(source, translated)
  {
    var rendered := translated;
    var sourceInterpolations := ReadKotlinInterpolations(source);
    var translatedInterpolations := ReadKotlinInterpolations(translated);
    if sourceInterpolations.None? || translatedInterpolations.None? {
      return Err("unbalanced interpolation placeholders");
    }
    var sourceTokens := Values(sourceInterpolations.value);
    var translatedTokens := Values(translatedInterpolations.value);
    var sourceCounts := CountValues(sourceTokens);
    var translatedCounts := CountValues(translatedTokens);
    if Sort(KeyLe, sourceCounts) != Sort(KeyLe, translatedCounts) {
      return Err("changed interpolation placeholders");
    }
    if |sourceTokens| > 0 {
      ScanTiles(translated);
      rendered := RenderPlaceholders(translated, translatedInterpolations.value, sourceTokens);
    }
    r := Ok(Escape(rendered));
  }

  // ----- what Android's formatter makes of the text

  function DigitsEnd(f: string, i: nat): (e: nat)
    requires i <= |f|
    ensures i <= e <= |f| && forall k :: i <= k < e ==> IsDigit(f[k])
    ensures e < |f| ==> !IsDigit(f[e])
    decreases |f| - i
  {
    if i < |f| && IsDigit(f[i]) then DigitsEnd(f, i + 1) else i
  }

  function Put(s: string, rest: Option<string>): Option<string> {
    if rest.None? then None else Some(s + rest.value)
  }

  /** `%%` is a percent sign and `%k$s` the k-th argument; any other use of `%`, and a
      number without an argument, is an error. */
  function Format(f: string, args: seq<string>): Option<string>
    decreases |f|
  {
    if f == "" then Some("")
    else if f[0] != '%' then Put([f[0]], Format(f[1..], args))
    else if |f| >= 2 && f[1] == '%' then Put("%", Format(f[2..], args))
    else
      var d := DigitsEnd(f, 1);
      if d == 1 || d + 2 > |f| || f[d] != '$' || f[d + 1] != 's' then None
      else
        var k := Number(f[1..d]);
        if 1 <= k <= |args| then Put(args[k - 1], Format(f[d + 2..], args)) else None
  }

  lemma PutTwice(a: string, b: string, rest: Option<string>)
    ensures Put(a, Put(b, rest)) == Put(a + b, rest)
  {
    if rest.Some? {
      assert a + (b + rest.value) == a + b + rest.value;
    }
  }

  lemma {:induction false} FormatGap(g: string, rest: string, args: seq<string>)
    ensures Format(DoublePercent(g) + rest, args) == Put(g, Format(rest, args))
    decreases |g|
  {
    if g == "" {
      assert DoublePercent(g) + rest == rest;
      if Format(rest, args).Some? {
        assert "" + Format(rest, args).value == Format(rest, args).value;
      }
    } else {
      FormatGap(g[1..], rest, args);
      var tail := DoublePercent(g[1..]) + rest;
      assert g == [g[0]] + g[1..];
      PutTwice([g[0]], g[1..], Format(rest, args));
      if g[0] == '%' {
        ReplaceHit("%", g[1..], "%%");
        assert DoublePercent(g) + rest == "%%" + tail;
        assert ("%%" + tail)[2..] == tail;
      } else {
        ReplaceMiss(g[0], g[1..], "%", "%%");
        assert DoublePercent(g) + rest == [g[0]] + tail;
        assert ([g[0]] + tail)[1..] == tail;
      }
    }
  }

  lemma {:induction false} DigitsEndIs(f: string, i: nat, e: nat)
    requires i <= e < |f| && (forall k :: i <= k < e ==> IsDigit(f[k])) && !IsDigit(f[e])
    ensures DigitsEnd(f, i) == e
    decreases e - i
  {
    if i < e {
      DigitsEndIs(f, i + 1, e);
    }
  }

  lemma FormatPlaceholder(k: nat, rest: string, args: seq<string>)
    requires 1 <= k <= |args|
    ensures Format(Placeholder(k) + rest, args) == Put(args[k - 1], Format(rest, args))
  {
    var digits := Decimal(k);
    var f := Placeholder(k) + rest;
    var e := 1 + |digits|;
    assert f == "%" + digits + ("$s" + rest);
    assert f[1..e] == digits;
    assert forall j :: 1 <= j < e ==> f[j] == digits[j - 1];
    assert f[e] == '$' && f[e + 1] == 's';
    assert f[1] == digits[0] && IsDigit(digits[0]);
    DigitsEndIs(f, 1, e);
    NumberOfDecimal(k);
    assert f[e + 2..] == rest;
  }

  // ----- rendering with given numbers

  function RenderWith(l: Lexed, numbers: seq<nat>): string
    requires |numbers| == |Tokens(l)|
    decreases l
  {
    match l
    case Tail(g) => DoublePercent(g)
    case Piece(g, t, rest) => DoublePercent(g) + (Placeholder(numbers[0]) + RenderWith(rest, numbers[1..]))
  }

  // Each number names an argument that equals the token it stands for.
  predicate NumbersName(numbers: seq<nat>, tokens: seq<string>, args: seq<string>) {
    && |numbers| == |tokens|
    && forall j :: 0 <= j < |numbers| ==> 1 <= numbers[j] <= |args| && args[numbers[j] - 1] == tokens[j]
  }

  lemma FormatTail(g: string, args: seq<string>)
    ensures Format(DoublePercent(g), args) == Some(g)
  {
    hide DoublePercent;
    FormatGap(g, "", args);
    assert DoublePercent(g) + "" == DoublePercent(g) && g + "" == g;
  }

  lemma NamesRest(numbers: seq<nat>, tokens: seq<string>, args: seq<string>)
    requires NumbersName(numbers, tokens, args) && tokens != []
    ensures 1 <= numbers[0] <= |args| && args[numbers[0] - 1] == tokens[0]
    ensures NumbersName(numbers[1..], tokens[1..], args)
  {
    assert forall j :: 0 <= j < |numbers[1..]| ==> numbers[1..][j] == numbers[j + 1] && tokens[1..][j] == tokens[j + 1];
  }

  lemma FormatPiece(g: string, k: nat, after: string, args: seq<string>, w: string)
    requires 1 <= k <= |args| && Format(after, args) == Some(w)
    ensures Format(DoublePercent(g) + (Placeholder(k) + after), args) == Some(g + args[k - 1] + w)
  {
    hide Format, DoublePercent, Placeholder;
    FormatPlaceholder(k, after, args);
    FormatGap(g, Placeholder(k) + after, args);
    assert g + (args[k - 1] + w) == g + args[k - 1] + w;
  }

  lemma {:induction false} FormatRendered(l: Lexed, numbers: seq<nat>, args: seq<string>)
    requires NumbersName(numbers, Tokens(l), args)
    ensures Format(RenderWith(l, numbers), args) == Some(Weave(l))
    decreases l
  {
    hide Format, DoublePercent, Placeholder, NumbersName;
    NamesLength(numbers, Tokens(l), args);
    match l
    case Tail(g) =>
      FormatTail(g, args);
    case Piece(g, t, rest) =>
      NamesRest(numbers, Tokens(l), args);
      assert Tokens(l)[1..] == Tokens(rest);
      FormatRendered(rest, numbers[1..], args);
      FormatPiece(g, numbers[0], RenderWith(rest, numbers[1..]), args, Weave(rest));
  }

  lemma NamesLength(numbers: seq<nat>, tokens: seq<string>, args: seq<string>)
    requires NumbersName(numbers, tokens, args)
    ensures |numbers| == |tokens|
  {
  }

  // ----- the numbers the renderer chooses

  // The number of the j-th token: the same occurrence among the source's tokens.
  function Numbers(tokens: seq<string>, sourceTokens: seq<string>): (numbers: seq<nat>)
    ensures |numbers| == |tokens|
  {
    seq(|tokens|, j requires 0 <= j < |tokens| =>
      var ps, k := Positions(sourceTokens, tokens[j]), multiset(tokens[..j])[tokens[j]];
      if k < |ps| then ps[k] else 0)
  }

  lemma {:induction false} OccurrenceInRange(tokens: seq<string>, j: nat)
    requires j < |tokens|
    ensures multiset(tokens[..j])[tokens[j]] < multiset(tokens)[tokens[j]]
  {
    assert tokens == tokens[..j] + [tokens[j]] + tokens[j + 1..];
  }

  lemma NumberSpec(tokens: seq<string>, sourceTokens: seq<string>, j: nat)
    requires multiset(tokens) == multiset(sourceTokens) && j < |tokens|
    ensures var n := Numbers(tokens, sourceTokens)[j];
      && 1 <= n <= |sourceTokens| && sourceTokens[n - 1] == tokens[j]
      && multiset(sourceTokens[..n - 1])[tokens[j]] == multiset(tokens[..j])[tokens[j]]
      && n == Positions(sourceTokens, tokens[j])[multiset(tokens[..j])[tokens[j]]]
  {
    hide Positions;
    var t := tokens[j];
    var k := multiset(tokens[..j])[t];
    OccurrenceInRange(tokens, j);
    PositionsCount(sourceTokens, t);
    var ps := Positions(sourceTokens, t);
    assert k < |ps|;
    assert IsPosition(sourceTokens, t, ps[k], k);
  }

  // Earlier occurrences are counted strictly.
  lemma CountsGrow(tokens: seq<string>, i: nat, j: nat)
    requires i < j <= |tokens|
    ensures multiset(tokens[..i])[tokens[i]] < multiset(tokens[..j])[tokens[i]]
  {
    assert tokens[..j] == tokens[..i] + [tokens[i]] + tokens[i + 1..j];
  }

  lemma NumbersDistinct(tokens: seq<string>, sourceTokens: seq<string>)
    requires multiset(tokens) == multiset(sourceTokens)
    ensures NoDuplicates(Numbers(tokens, sourceTokens))
  {
    var numbers := Numbers(tokens, sourceTokens);
    forall i, j | 0 <= i < j < |numbers| ensures numbers[i] != numbers[j] {
      NumberSpec(tokens, sourceTokens, i);
      NumberSpec(tokens, sourceTokens, j);
      CountsGrow(tokens, i, j);
    }
  }

  lemma NumbersNamed(tokens: seq<string>, sourceTokens: seq<string>)
    requires multiset(tokens) == multiset(sourceTokens)
    ensures NumbersName(Numbers(tokens, sourceTokens), tokens, sourceTokens)
  {
    forall j | 0 <= j < |tokens|
      ensures var n := Numbers(tokens, sourceTokens)[j]; 1 <= n <= |sourceTokens| && sourceTokens[n - 1] == tokens[j]
    {
      NumberSpec(tokens, sourceTokens, j);
    }
  }

  function OneTo(n: nat): seq<nat> { seq(n, i => i + 1) }

  // Every source position is named: the way back is the same construction.
  lemma NumberReached(tokens: seq<string>, sourceTokens: seq<string>, i: nat)
    requires multiset(tokens) == multiset(sourceTokens) && i < |sourceTokens|
    ensures i + 1 in Numbers(tokens, sourceTokens)
  {
    var t := sourceTokens[i];
    NumberSpec(sourceTokens, tokens, i);
    var j := Numbers(sourceTokens, tokens)[i] - 1;
    NumberSpec(tokens, sourceTokens, j);
    var n := Numbers(tokens, sourceTokens)[j];
    assert multiset(sourceTokens[..n - 1])[t] == multiset(sourceTokens[..i])[t];
    if n - 1 < i {
      CountsGrow(sourceTokens, n - 1, i);
    } else if i < n - 1 {
      CountsGrow(sourceTokens, i, n - 1);
    }
    assert n == i + 1;
  }

  /** The placeholder numbers are a permutation of 1..n, and each names its own token. */
  lemma NumbersPermute(tokens: seq<string>, sourceTokens: seq<string>)
    requires multiset(tokens) == multiset(sourceTokens)
    ensures NumbersName(Numbers(tokens, sourceTokens), tokens, sourceTokens)
    ensures multiset(Numbers(tokens, sourceTokens)) == multiset(OneTo(|tokens|))
  {
    var numbers, all := Numbers(tokens, sourceTokens), OneTo(|tokens|);
    SameElements(tokens, sourceTokens);
    NumbersNamed(tokens, sourceTokens);
    NumbersDistinct(tokens, sourceTokens);
    forall n: nat ensures n in numbers <==> n in all {
      if n in numbers {
        assert all[n - 1] == n;
      }
      if n in all {
        NumberReached(tokens, sourceTokens, n - 1);
      }
    }
    SameSetSameMultiset(numbers, all);
  }

  // The fallback that keeps a token as it is never runs.
  lemma {:induction false} FallbackUnreachable(l: Lexed, sourceTokens: seq<string>, seen: seq<string>)
    requires multiset(seen + Tokens(l)) == multiset(sourceTokens)
    ensures RenderLexed(l, sourceTokens, seen) == RenderWith(l, Numbers(seen + Tokens(l), sourceTokens)[|seen|..])
    decreases l
  {
    var tokens := seen + Tokens(l);
    match l
    case Tail(g) =>
    case Piece(g, t, rest) =>
      hide Numbers, Positions, DoublePercent, Placeholder;
      var j := |seen|;
      assert tokens[j] == t && tokens[..j] == seen;
      NumberSpec(tokens, sourceTokens, j);
      assert tokens == seen + [t] + Tokens(rest);
      FallbackUnreachable(rest, sourceTokens, seen + [t]);
      OccurrenceInRange(tokens, j);
      PositionsCount(sourceTokens, t);
      var numbers := Numbers(tokens, sourceTokens);
      assert numbers[j..][0] == numbers[j] && numbers[j..][1..] == numbers[j + 1..];
      var slot, after := Placeholder(numbers[j]), RenderWith(rest, numbers[j + 1..]);
      assert DoublePercent(g) + slot + after == DoublePercent(g) + (slot + after);
  }

  /** The law behind the renderer, on tokenizations: whenever the arguments are the tokens
      in some order, formatting the rendered text gives the woven text back. */
  lemma RenderingKeepsMeaning(l: Lexed, args: seq<string>)
    requires multiset(Tokens(l)) == multiset(args)
    ensures Format(RenderLexed(l, args, []), args) == Some(Weave(l))
  {
    hide *;
    RenderedNumbers(l, Tokens(l), args);
    NumbersPermute(Tokens(l), args);
    FormatRendered(l, Numbers(Tokens(l), args), args);
  }

  lemma {:induction false} ValuesAreTokens(s: string, i: nat, ivs: seq<Interpolation>)
    requires Ordered(s, i, ivs)
    ensures Tokens(LexFrom(s, i, ivs)) == Values(ivs)
    decreases |ivs|
  {
    if ivs == [] {
    } else {
      ValuesAreTokens(s, ivs[0].end, ivs[1..]);
      assert Values(ivs) == [ivs[0].value] + Values(ivs[1..]);
    }
  }

  function SourceTokens(s: string): seq<string>
    requires Scan(s).Some?
  {
    Values(Scan(s).value)
  }

  // Both texts scan, and have the same tokens, each as often.
  ghost predicate Accepted(source: string, translated: string) {
    && Scan(source).Some? && Scan(translated).Some?
    && multiset(SourceTokens(source)) == multiset(SourceTokens(translated))
  }

  /** Rendering fails exactly when a scan fails or the multisets of tokens differ. */
  lemma RenderedIff(source: string, translated: string)
    ensures Rendered(source, translated).Ok? <==> Accepted(source, translated)
  {
    if Scan(source).Some? && Scan(translated).Some? {
      TokenCountsIff(SourceTokens(source), SourceTokens(translated));
    }
  }

  /** A text that does not scan is reported first; other tokens are reported next. */
  lemma RenderErrors(source: string, translated: string)
    ensures Rendered(source, translated) == Err("unbalanced interpolation placeholders")
      <==> Scan(source).None? || Scan(translated).None?
    ensures Rendered(source, translated) == Err("changed interpolation placeholders")
      <==> && Scan(source).Some? && Scan(translated).Some?
           && multiset(SourceTokens(source)) != multiset(SourceTokens(translated))
  {
    hide Scan, TokenCounts, RenderLexed, Escape;
    if Scan(source).Some? && Scan(translated).Some? {
      TokenCountsIff(SourceTokens(source), SourceTokens(translated));
    }
    assert "unbalanced interpolation placeholders"[0] != "changed interpolation placeholders"[0];
  }

  lemma LexTokens(s: string)
    requires Scan(s).Some?
    ensures Tokens(Lex(s).value) == SourceTokens(s)
  {
    ScanTiles(s);
    ValuesAreTokens(s, 0, Scan(s).value);
  }

  lemma RenderedNumbers(l: Lexed, tokens: seq<string>, args: seq<string>)
    requires Tokens(l) == tokens && multiset(tokens) == multiset(args)
    ensures RenderLexed(l, args, []) == RenderWith(l, Numbers(tokens, args))
  {
    assert [] + Tokens(l) == tokens;
    FallbackUnreachable(l, args, []);
    assert Numbers(tokens, args)[0..] == Numbers(tokens, args);
  }

  /** The text before escaping: the translation's gaps with every percent sign doubled,
      woven with placeholders whose numbers permute 1..n and name the tokens. */
  lemma RenderedText(source: string, translated: string)
    requires Accepted(source, translated) && Scan(source) != Some([])
    ensures var l, numbers := Lex(translated).value, Numbers(SourceTokens(translated), SourceTokens(source));
      && Tokens(l) == SourceTokens(translated)
      && NumbersName(numbers, Tokens(l), SourceTokens(source))
      && multiset(numbers) == multiset(OneTo(|SourceTokens(source)|))
      && Rendered(source, translated) == Ok(Escape(RenderWith(l, numbers)))
  {
    RenderedIff(source, translated);
    var l, args, tokens := Lex(translated).value, SourceTokens(source), SourceTokens(translated);
    LexTokens(translated);
    SameElements(tokens, args);
    NumbersPermute(tokens, args);
    RenderedNumbers(l, tokens, args);
  }

  /** Meaning is preserved: what is escaped formats, with the source's own tokens as
      arguments, to exactly the translation. */
  lemma RenderPreservesMeaning(source: string, translated: string)
    requires Accepted(source, translated) && Scan(source) != Some([])
    ensures var text := RenderLexed(Lex(translated).value, SourceTokens(source), []);
      && Rendered(source, translated) == Ok(Escape(text))
      && Format(text, SourceTokens(source)) == Some(translated)
  {
    hide RenderLexed, Format, Weave, ValidLex, Intervals;
    RenderedIff(source, translated);
    ScanTiles(translated);
    LexTokens(translated);
    RenderingKeepsMeaning(Lex(translated).value, SourceTokens(source));
  }

  // Rows whose source has no interpolation are marked formatted="false".
  function MarkedUnformatted(source: string): bool {
    var scan := Scan(source);
    scan.None? || scan.value == []
  }

  /** A text without tokens is escaped unchanged and its row is marked unformatted. */
  lemma NoTokensUnchanged(source: string, translated: string)
    requires Accepted(source, translated)
    ensures Scan(source) == Some([]) <==> Scan(translated) == Some([])
    ensures Scan(source) == Some([]) ==>
      Rendered(source, translated) == Ok(Escape(translated)) && MarkedUnformatted(source)
  {
    RenderedIff(source, translated);
    SameElements(SourceTokens(source), SourceTokens(translated));
  }
}
