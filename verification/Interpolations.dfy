/** The Kotlin interpolation scanner: `$name` and `${...}` with nested braces and
    quoted strings. The scanner is proved against a recursive scan, and the scan is
    proved to be the one and only tokenization of its input. */
module Interpolations {
  import opened Text

  datatype Interpolation = Interpolation(start: nat, end: nat, value: string)

  predicate IdentStart(c: char) {
    'A' <= c <= 'Z' || 'a' <= c <= 'z' || c == '_'
  }

  predicate IdentPart(c: char) {
    IdentStart(c) || IsDigit(c)
  }

  /** A name has letters and underscores, and digits behind its first character. */
  lemma NameCharacters(c: char)
    ensures IdentStart(c) <==> c in CAPITALS || c in SMALL || c == '_'
    ensures IdentPart(c) <==> c in CAPITALS || c in SMALL || c in DIGITS || c == '_'
  {
    CharactersListed(c);
  }

  // ----- the scan as a function

  // A `$` that opens an interpolation.
  predicate OpensAt(s: string, i: nat) {
    i + 1 < |s| && s[i] == '$' && (s[i + 1] == '{' || IdentStart(s[i + 1]))
  }

  function NameEnd(s: string, i: nat): (e: nat)
    requires i <= |s|
    ensures i <= e <= |s|
    ensures forall k :: i <= k < e ==> IdentPart(s[k])
    ensures e < |s| ==> !IdentPart(s[e])
    decreases |s| - i
  {
    if i < |s| && IdentPart(s[i]) then NameEnd(s, i + 1) else i
  }

  // Where the scanner stands inside a braced interpolation.
  datatype Brace = Brace(depth: nat, quote: Option<char>, escaped: bool)

  function Advance(b: Brace, c: char): Brace {
    if b.escaped then b.(escaped := false)
    else if b.quote.Some? && c == '\\' then b.(escaped := true)
    else if b.quote == Some(c) then b.(quote := None)
    else if b.quote.None? && (c == '"' || c == '\'') then b.(quote := Some(c))
    else if b.quote.None? && c == '{' then b.(depth := b.depth + 1)
    else if b.quote.None? && c == '}' && b.depth > 0 then b.(depth := b.depth - 1)
    else b
  }

  // The position after the brace that brings the depth to zero.
  function BraceEnd(s: string, i: nat, b: Brace): (e: Option<nat>)
    requires i <= |s| && b.depth > 0
    ensures e.Some? ==> i < e.value <= |s|
    decreases |s| - i
  {
    if i == |s| then None
    else
      var b' := Advance(b, s[i]);
      if b'.depth == 0 then Some(i + 1) else BraceEnd(s, i + 1, b')
  }

  const OPENED := Brace(1, None, false)

  // The end of the interpolation that opens at `i`.
  function TokenEnd(s: string, i: nat): (e: Option<nat>)
    requires OpensAt(s, i)
    ensures e.Some? ==> i + 1 < e.value <= |s|
  {
    if s[i + 1] == '{' then BraceEnd(s, i + 2, OPENED) else Some(NameEnd(s, i + 2))
  }

  function ScanFrom(s: string, i: nat): Option<seq<Interpolation>>
    requires i <= |s|
    decreases |s| - i
  {
    if i == |s| then Some([])
    else if !OpensAt(s, i) then ScanFrom(s, i + 1)
    else
      var e := TokenEnd(s, i);
      if e.None? then None
      else
        var rest := ScanFrom(s, e.value);
        if rest.None? then None
        else Some([Interpolation(i, e.value, s[i..e.value])] + rest.value)
  }

  function Scan(s: string): Option<seq<Interpolation>> {
    ScanFrom(s, 0)
  }

  function Prepend(done: seq<Interpolation>, rest: Option<seq<Interpolation>>): Option<seq<Interpolation>> {
    if rest.None? then None else Some(done + rest.value)
  }

  // ----- the scanner itself

  /** The inner loop over one braced interpolation. On a closing brace at depth zero
      it breaks with `index` on that brace; otherwise it runs off the end. */
  method ReadBraced(source: string, start: nat) returns (closed: bool, index: nat)
    requires OpensAt(source, start) && source[start + 1] == '{'
    ensures closed <==> TokenEnd(source, start).Some?
    ensures closed ==> TokenEnd(source, start) == Some(index + 1)
  {
    var depth: nat := 1;
    var quote: Option<char> := None;
    var escaped := false;
    index := start + 2;
    while index < |source|
      invariant start + 2 <= index <= |source|
      invariant depth > 0
      invariant BraceEnd(source, start + 2, OPENED) == BraceEnd(source, index, Brace(depth, quote, escaped))
    {
      var character := source[index];
      if escaped {
        escaped := false;
      } else if quote.Some? && character == '\\' {
        escaped := true;
      } else if quote == Some(character) {
        quote := None;
      } else if quote.None? && (character == '"' || character == '\'') {
        quote := Some(character);
      } else if quote.None? && character == '{' {
        depth := depth + 1;
      } else if quote.None? && character == '}' {
        depth := depth - 1;
        if depth == 0 {
          return true, index;
        }
      }
      index := index + 1;
    }
    closed := false;
  }

  /** `index` is put back by one after a name and left on the closing brace after a
      braced interpolation, because the loop itself advances it. */
  method ReadKotlinInterpolations(source: string) returns (r: Option<seq<Interpolation>>)
    ensures r == Scan(source)
  {
    var interpolations: seq<Interpolation> := [];
    var index: nat := 0;
    PrependNothing(Scan(source));
    while index < |source|
      invariant index <= |source|
      invariant Scan(source) == Prepend(interpolations, ScanFrom(source, index))
      decreases |source| - index
    {
      if source[index] != '$' {
        index := index + 1;
        continue;
      }
      if index + 1 == |source| || (source[index + 1] != '{' && !IdentStart(source[index + 1])) {
        index := index + 1;
        continue;
      }
      var start := index;
      ghost var before := interpolations;
      if source[index + 1] != '{' {
        index := index + 2;
        while index < |source| && IdentPart(source[index])
          invariant start + 2 <= index <= |source|
          invariant NameEnd(source, start + 2) == NameEnd(source, index)
        {
          index := index + 1;
        }
        interpolations := interpolations + [Interpolation(start, index, source[start..index])];
        index := index - 1;
      } else {
        var closed;
        closed, index := ReadBraced(source, start);
        if !closed {
          return None;
        }
        interpolations := interpolations + [Interpolation(start, index + 1, source[start..index + 1])];
      }
      var found := Interpolation(start, index + 1, source[start..index + 1]);
      PrependAssociates(before, [found], ScanFrom(source, index + 1));
      index := index + 1;
    }
    assert interpolations + [] == interpolations;
    return Some(interpolations);
  }

  lemma PrependNothing(rest: Option<seq<Interpolation>>)
    ensures Prepend([], rest) == rest
  {
    if rest.Some? {
      assert [] + rest.value == rest.value;
    }
  }

  lemma PrependAssociates(done: seq<Interpolation>, more: seq<Interpolation>, rest: Option<seq<Interpolation>>)
    ensures Prepend(done, Prepend(more, rest)) == Prepend(done + more, rest)
  {
    if rest.Some? {
      assert done + (more + rest.value) == done + more + rest.value;
    }
  }

  // ----- the reference: a text is plain gaps woven with tokens

  datatype Lexed = Tail(gap: string) | Piece(gap: string, token: string, rest: Lexed)

  function Weave(l: Lexed): string {
    match l
    case Tail(g) => g
    case Piece(g, t, rest) => g + t + Weave(rest)
  }

  function Tokens(l: Lexed): seq<string> {
    match l
    case Tail(_) => []
    case Piece(_, t, rest) => [t] + Tokens(rest)
  }

  predicate IsName(t: string) {
    |t| >= 2 && t[0] == '$' && IdentStart(t[1]) && forall k :: 2 <= k < |t| ==> IdentPart(t[k])
  }

  predicate IsBraced(t: string) {
    |t| >= 2 && t[0] == '$' && t[1] == '{' && BraceEnd(t, 2, OPENED) == Some(|t|)
  }

  predicate IsToken(t: string) { IsName(t) || IsBraced(t) }

  ghost predicate IsPlain(g: string) {
    forall i: nat :: !OpensAt(g, i)
  }

  // Tokens are tokens, gaps open nothing, and a name is as long as it can be.
  ghost predicate ValidLex(l: Lexed, afterName: bool) {
    && IsPlain(l.gap)
    && (afterName && l.gap != "" ==> !IdentPart(l.gap[0]))
    && (l.Piece? ==> IsToken(l.token) && ValidLex(l.rest, IsName(l.token)))
  }

  function Intervals(l: Lexed, offset: nat): seq<Interpolation> {
    match l
    case Tail(_) => []
    case Piece(g, t, rest) =>
      var start := offset + |g|;
      [Interpolation(start, start + |t|, t)] + Intervals(rest, start + |t|)
  }

  // ----- every valid tokenization is the one the scan finds

  lemma {:induction false} SkipGap(s: string, i: nat, j: nat)
    requires i <= j <= |s|
    requires forall k :: i <= k < j ==> !OpensAt(s, k)
    ensures ScanFrom(s, i) == ScanFrom(s, j)
    decreases j - i
  {
    if i < j {
      SkipGap(s, i + 1, j);
    }
  }

  // A braced token ends at the same brace wherever it stands.
  lemma {:induction false} BraceEndShifts(t: string, k: nat, b: Brace, s: string, at: nat)
    requires k <= |t| && b.depth > 0
    requires at + |t| <= |s| && s[at..at + |t|] == t
    requires BraceEnd(t, k, b) == Some(|t|)
    ensures BraceEnd(s, at + k, b) == Some(at + |t|)
    decreases |t| - k
  {
    assert k < |t|;
    assert t[k] == s[at + k];
    var b' := Advance(b, t[k]);
    if b'.depth > 0 {
      BraceEndShifts(t, k + 1, b', s, at);
    }
  }

  // Text that may follow a tokenization: nothing, or something starting with `$`.
  predicate MayFollow(u: string) { u == "" || u[0] == '$' }

  lemma TokenAt(s: string, at: nat, t: string, rest: Lexed, u: string)
    requires at <= |s| && s[at..] == t + Weave(rest) + u
    requires IsToken(t) && ValidLex(rest, IsName(t)) && MayFollow(u)
    ensures OpensAt(s, at) && TokenEnd(s, at) == Some(at + |t|) && s[at..at + |t|] == t
  {
    var after := Weave(rest) + u;
    assert s[at..] == t + after;
    assert forall k :: 0 <= k < |t| ==> s[at + k] == s[at..][k] == t[k];
    assert s[at..at + |t|] == t;
    assert s[at + 1] == t[1];
    if IsName(t) {
      if after != "" {
        assert s[at + |t|] == s[at..][|t|] == after[0];
      }
      forall k | at + 2 <= k < at + |t| ensures IdentPart(s[k]) {
        assert s[k] == t[k - at];
      }
    } else {
      BraceEndShifts(t, 2, OPENED, s, at);
    }
  }

  lemma GapOpensNothing(s: string, i: nat, g: string, after: string)
    requires i <= |s| && s[i..] == g + after && IsPlain(g) && MayFollow(after)
    ensures forall k :: i <= k < i + |g| ==> !OpensAt(s, k)
  {
    forall k | i <= k < i + |g| ensures !OpensAt(s, k) {
      assert !OpensAt(g, k - i);
      assert s[k] == s[i..][k - i] == g[k - i];
      if k + 1 < i + |g| {
        assert s[k + 1] == s[i..][k + 1 - i] == g[k + 1 - i];
      } else if after != "" {
        assert s[k + 1] == s[i..][|g|] == after[0];
      }
    }
  }

  lemma TokenFollows(t: string, after: string)
    requires IsToken(t)
    ensures MayFollow(t + after)
  {
  }

  lemma ScanToken(s: string, i: nat)
    requires OpensAt(s, i) && TokenEnd(s, i).Some?
    ensures var e := TokenEnd(s, i).value;
      ScanFrom(s, i) == Prepend([Interpolation(i, e, s[i..e])], ScanFrom(s, e))
  {
    hide TokenEnd;
  }

  lemma PassPiece(s: string, i: nat, g: string, t: string, rest: Lexed, u: string)
    requires i <= |s| && s[i..] == g + (t + Weave(rest) + u) && MayFollow(u)
    requires IsPlain(g) && IsToken(t) && ValidLex(rest, IsName(t))
    ensures var e := i + |g| + |t|;
      && e <= |s| && s[e..] == Weave(rest) + u
      && ScanFrom(s, i) == Prepend([Interpolation(i + |g|, e, t)], ScanFrom(s, e))
  {
    hide *;
    var at := i + |g|;
    var after := Weave(rest) + u;
    assert t + Weave(rest) + u == t + after;
    TokenFollows(t, after);
    GapOpensNothing(s, i, g, t + after);
    SkipGap(s, i, at);
    assert s[at..] == s[i..][|g|..] == t + after;
    TokenAt(s, at, t, rest, u);
    ScanToken(s, at);
    assert s[at + |t|..] == s[at..][|t|..] == after;
  }

  lemma PassTail(s: string, i: nat, g: string, u: string)
    requires i <= |s| && s[i..] == g + u && MayFollow(u) && IsPlain(g)
    ensures i + |g| <= |s| && ScanFrom(s, i) == Prepend([], ScanFrom(s, i + |g|))
  {
    hide *;
    assert |s[i..]| == |g| + |u|;
    GapOpensNothing(s, i, g, u);
    SkipGap(s, i, i + |g|);
    PrependNothing(ScanFrom(s, i + |g|));
  }

  // The scan passes through the pieces of any tokenization one by one.
  lemma {:induction false} ScanPasses(s: string, i: nat, l: Lexed, afterName: bool, u: string)
    requires i <= |s| && s[i..] == Weave(l) + u && MayFollow(u)
    requires ValidLex(l, afterName)
    ensures i + |Weave(l)| <= |s|
    ensures ScanFrom(s, i) == Prepend(Intervals(l, i), ScanFrom(s, i + |Weave(l)|))
    decreases l
  {
    hide ScanFrom, IsToken, IsPlain, MayFollow, Prepend;
    match l
    case Tail(g) =>
      PassTail(s, i, g, u);
    case Piece(g, t, rest) =>
      assert Weave(l) + u == g + (t + Weave(rest) + u);
      PassPiece(s, i, g, t, rest, u);
      var e := i + |g| + |t|;
      ScanPasses(s, e, rest, IsName(t), u);
      PrependAssociates([Interpolation(i + |g|, e, t)], Intervals(rest, e), ScanFrom(s, e + |Weave(rest)|));
  }

  // ----- what the scan finds is a valid tokenization

  // Intervals are in bounds, increasing, disjoint, and carry their text.
  predicate Ordered(s: string, i: nat, ivs: seq<Interpolation>)
    decreases |ivs|
  {
    && i <= |s|
    && (ivs != [] ==>
          && i <= ivs[0].start < ivs[0].end <= |s|
          && ivs[0].value == s[ivs[0].start..ivs[0].end]
          && Ordered(s, ivs[0].end, ivs[1..]))
  }

  function LexFrom(s: string, i: nat, ivs: seq<Interpolation>): Lexed
    requires Ordered(s, i, ivs)
    decreases |ivs|
  {
    if ivs == [] then Tail(s[i..])
    else Piece(s[i..ivs[0].start], ivs[0].value, LexFrom(s, ivs[0].end, ivs[1..]))
  }

  lemma {:induction false} LexWeaves(s: string, i: nat, ivs: seq<Interpolation>)
    requires Ordered(s, i, ivs)
    ensures Weave(LexFrom(s, i, ivs)) == s[i..]
    ensures Intervals(LexFrom(s, i, ivs), i) == ivs
    decreases |ivs|
  {
    if ivs == [] {
    } else {
      LexWeaves(s, ivs[0].end, ivs[1..]);
      assert s[i..] == s[i..ivs[0].start] + s[ivs[0].start..ivs[0].end] + s[ivs[0].end..];
      assert ivs == [ivs[0]] + ivs[1..];
    }
  }

  // A braced token still ends at its own brace when cut out.
  lemma {:induction false} BraceEndCuts(s: string, at: nat, i: nat, b: Brace)
    requires at <= i <= |s| && b.depth > 0
    requires BraceEnd(s, i, b).Some?
    ensures var e := BraceEnd(s, i, b).value; BraceEnd(s[at..e], i - at, b) == Some(e - at)
    decreases |s| - i
  {
    var e := BraceEnd(s, i, b).value;
    var t := s[at..e];
    assert t[i - at] == s[i];
    var b' := Advance(b, s[i]);
    if b'.depth > 0 {
      BraceEndCuts(s, at, i + 1, b');
    }
  }

  lemma TokenIsToken(s: string, i: nat)
    requires OpensAt(s, i) && TokenEnd(s, i).Some?
    ensures var e := TokenEnd(s, i).value;
      IsToken(s[i..e]) && (IsName(s[i..e]) && e < |s| ==> !IdentPart(s[e]))
  {
    var e := TokenEnd(s, i).value;
    var t := s[i..e];
    assert t[0] == s[i] && t[1] == s[i + 1];
    if s[i + 1] == '{' {
      BraceEndCuts(s, i, i + 2, OPENED);
    } else {
      assert forall k :: 2 <= k < |t| ==> t[k] == s[i + k];
    }
  }

  lemma {:induction false} ScanIsValidFrom(s: string, i: nat, afterName: bool)
    requires i <= |s| && ScanFrom(s, i).Some?
    requires afterName && i < |s| ==> !IdentPart(s[i])
    ensures Ordered(s, i, ScanFrom(s, i).value)
    ensures ValidLex(LexFrom(s, i, ScanFrom(s, i).value), afterName)
    decreases |s| - i
  {
    var ivs := ScanFrom(s, i).value;
    if i == |s| {
    } else if !OpensAt(s, i) {
      ScanIsValidFrom(s, i + 1, false);
      var l := LexFrom(s, i, ivs);
      var l' := LexFrom(s, i + 1, ivs);
      assert l.gap == [s[i]] + l'.gap;
      forall k: nat ensures !OpensAt(l.gap, k) {
        if k > 0 {
          assert !OpensAt(l'.gap, k - 1);
        } else if |l.gap| > 1 {
          assert l.gap[1] == s[i + 1];
        }
      }
    } else {
      var e := TokenEnd(s, i).value;
      TokenIsToken(s, i);
      ScanIsValidFrom(s, e, IsName(s[i..e]));
      assert ivs[0] == Interpolation(i, e, s[i..e]) && ivs[1..] == ScanFrom(s, e).value;
      assert s[i..i] == "";
    }
  }

  // ----- the main results

  /** The tokenization the scan stands for. */
  function Lex(s: string): Option<Lexed> {
    var ivs := Scan(s);
    if ivs.None? then None
    else
      ScanIsValidFrom(s, 0, false);
      Some(LexFrom(s, 0, ivs.value))
  }

  /** Gaps woven with the found values rebuild the text. The intervals are increasing,
      disjoint and in bounds, every value is a token and no gap opens one. */
  lemma ScanTiles(s: string)
    requires Scan(s).Some?
    ensures Ordered(s, 0, Scan(s).value)
    ensures ValidLex(Lex(s).value, false)
    ensures Weave(Lex(s).value) == s
    ensures Intervals(Lex(s).value, 0) == Scan(s).value
  {
    ScanIsValidFrom(s, 0, false);
    LexWeaves(s, 0, Scan(s).value);
    assert s[0..] == s;
  }

  /** No other tokenization exists: the scan succeeds exactly on texts that have a
      valid one, and returns its intervals. */
  lemma ScanIsUnique(s: string, l: Lexed)
    requires Weave(l) == s && ValidLex(l, false)
    ensures Scan(s) == Some(Intervals(l, 0))
    ensures Lex(s) == Some(l)
  {
    assert s[0..] == Weave(l) + "";
    ScanPasses(s, 0, l, false, "");
    assert Prepend(Intervals(l, 0), Some([])) == Some(Intervals(l, 0) + []);
    assert Intervals(l, 0) + [] == Intervals(l, 0);
    ScanIsValidFrom(s, 0, false);
    LexWeaves(s, 0, Intervals(l, 0));
    IntervalsDetermine(s, 0, l);
  }

  lemma {:induction false} IntervalsDetermine(s: string, i: nat, l: Lexed)
    requires i <= |s| && s[i..] == Weave(l)
    requires Ordered(s, i, Intervals(l, i))
    ensures LexFrom(s, i, Intervals(l, i)) == l
    decreases l
  {
    if l.Piece? {
      var start := i + |l.gap|;
      var e := start + |l.token|;
      assert s[i..start] == s[i..][..|l.gap|] == l.gap;
      assert Intervals(l, i)[1..] == Intervals(l.rest, e);
      assert s[e..] == s[i..][e - i..] == Weave(l.rest);
      IntervalsDetermine(s, e, l.rest);
    }
  }

  // After a tokenized prefix, an interpolation opens that is never closed.
  ghost predicate UnclosedAt(s: string, prefix: Lexed, i: nat) {
    && i <= |s| && s[..i] == Weave(prefix) && ValidLex(prefix, false)
    && OpensAt(s, i) && TokenEnd(s, i).None?
  }

  /** The scan fails exactly when some `${` that stands outside every token never closes. */
  lemma ScanFailsOnlyUnclosed(s: string)
    ensures Scan(s).None? <==>
      exists l, i: nat :: UnclosedAt(s, l, i)
  {
    if Scan(s).None? {
      assert s[..0] == Weave(Tail(""));
      var l, i := UnclosedWitness(s, 0, Tail(""));
      assert UnclosedAt(s, l, i);
    }
    forall l, i: nat | UnclosedAt(s, l, i) ensures Scan(s).None? {
      assert s[0..] == Weave(l) + s[i..] && |Weave(l)| == i;
      ScanPasses(s, 0, l, false, s[i..]);
    }
  }

  // Adds text at the end of a tokenization.
  function AppendGap(l: Lexed, c: char): Lexed {
    match l
    case Tail(g) => Tail(g + [c])
    case Piece(g, t, rest) => Piece(g, t, AppendGap(rest, c))
  }

  function AppendToken(l: Lexed, token: string): Lexed {
    match l
    case Tail(g) => Piece(g, token, Tail(""))
    case Piece(g, t, rest) => Piece(g, t, AppendToken(rest, token))
  }

  function LastGap(l: Lexed): string {
    match l
    case Tail(g) => g
    case Piece(_, _, rest) => LastGap(rest)
  }

  function EndsWithName(l: Lexed, afterName: bool): bool {
    match l
    case Tail(g) => afterName && g == ""
    case Piece(_, t, rest) => EndsWithName(rest, IsName(t))
  }

  lemma {:induction false} AppendGapValid(l: Lexed, c: char, afterName: bool)
    requires ValidLex(l, afterName)
    requires LastGap(l) != "" && LastGap(l)[|LastGap(l)| - 1] == '$' ==> c != '{' && !IdentStart(c)
    requires EndsWithName(l, afterName) ==> !IdentPart(c)
    ensures ValidLex(AppendGap(l, c), afterName)
    ensures Weave(AppendGap(l, c)) == Weave(l) + [c]
    ensures LastGap(AppendGap(l, c)) == LastGap(l) + [c]
    ensures !EndsWithName(AppendGap(l, c), afterName)
  {
    match l
    case Tail(g) =>
      forall k: nat ensures !OpensAt(g + [c], k) {
        assert !OpensAt(g, k);
      }
    case Piece(g, t, rest) =>
      AppendGapValid(rest, c, IsName(t));
      assert g + t + (Weave(rest) + [c]) == g + t + Weave(rest) + [c];
  }

  lemma {:induction false} AppendTokenValid(l: Lexed, token: string, afterName: bool)
    requires ValidLex(l, afterName) && IsToken(token)
    ensures ValidLex(AppendToken(l, token), afterName)
    ensures Weave(AppendToken(l, token)) == Weave(l) + token
    ensures LastGap(AppendToken(l, token)) == ""
    ensures EndsWithName(AppendToken(l, token), afterName) == IsName(token)
  {
    match l
    case Tail(g) =>
      assert g + token + "" == g + token;
    case Piece(g, t, rest) =>
      AppendTokenValid(rest, token, IsName(t));
      assert g + t + (Weave(rest) + token) == g + t + Weave(rest) + token;
  }

  lemma ScanAtEnd(s: string)
    ensures ScanFrom(s, |s|).Some?
  {
  }

  // From a failing position, walks to the opener that never closes.
  lemma {:induction false} UnclosedWitness(s: string, i: nat, l: Lexed) returns (l': Lexed, i': nat)
    requires i <= |s| && s[..i] == Weave(l) && ValidLex(l, false)
    requires EndsWithName(l, false) && i < |s| ==> !IdentPart(s[i])
    requires LastGap(l) != "" && LastGap(l)[|LastGap(l)| - 1] == '$' && i < |s| ==> s[i] != '{' && !IdentStart(s[i])
    requires ScanFrom(s, i).None?
    ensures i' <= |s| && s[..i'] == Weave(l') && ValidLex(l', false)
    ensures OpensAt(s, i') && TokenEnd(s, i').None?
    decreases |s| - i
  {
    hide ScanFrom, TokenEnd, ValidLex, Weave, AppendGap, AppendToken, EndsWithName, LastGap, IsToken, IsName;
    if i == |s| {
      ScanAtEnd(s);
    }
    if !OpensAt(s, i) {
      SkipGap(s, i, i + 1);
      AppendGapValid(l, s[i], false);
      assert s[..i + 1] == s[..i] + [s[i]];
      l', i' := UnclosedWitness(s, i + 1, AppendGap(l, s[i]));
    } else if TokenEnd(s, i).None? {
      return l, i;
    } else {
      var e := TokenEnd(s, i).value;
      ScanToken(s, i);
      TokenIsToken(s, i);
      AppendTokenValid(l, s[i..e], false);
      assert s[..e] == s[..i] + s[i..e];
      l', i' := UnclosedWitness(s, e, AppendToken(l, s[i..e]));
    }
  }

  /** Scanning a found value again finds that value alone, over its whole length. */
  lemma RescanToken(s: string, k: nat)
    requires Scan(s).Some? && k < |Scan(s).value|
    ensures var v := Scan(s).value[k].value;
      Scan(v) == Some([Interpolation(0, |v|, v)])
  {
    ScanTiles(s);
    TokenOfPiece(Lex(s).value, 0, false, k);
    var v := Scan(s).value[k].value;
    var l := Piece("", v, Tail(""));
    assert Weave(l) == v;
    ScanIsUnique(v, l);
    assert Intervals(l, 0) == [Interpolation(0, |v|, v)];
  }

  lemma {:induction false} TokenOfPiece(l: Lexed, offset: nat, afterName: bool, k: nat)
    requires ValidLex(l, afterName) && k < |Intervals(l, offset)|
    ensures IsToken(Intervals(l, offset)[k].value)
    decreases l
  {
    if k == 0 {
    } else {
      TokenOfPiece(l.rest, offset + |l.gap| + |l.token|, IsName(l.token), k - 1);
    }
  }

  function Gaps(l: Lexed): seq<string> {
    match l
    case Tail(g) => [g]
    case Piece(g, _, rest) => [g] + Gaps(rest)
  }

  /** Scanning any gap again finds nothing. */
  lemma RescanGap(s: string, k: nat)
    requires Scan(s).Some? && k < |Gaps(Lex(s).value)|
    ensures Scan(Gaps(Lex(s).value)[k]) == Some([])
  {
    ScanTiles(s);
    GapIsPlain(Lex(s).value, false, k);
    ScanIsUnique(Gaps(Lex(s).value)[k], Tail(Gaps(Lex(s).value)[k]));
  }

  lemma {:induction false} GapIsPlain(l: Lexed, afterName: bool, k: nat)
    requires ValidLex(l, afterName) && k < |Gaps(l)|
    ensures IsPlain(Gaps(l)[k])
    decreases l
  {
    if k == 0 {
    } else {
      GapIsPlain(l.rest, IsName(l.token), k - 1);
    }
  }
}
