/** The quote-aware scanners of the temporary-path guardrail: the parenthesis that closes
    a call, and the call's top-level arguments. */
module ArgumentScanner {
  import opened Text

  // ----- quotes

  predicate IsQuote(c: char) { c == '\'' || c == '"' || c == '`' }

  datatype Quote = Quote(quote: Option<char>, escaped: bool)

  function Consumed(q: Quote, c: char): Quote {
    if q.quote.None? then q
    else if q.escaped then q.(escaped := false)
    else if c == '\\' then q.(escaped := true)
    else if q.quote == Some(c) then q.(quote := None)
    else q
  }

  function NextQuote(q: Quote, c: char): Quote {
    if q.quote.Some? then Consumed(q, c) else if IsQuote(c) then q.(quote := Some(c)) else q
  }

  class QuoteScanState {
    var quote: Option<char>
    var escaped: bool

    function Abs(): Quote
      reads this
    {
      Quote(quote, escaped)
    }

    constructor ()
      ensures Abs() == Quote(None, false)
    {
      quote, escaped := None, false;
    }

    method BeginQuotedSection(ch: char) returns (began: bool)
      modifies this
      ensures began <==> ch == '\'' || ch == '"' || ch == '`'
      ensures Abs() == if began then old(Abs()).(quote := Some(ch)) else old(Abs())
    {
      if ch != '\'' && ch != '"' && ch != '`' {
        return false;
      }
      quote := Some(ch);
      return true;
    }

    method ConsumeQuotedChar(ch: char) returns (quoted: bool)
      modifies this
      ensures quoted <==> old(quote).Some?
      ensures Abs() == Consumed(old(Abs()), ch)
    {
      if quote.None? {
        return false;
      }
      if escaped {
        escaped := false;
        return true;
      }
      if ch == '\\' {
        escaped := true;
        return true;
      }
      if quote == Some(ch) {
        quote := None;
      }
      return true;
    }
  }

  // ----- parentheses

  // The quote state after the first `k` characters, and the parentheses open there.
  function QuoteAt(t: string, k: nat): Quote
    requires k <= |t|
  {
    if k == 0 then Quote(None, false) else NextQuote(QuoteAt(t, k - 1), t[k - 1])
  }

  predicate IsCode(t: string, k: nat)
    requires k < |t|
  {
    QuoteAt(t, k).quote.None? && !IsQuote(t[k])
  }

  // Unquoted openings minus closings of one kind of bracket among the first `k` characters.
  function Depth(t: string, k: nat, opening: char, closing: char): int
    requires k <= |t|
  {
    if k == 0 then 0
    else
      var d := Depth(t, k - 1, opening, closing);
      if !IsCode(t, k - 1) then d
      else if t[k - 1] == opening then d + 1
      else if t[k - 1] == closing then d - 1
      else d
  }

  function Parens(t: string, k: nat): int
    requires k <= |t|
  {
    Depth(t, k, '(', ')')
  }

  /** Unquoted brackets of one kind pair up, and no quote is left open. */
  predicate Balanced(t: string, opening: char, closing: char) {
    && QuoteAt(t, |t|).quote.None? && Depth(t, |t|, opening, closing) == 0
    && forall k: nat :: k <= |t| ==> Depth(t, k, opening, closing) >= 0
  }

  predicate IsBalanced(t: string) { Balanced(t, '(', ')') }

  // A closing bracket at `i` after balanced text from `start`.
  predicate ClosesAs(source: string, start: nat, i: nat, opening: char, closing: char) {
    start <= i < |source| && source[i] == closing && Balanced(source[start..i], opening, closing)
  }

  predicate Closes(source: string, start: nat, i: nat) { ClosesAs(source, start, i, '(', ')') }

  ghost predicate NeverCloses(source: string, start: nat) {
    forall i: nat :: !Closes(source, start, i)
  }

  // A prefix is scanned the same way.
  lemma PrefixScans(t: string, u: string, k: nat)
    requires k <= |t| <= |u| && u[..|t|] == t
    ensures QuoteAt(t, k) == QuoteAt(u, k) && Parens(t, k) == Parens(u, k)
  {
    PrefixDepth(t, u, k, '(', ')');
  }

  lemma {:induction false} PrefixDepth(t: string, u: string, k: nat, opening: char, closing: char)
    requires k <= |t| <= |u| && u[..|t|] == t
    ensures QuoteAt(t, k) == QuoteAt(u, k) && Depth(t, k, opening, closing) == Depth(u, k, opening, closing)
    decreases k
  {
    if k == 0 {
    } else {
      PrefixDepth(t, u, k - 1, opening, closing);
      assert t[k - 1] == u[..|t|][k - 1] == u[k - 1];
    }
  }

  // Where the rest of the text stands at `k`, and that nothing closed before it.
  ghost predicate StillOpen(t: string, k: nat) {
    k <= |t| && forall j: nat :: j <= k ==> Parens(t, j) >= 0
  }

  lemma ClosesIff(t: string, k: nat)
    requires k < |t| && StillOpen(t, k)
    ensures t[k] == ')' && IsBalanced(t[..k]) <==> IsCode(t, k) && t[k] == ')' && Parens(t, k) == 0
  {
    forall j: nat | j <= k
      ensures QuoteAt(t[..k], j) == QuoteAt(t, j) && Depth(t[..k], j, '(', ')') == Depth(t, j, '(', ')')
    {
      PrefixDepth(t[..k], t, j, '(', ')');
    }
    assert forall j: nat :: j <= k ==> Parens(t, j) == Depth(t, j, '(', ')');
  }

  /** The position that closes the call, or -1 exactly when there is none. */
  method FindMatchingParen(source: string, openIndex: nat) returns (r: int)
    ensures r == -1 || (r >= 0 && Closes(source, openIndex + 1, r))
    ensures r == -1 <==> NeverCloses(source, openIndex + 1)
  {
    var start := openIndex + 1;
    if start > |source| {
      return -1;
    }
    var depth := 1;
    var quoteState := new QuoteScanState();
    ghost var t := source[start..];
    for i := start to |source|
      invariant fresh(quoteState) && quoteState.Abs() == QuoteAt(t, i - start)
      invariant depth == 1 + Parens(t, i - start) && depth >= 1
      invariant StillOpen(t, i - start)
      invariant forall k: nat :: k < i ==> !Closes(source, start, k)
    {
      var ch := source[i];
      ghost var k: nat := i - start;
      assert t[k] == ch && t[..k] == source[start..i];
      ClosesIff(t, k);
      var quoted := quoteState.ConsumeQuotedChar(ch);
      if quoted {
        continue;
      }
      var began := quoteState.BeginQuotedSection(ch);
      if began {
        continue;
      }
      if ch == '(' {
        depth := depth + 1;
        continue;
      }
      if ch == ')' {
        depth := depth - 1;
        if depth == 0 {
          assert Closes(source, start, i);
          return i;
        }
      }
    }
    return -1;
  }

  // One more character past a closing position leaves more closings than openings.
  lemma OverclosedAfter(source: string, start: nat, i: nat, n: nat)
    requires Closes(source, start, i) && i < n <= |source|
    ensures Parens(source[start..n], i - start + 1) == -1
  {
    var t, k := source[start..n], i - start;
    assert t[..k] == source[start..i] && t[k] == source[i];
    PrefixScans(t[..k], t, k);
    assert IsCode(t, k) && Parens(t, k) == 0;
  }

  /** At most one position closes a call. */
  lemma ClosesUnique(source: string, start: nat, i: nat, j: nat)
    requires Closes(source, start, i) && Closes(source, start, j)
    ensures i == j
  {
    if i < j {
      OverclosedAfter(source, start, i, j);
    } else if j < i {
      OverclosedAfter(source, start, j, i);
    }
  }

  // ----- top-level arguments

  // Closing a bracket that is not open changes nothing.
  datatype Nesting = Nesting(q: Quote, parens: nat, brackets: nat, braces: nat)

  const OUTSIDE := Nesting(Quote(None, false), 0, 0, 0)

  function Next(n: Nesting, c: char): Nesting {
    if n.q.quote.Some? || IsQuote(c) then n.(q := NextQuote(n.q, c))
    else if c == '(' then n.(parens := n.parens + 1)
    else if c == ')' && n.parens > 0 then n.(parens := n.parens - 1)
    else if c == '[' then n.(brackets := n.brackets + 1)
    else if c == ']' && n.brackets > 0 then n.(brackets := n.brackets - 1)
    else if c == '{' then n.(braces := n.braces + 1)
    else if c == '}' && n.braces > 0 then n.(braces := n.braces - 1)
    else n
  }

  // Where the splitter stands after the first `i` characters.
  function NestAt(s: string, i: nat): Nesting
    requires i <= |s|
  {
    if i == 0 then OUTSIDE else Next(NestAt(s, i - 1), s[i - 1])
  }

  /** A comma outside quotes and all brackets. */
  predicate IsCut(s: string, i: nat)
    requires i < |s|
  {
    s[i] == ',' && NestAt(s, i).q.quote.None?
    && NestAt(s, i).parens == 0 && NestAt(s, i).brackets == 0 && NestAt(s, i).braces == 0
  }

  // The pieces that end within the first `i` characters, and the one still growing.
  datatype Split = Split(done: seq<string>, current: string)

  function SplitAt(s: string, i: nat): Split
    requires i <= |s|
  {
    if i == 0 then Split([], "")
    else
      var before := SplitAt(s, i - 1);
      if IsCut(s, i - 1) then Split(before.done + [before.current], "")
      else before.(current := before.current + [s[i - 1]])
  }

  function Trims(ps: seq<string>): seq<string> {
    if ps == [] then [] else Trims(ps[..|ps| - 1]) + [Trim(ps[|ps| - 1])]
  }

  /** Every piece trimmed; a last piece that is blank is dropped. */
  function Arguments(s: string): seq<string> {
    var split := SplitAt(s, |s|);
    if Trim(split.current) != "" then Trims(split.done) + [Trim(split.current)] else Trims(split.done)
  }

  method SplitTopLevelArguments(source: string) returns (out: seq<string>)
    ensures out == Arguments(source)
  {
    out := [];
    var current := "";
    var parenDepth: nat, bracketDepth: nat, braceDepth: nat := 0, 0, 0;
    var quoteState := new QuoteScanState();
    for i := 0 to |source|
      invariant fresh(quoteState)
      invariant NestAt(source, i) == Nesting(quoteState.Abs(), parenDepth, bracketDepth, braceDepth)
      invariant current == SplitAt(source, i).current && out == Trims(SplitAt(source, i).done)
    {
      var ch := source[i];
      if quoteState.quote.Some? {
        current := current + [ch];
        var _ := quoteState.ConsumeQuotedChar(ch);
        continue;
      }
      var began := quoteState.BeginQuotedSection(ch);
      if began {
        current := current + [ch];
        continue;
      }
      if ch == '(' {
        parenDepth := parenDepth + 1;
      } else if ch == ')' {
        if parenDepth > 0 {
          parenDepth := parenDepth - 1;
        }
      } else if ch == '[' {
        bracketDepth := bracketDepth + 1;
      } else if ch == ']' {
        if bracketDepth > 0 {
          bracketDepth := bracketDepth - 1;
        }
      } else if ch == '{' {
        braceDepth := braceDepth + 1;
      } else if ch == '}' {
        if braceDepth > 0 {
          braceDepth := braceDepth - 1;
        }
      } else if ch == ',' && parenDepth == 0 && bracketDepth == 0 && braceDepth == 0 {
        out := out + [Trim(current)];
        current := "";
        continue;
      }
      current := current + [ch];
    }
    if Trim(current) != "" {
      out := out + [Trim(current)];
    }
  }

  // ----- nothing is lost

  function WithCommas(ps: seq<string>): string {
    if ps == [] then "" else WithCommas(ps[..|ps| - 1]) + ps[|ps| - 1] + ","
  }

  function Cuts(s: string, i: nat): nat
    requires i <= |s|
  {
    if i == 0 then 0 else Cuts(s, i - 1) + (if IsCut(s, i - 1) then 1 else 0)
  }

  /** The untrimmed pieces with a comma after each but the last rebuild the text, and
      there is one finished piece for each cut. */
  lemma {:induction false} PiecesRebuild(s: string, i: nat)
    requires i <= |s|
    ensures WithCommas(SplitAt(s, i).done) + SplitAt(s, i).current == s[..i]
    ensures |SplitAt(s, i).done| == Cuts(s, i)
    decreases i
  {
    if i == 0 {
    } else {
      PiecesRebuild(s, i - 1);
      var before := SplitAt(s, i - 1);
      assert s[..i] == s[..i - 1] + [s[i - 1]];
      assert (before.done + [before.current])[..|before.done|] == before.done;
    }
  }

  // ----- splitting an argument again

  ghost predicate Uncut(s: string) {
    forall i: nat :: i < |s| ==> !IsCut(s, i)
  }

  lemma {:induction false} PrefixNests(a: string, b: string, i: nat)
    requires i <= |a|
    ensures NestAt(a + b, i) == NestAt(a, i)
    decreases i
  {
    if i == 0 {
    } else {
      PrefixNests(a, b, i - 1);
    }
  }

  // An escape only stands inside quotes.
  lemma {:induction false} EscapedMeansQuoted(s: string, i: nat)
    requires i <= |s|
    ensures NestAt(s, i).q.escaped ==> NestAt(s, i).q.quote.Some?
    decreases i
  {
    if i == 0 {
    } else {
      EscapedMeansQuoted(s, i - 1);
    }
  }

  lemma UncutGrows(s: string, c: char)
    requires Uncut(s) && !IsCut(s + [c], |s|)
    ensures Uncut(s + [c])
  {
    forall i: nat | i < |s| ensures !IsCut(s + [c], i) {
      PrefixNests(s, [c], i);
      assert !IsCut(s, i);
    }
  }

  lemma UncutStep(s: string, i: nat, current: string)
    requires i < |s| && !IsCut(s, i) && Uncut(current) && NestAt(current, |current|) == NestAt(s, i)
    ensures Uncut(current + [s[i]])
    ensures NestAt(current + [s[i]], |current| + 1) == NestAt(s, i + 1)
  {
    PrefixNests(current, [s[i]], |current|);
    assert (current + [s[i]])[|current|] == s[i];
    UncutGrows(current, s[i]);
  }

  lemma CutStartsOutside(s: string, i: nat)
    requires i < |s| && IsCut(s, i)
    ensures NestAt(s, i + 1) == OUTSIDE
  {
    EscapedMeansQuoted(s, i);
  }

  ghost predicate AllUncut(ps: seq<string>) {
    forall p :: p in ps ==> Uncut(p)
  }

  lemma AllUncutAdd(ps: seq<string>, p: string)
    requires AllUncut(ps) && Uncut(p)
    ensures AllUncut(ps + [p])
  {
  }

  lemma NothingUncut()
    ensures AllUncut([]) && Uncut("") && NestAt("", 0) == OUTSIDE
  {
  }

  // Pieces are uncut, and the last one leads to where the splitter stands.
  lemma {:induction false} PiecesUncut(s: string, i: nat)
    requires i <= |s|
    ensures AllUncut(SplitAt(s, i).done)
    ensures var current := SplitAt(s, i).current;
      Uncut(current) && NestAt(current, |current|) == NestAt(s, i)
    decreases i
  {
    hide IsCut, Uncut, AllUncut;
    NothingUncut();
    if i == 0 {
    } else {
      hide NestAt;
      PiecesUncut(s, i - 1);
      if IsCut(s, i - 1) {
        CutStartsOutside(s, i - 1);
        AllUncutAdd(SplitAt(s, i - 1).done, SplitAt(s, i - 1).current);
      } else {
        UncutStep(s, i - 1, SplitAt(s, i - 1).current);
      }
    }
  }

  // Leading white space leaves the splitter outside everything.
  lemma {:induction false} SpaceNests(s: string, i: nat)
    requires i <= |s| && forall k :: 0 <= k < i ==> IsSpace(s[k])
    ensures NestAt(s, i) == OUTSIDE
    decreases i
  {
    if i == 0 {
    } else {
      SpaceNests(s, i - 1);
    }
  }

  lemma {:induction false} SuffixNests(s: string, at: nat, i: nat)
    requires at <= i <= |s| && NestAt(s, at) == OUTSIDE
    ensures NestAt(s[at..], i - at) == NestAt(s, i)
    decreases i
  {
    hide Next;
    if i == at {
    } else {
      SuffixNests(s, at, i - 1);
      assert s[at..][i - 1 - at] == s[i - 1];
    }
  }

  lemma TrimUncut(p: string)
    requires Uncut(p)
    ensures Uncut(Trim(p)) && Trim(Trim(p)) == Trim(p)
  {
    var started := TrimStart(p);
    var trimmed := Trim(p);
    hide TrimStart, TrimEnd, NestAt, IsSpace;
    TrimStartSpec(p);
    TrimEndSpec(started);
    var at := |p| - |started|;
    assert started == p[at..] && trimmed == started[..|trimmed|];
    SpaceNests(p, at);
    forall i: nat | i < |trimmed| ensures !IsCut(trimmed, i) {
      SuffixNests(p, at, at + i);
      PrefixNests(trimmed, started[|trimmed|..], i);
      assert started == trimmed + started[|trimmed|..];
      assert trimmed[i] == started[i] == p[at + i];
      assert !IsCut(p, at + i);
    }
    if trimmed != "" {
      assert trimmed[0] == started[0];
    }
    TrimFixed(trimmed);
  }

  lemma {:induction false} UncutIsOnePiece(s: string, i: nat)
    requires i <= |s| && Uncut(s)
    ensures SplitAt(s, i) == Split([], s[..i])
    decreases i
  {
    if i == 0 {
    } else {
      UncutIsOnePiece(s, i - 1);
      assert !IsCut(s, i - 1);
      assert s[..i] == s[..i - 1] + [s[i - 1]];
    }
  }

  lemma {:induction false} TrimOfPiece(ps: seq<string>, a: string) returns (p: string)
    requires a in Trims(ps)
    ensures p in ps && a == Trim(p)
    decreases |ps|
  {
    p := ps[|ps| - 1];
    if a != Trim(p) {
      p := TrimOfPiece(ps[..|ps| - 1], a);
    }
  }

  /** Splitting any non-empty returned argument again gives just that argument. */
  lemma ArgumentSplitsToItself(s: string, a: string)
    requires a in Arguments(s) && a != ""
    ensures Arguments(a) == [a]
  {
    var split := SplitAt(s, |s|);
    PiecesUncut(s, |s|);
    var p := split.current;
    if a != Trim(p) {
      p := TrimOfPiece(split.done, a);
    }
    TrimUncut(p);
    UncutIsOnePiece(a, |a|);
    assert a[..|a|] == a;
  }

  // ----- which commas are cuts

  predicate IsKind(opening: char, closing: char) {
    (opening == '(' && closing == ')') || (opening == '[' && closing == ']') || (opening == '{' && closing == '}')
  }

  function Level(n: Nesting, opening: char): nat {
    if opening == '(' then n.parens else if opening == '[' then n.brackets else n.braces
  }

  lemma {:induction false} NestQuote(s: string, i: nat)
    requires i <= |s|
    ensures NestAt(s, i).q == QuoteAt(s, i)
    decreases i
  {
    if i == 0 {
    } else {
      NestQuote(s, i - 1);
    }
  }

  // A level counts like the depth, but does not fall below zero.
  lemma LevelStep(s: string, i: nat, opening: char, closing: char)
    requires i < |s| && IsKind(opening, closing)
    ensures var n, l := NestAt(s, i + 1), Level(NestAt(s, i), opening);
      Level(n, opening)
      == if !IsCode(s, i) then l else if s[i] == opening then l + 1 else if s[i] == closing && l > 0 then l - 1 else l
  {
    NestQuote(s, i);
  }

  /** An unquoted opening bracket at `a` that is not closed before `i`. */
  ghost predicate OpenUntil(s: string, a: nat, i: nat, opening: char, closing: char) {
    && a < i <= |s| && IsCode(s, a) && s[a] == opening
    && forall k: nat :: a < k <= i ==> Depth(s, k, opening, closing) > Depth(s, a, opening, closing)
  }

  ghost predicate Enclosed(s: string, i: nat, opening: char, closing: char) {
    exists a: nat :: OpenUntil(s, a, i, opening, closing)
  }

  lemma {:induction false} LevelAtLeast(s: string, a: nat, i: nat, opening: char, closing: char)
    requires a <= i <= |s| && IsKind(opening, closing)
    ensures Level(NestAt(s, i), opening) >= Depth(s, i, opening, closing) - Depth(s, a, opening, closing)
    decreases i
  {
    hide NestAt, Level, IsCode;
    if i == a {
    } else {
      LevelAtLeast(s, a, i - 1, opening, closing);
      LevelStep(s, i - 1, opening, closing);
    }
  }

  lemma {:induction false} OpenAt(s: string, i: nat, opening: char, closing: char) returns (a: nat)
    requires i <= |s| && IsKind(opening, closing) && Level(NestAt(s, i), opening) > 0
    ensures OpenUntil(s, a, i, opening, closing)
    ensures Level(NestAt(s, i), opening) == Depth(s, i, opening, closing) - Depth(s, a, opening, closing)
    decreases i
  {
    LevelStep(s, i - 1, opening, closing);
    if Level(NestAt(s, i - 1), opening) == 0 {
      a := i - 1;
    } else {
      hide NestAt, Level, IsCode;
      a := OpenAt(s, i - 1, opening, closing);
    }
  }

  lemma EnclosedIff(s: string, i: nat, opening: char, closing: char)
    requires i <= |s| && IsKind(opening, closing)
    ensures Enclosed(s, i, opening, closing) <==> Level(NestAt(s, i), opening) > 0
  {
    hide NestAt, Level;
    if a: nat :| OpenUntil(s, a, i, opening, closing) {
      LevelAtLeast(s, a, i, opening, closing);
    }
    if Level(NestAt(s, i), opening) > 0 {
      var a := OpenAt(s, i, opening, closing);
    }
  }

  /** The commas to cut at are exactly those outside quotes with no bracket of any kind open
      around them. */
  lemma CutIff(s: string, i: nat)
    requires i < |s|
    ensures IsCut(s, i) <==>
      && s[i] == ',' && QuoteAt(s, i).quote.None?
      && !Enclosed(s, i, '(', ')') && !Enclosed(s, i, '[', ']') && !Enclosed(s, i, '{', '}')
  {
    hide NestAt, Enclosed;
    NestQuote(s, i);
    EnclosedIff(s, i, '(', ')');
    EnclosedIff(s, i, '[', ']');
    EnclosedIff(s, i, '{', '}');
  }

  lemma {:induction false} QuoteOrEscape(s: string, i: nat)
    requires i <= |s| && QuoteAt(s, i).quote.None?
    ensures QuoteAt(s, i) == Quote(None, false)
    decreases i
  {
    if i == 0 {
    } else if QuoteAt(s, i - 1).quote.None? {
      QuoteOrEscape(s, i - 1);
    }
  }

  // A suffix that starts outside quotes is scanned the same way.
  lemma {:induction false} SuffixDepth(s: string, at: nat, k: nat, opening: char, closing: char)
    requires at + k <= |s| && QuoteAt(s, at) == Quote(None, false)
    ensures QuoteAt(s[at..], k) == QuoteAt(s, at + k)
    ensures Depth(s[at..], k, opening, closing) == Depth(s, at + k, opening, closing) - Depth(s, at, opening, closing)
    decreases k
  {
    if k == 0 {
    } else {
      SuffixDepth(s, at, k - 1, opening, closing);
      assert s[at..][k - 1] == s[at + k - 1];
    }
  }

  /** Between a bracket and the one that closes it there is no cut. */
  lemma NoCutInside(s: string, a: nat, b: nat, i: nat, opening: char, closing: char)
    requires a < i < b < |s| && IsKind(opening, closing)
    requires IsCode(s, a) && s[a] == opening && ClosesAs(s, a + 1, b, opening, closing)
    ensures !IsCut(s, i)
  {
    QuoteOrEscape(s, a);
    assert QuoteAt(s, a + 1) == Quote(None, false);
    var t := s[a + 1..b];
    forall k: nat | a < k <= i ensures Depth(s, k, opening, closing) > Depth(s, a, opening, closing) {
      hide QuoteAt;
      var n := k - (a + 1);
      assert s[a + 1..][..|t|] == t;
      PrefixDepth(t, s[a + 1..], n, opening, closing);
      SuffixDepth(s, a + 1, n, opening, closing);
      assert Depth(t, n, opening, closing) >= 0;
    }
    assert OpenUntil(s, a, i, opening, closing);
    CutIff(s, i);
  }

  /** A comma after text that is balanced in every kind of bracket is a cut. */
  lemma CutAfterBalanced(s: string, i: nat)
    requires i < |s| && s[i] == ','
    requires Balanced(s[..i], '(', ')') && Balanced(s[..i], '[', ']') && Balanced(s[..i], '{', '}')
    ensures IsCut(s, i)
  {
    hide IsCut, QuoteAt;
    CutIff(s, i);
    NotEnclosed(s, i, '(', ')');
    NotEnclosed(s, i, '[', ']');
    NotEnclosed(s, i, '{', '}');
  }

  lemma NotEnclosed(s: string, i: nat, opening: char, closing: char)
    requires i <= |s| && Balanced(s[..i], opening, closing)
    ensures !Enclosed(s, i, opening, closing) && QuoteAt(s, i).quote.None?
  {
    hide QuoteAt, Depth, IsCode;
    PrefixDepth(s[..i], s, i, opening, closing);
    forall a: nat | a < i ensures !OpenUntil(s, a, i, opening, closing) {
      PrefixDepth(s[..i], s, a, opening, closing);
      assert Depth(s[..i], a, opening, closing) >= 0;
    }
  }

  // ----- quoted sections

  /** A quoted string, in which a backslash takes the next character with it, is passed over:
      nothing in it is code, and the scan is outside quotes after it. */
  lemma StringsAreQuoted(s: string, i: nat, quote: char, body: string)
    requires IsQuote(quote) && IsQuotedBody(quote, body)
    requires i + |body| + 2 <= |s| && s[i..i + |body| + 2] == [quote] + body + [quote]
    requires QuoteAt(s, i) == Quote(None, false)
    ensures QuoteAt(s, i + |body| + 2) == Quote(None, false)
    ensures forall k: nat :: i <= k < i + |body| + 2 ==> !IsCode(s, k)
  {
    var t := [quote] + body + [quote];
    SliceAt(s, i, i + |body| + 2, 0);
    SliceAt(s, i, i + |body| + 2, |body| + 1);
    assert t[|body| + 1] == t[|t| - 1];
    SliceOfSlice(s, i, i + |body| + 2, 1, 1 + |body|);
    assert t[1..1 + |body|] == body;
    assert QuoteAt(s, i + 1) == Quote(Some(quote), false);
    BodyIsQuoted(s, i + 1, quote, body);
    assert s[i + 1 + |body|] == quote;
  }

  lemma {:induction false} BodyIsQuoted(s: string, i: nat, quote: char, body: string)
    requires quote != '\\' && IsQuotedBody(quote, body) && i + |body| <= |s| && s[i..i + |body|] == body
    requires QuoteAt(s, i) == Quote(Some(quote), false)
    ensures QuoteAt(s, i + |body|) == Quote(Some(quote), false)
    ensures forall k: nat :: i <= k < i + |body| ==> QuoteAt(s, k).quote.Some?
    decreases |body|
  {
    if body == "" {
    } else {
      var n := if body[0] == '\\' then 2 else 1;
      assert s[i] == body[0];
      assert QuoteAt(s, i + 1) == Quote(Some(quote), n == 2);
      assert n == 2 ==> QuoteAt(s, i + 2) == Quote(Some(quote), false);
      assert s[i + n..i + |body|] == body[n..];
      BodyIsQuoted(s, i + n, quote, body[n..]);
    }
  }

  // ----- what the arguments are

  // The cuts before `i`, in order.
  ghost predicate AreCuts(s: string, i: nat, at: seq<nat>)
    requires i <= |s|
  {
    && (forall k: nat :: k in at <==> k < i && IsCut(s, k))
    && (forall a, b :: 0 <= a < b < |at| ==> at[a] < at[b])
  }

  function PieceStart(at: seq<nat>, k: nat): nat
    requires k <= |at|
  {
    if k == 0 then 0 else at[k - 1] + 1
  }

  // The k-th piece stands between its cuts.
  predicate PieceAt(s: string, at: seq<nat>, pieces: seq<string>, k: nat)
    requires k < |at| && k < |pieces|
  {
    PieceStart(at, k) <= at[k] < |s| && pieces[k] == s[PieceStart(at, k)..at[k]]
  }

  ghost predicate ArePieces(s: string, at: seq<nat>, pieces: seq<string>) {
    |pieces| == |at| && forall k :: 0 <= k < |at| ==> PieceAt(s, at, pieces, k)
  }

  lemma {:induction false} PiecesAre(s: string, i: nat) returns (at: seq<nat>)
    requires i <= |s|
    ensures AreCuts(s, i, at) && ArePieces(s, at, SplitAt(s, i).done)
    ensures PieceStart(at, |at|) <= i && SplitAt(s, i).current == s[PieceStart(at, |at|)..i]
    decreases i
  {
    hide IsCut, AreCuts, ArePieces, SplitAt;
    at := [];
    NoPieces(s);
    if i == 0 {
    } else {
      at := PiecesAre(s, i - 1);
      CutsStep(s, i - 1, at);
      SplitStep(s, i - 1);
      if IsCut(s, i - 1) {
        PiecesStep(s, at, SplitAt(s, i - 1).done, i - 1);
        at := at + [i - 1];
      } else {
        var start := PieceStart(at, |at|);
        assert s[start..i - 1] + [s[i - 1]] == s[start..i];
      }
    }
  }

  lemma NoPieces(s: string)
    ensures AreCuts(s, 0, []) && ArePieces(s, [], []) && SplitAt(s, 0) == Split([], "")
  {
  }

  lemma SplitStep(s: string, i: nat)
    requires i < |s|
    ensures var before := SplitAt(s, i);
      SplitAt(s, i + 1)
      == if IsCut(s, i) then Split(before.done + [before.current], "") else before.(current := before.current + [s[i]])
  {
    hide IsCut;
  }

  lemma CutsStep(s: string, i: nat, at: seq<nat>)
    requires i < |s| && AreCuts(s, i, at)
    ensures IsCut(s, i) ==> AreCuts(s, i + 1, at + [i])
    ensures !IsCut(s, i) ==> AreCuts(s, i + 1, at)
  {
    hide IsCut;
    forall k | 0 <= k < |at| ensures at[k] < i {
      assert at[k] in at;
    }
  }

  lemma PiecesStep(s: string, at: seq<nat>, pieces: seq<string>, i: nat)
    requires ArePieces(s, at, pieces) && PieceStart(at, |at|) <= i < |s|
    ensures ArePieces(s, at + [i], pieces + [s[PieceStart(at, |at|)..i]])
  {
    var more, all := at + [i], pieces + [s[PieceStart(at, |at|)..i]];
    forall k | 0 <= k < |more| ensures PieceAt(s, more, all, k) {
      if k < |at| {
        assert PieceAt(s, at, pieces, k);
        assert PieceStart(more, k) == PieceStart(at, k);
      }
    }
  }

  /** The arguments are the texts between the cuts, trimmed, in order; what follows the last
      cut is one more unless it is blank. */
  lemma ArgumentsAre(s: string) returns (at: seq<nat>)
    ensures AreCuts(s, |s|, at)
    ensures |Arguments(s)| >= |at| && PieceStart(at, |at|) <= |s|
    ensures forall k :: 0 <= k < |at| ==>
      PieceStart(at, k) <= at[k] < |s| && Arguments(s)[k] == Trim(s[PieceStart(at, k)..at[k]])
    ensures var last := Trim(s[PieceStart(at, |at|)..]);
      if last == "" then |Arguments(s)| == |at| else |Arguments(s)| == |at| + 1 && Arguments(s)[|at|] == last
  {
    hide SplitAt, AreCuts, Trim, Trims;
    at := PiecesAre(s, |s|);
    var done := SplitAt(s, |s|).done;
    assert s[PieceStart(at, |at|)..|s|] == s[PieceStart(at, |at|)..];
    TrimsAre(done);
    forall k | 0 <= k < |at|
      ensures PieceStart(at, k) <= at[k] < |s| && Arguments(s)[k] == Trim(s[PieceStart(at, k)..at[k]])
    {
      assert PieceAt(s, at, done, k);
      assert Arguments(s)[k] == Trims(done)[k];
    }
  }

  lemma {:induction false} TrimsAre(ps: seq<string>)
    ensures |Trims(ps)| == |ps| && forall k :: 0 <= k < |ps| ==> Trims(ps)[k] == Trim(ps[k])
    decreases |ps|
  {
    hide Trim;
    if ps == [] {
    } else {
      TrimsAre(ps[..|ps| - 1]);
    }
  }
}
