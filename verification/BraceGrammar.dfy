/** A grammar for braced interpolations. The scanner finds their end with a depth counter
    and a quote flag; what it accepts is exactly the language of this grammar. */
module BraceGrammar {
  import opened Text
  import opened Interpolations

  // What stands between `${` and `}`: plain characters, quoted strings, nested braces.
  datatype Item = Plain(c: char) | Quoted(quote: char, body: string) | Nested(items: Items)

  datatype Items = Nothing | More(first: Item, rest: Items)

  predicate IsQuote(c: char) { c == '"' || c == '\'' }

  predicate ValidItem(item: Item) {
    match item
    case Plain(c) => !IsQuote(c) && c != '{' && c != '}'
    case Quoted(quote, body) => IsQuote(quote) && IsQuotedBody(quote, body)
    case Nested(items) => ValidItems(items)
  }

  predicate ValidItems(items: Items) {
    items.More? ==> ValidItem(items.first) && ValidItems(items.rest)
  }

  function ItemText(item: Item): string {
    match item
    case Plain(c) => [c]
    case Quoted(quote, body) => [quote] + body + [quote]
    case Nested(items) => "{" + ItemsText(items) + "}"
  }

  function ItemsText(items: Items): string {
    if items.Nothing? then "" else ItemText(items.first) + ItemsText(items.rest)
  }

  // ----- the scanner reads every text of the grammar

  // `s` has `t` at position `i`.
  predicate At(s: string, i: nat, t: string) {
    i + |t| <= |s| && s[i..i + |t|] == t
  }

  lemma AtSplits(s: string, i: nat, a: string, b: string)
    requires At(s, i, a + b)
    ensures At(s, i, a) && At(s, i + |a|, b)
  {
    assert s[i..i + |a|] == s[i..i + |a + b|][..|a|];
    assert s[i + |a|..i + |a| + |b|] == s[i..i + |a + b|][|a|..];
  }

  // Inside a string a plain character, or a backslash with the next one, is passed over.
  lemma StaysQuoted(s: string, i: nat, quote: char, d: nat, n: nat)
    requires d > 0 && IsQuote(quote) && n > 0 && i + n <= |s|
    requires if s[i] == '\\' then n == 2 else s[i] != quote && n == 1
    ensures BraceEnd(s, i, Brace(d, Some(quote), false)) == BraceEnd(s, i + n, Brace(d, Some(quote), false))
  {
  }

  lemma QuoteCloses(s: string, i: nat, quote: char, d: nat)
    requires d > 0 && IsQuote(quote) && i < |s| && s[i] == quote
    ensures BraceEnd(s, i, Brace(d, Some(quote), false)) == BraceEnd(s, i + 1, Brace(d, None, false))
  {
  }

  lemma {:induction false} ReadsQuotedBody(s: string, i: nat, quote: char, body: string, d: nat)
    requires d > 0 && IsQuote(quote) && IsQuotedBody(quote, body) && At(s, i, body + [quote])
    ensures BraceEnd(s, i, Brace(d, Some(quote), false)) == BraceEnd(s, i + |body| + 1, Brace(d, None, false))
    decreases |body|
  {
    hide BraceEnd;
    var t := body + [quote];
    assert s[i] == s[i..i + |t|][0] == t[0];
    if body == "" {
      QuoteCloses(s, i, quote, d);
    } else {
      var n := if body[0] == '\\' then 2 else 1;
      assert t == body[..n] + (body[n..] + [quote]);
      AtSplits(s, i, body[..n], body[n..] + [quote]);
      StaysQuoted(s, i, quote, d, n);
      ReadsQuotedBody(s, i + n, quote, body[n..], d);
    }
  }

  lemma AtStarts(s: string, i: nat, t: string)
    requires At(s, i, t) && t != ""
    ensures i < |s| && s[i] == t[0]
  {
    assert s[i..i + |t|][0] == s[i];
  }

  lemma ReadsQuoted(s: string, i: nat, quote: char, body: string, d: nat)
    requires d > 0 && IsQuote(quote) && IsQuotedBody(quote, body) && At(s, i, [quote] + (body + [quote]))
    ensures BraceEnd(s, i, Brace(d, None, false)) == BraceEnd(s, i + |body| + 2, Brace(d, None, false))
  {
    AtStarts(s, i, [quote] + (body + [quote]));
    AtSplits(s, i, [quote], body + [quote]);
    ReadsQuotedBody(s, i + 1, quote, body, d);
  }

  lemma ReadsBrace(s: string, i: nat, c: char, d: nat)
    requires d > 0 && At(s, i, [c]) && (c == '{' || (c == '}' && d > 1))
    ensures BraceEnd(s, i, Brace(d, None, false))
      == BraceEnd(s, i + 1, Brace(if c == '{' then d + 1 else d - 1, None, false))
  {
    AtStarts(s, i, [c]);
  }

  lemma NestedAt(s: string, i: nat, inner: string)
    requires At(s, i, "{" + inner + "}")
    ensures i + |inner| + 2 <= |s| && At(s, i, "{") && At(s, i + 1, inner) && At(s, i + 1 + |inner|, "}")
  {
    hide At;
    assert "{" + inner + "}" == "{" + (inner + "}");
    AtSplits(s, i, "{", inner + "}");
    AtSplits(s, i + 1, inner, "}");
    AtStarts(s, i + 1 + |inner|, "}");
  }

  // If the inside is read through, so is the pair of braces around it.
  lemma ReadsNested(s: string, i: nat, inner: string, d: nat)
    requires d > 0 && At(s, i, "{" + inner + "}") && i + |inner| + 2 <= |s|
    requires BraceEnd(s, i + 1, Brace(d + 1, None, false)) == BraceEnd(s, i + 1 + |inner|, Brace(d + 1, None, false))
    ensures BraceEnd(s, i, Brace(d, None, false)) == BraceEnd(s, i + |inner| + 2, Brace(d, None, false))
  {
    hide *;
    NestedAt(s, i, inner);
    ReadsBrace(s, i, '{', d);
    ReadsBrace(s, i + 1 + |inner|, '}', d + 1);
  }

  lemma ReadsPlain(s: string, i: nat, c: char, d: nat)
    requires d > 0 && ValidItem(Plain(c)) && At(s, i, [c])
    ensures BraceEnd(s, i, Brace(d, None, false)) == BraceEnd(s, i + 1, Brace(d, None, false))
  {
    AtStarts(s, i, [c]);
  }

  lemma {:induction false} ReadsItem(s: string, i: nat, item: Item, d: nat)
    requires d > 0 && ValidItem(item) && At(s, i, ItemText(item))
    ensures BraceEnd(s, i, Brace(d, None, false)) == BraceEnd(s, i + |ItemText(item)|, Brace(d, None, false))
    decreases item
  {
    hide BraceEnd, At, IsQuotedBody;
    match item
    case Plain(c) =>
      ReadsPlain(s, i, c, d);
    case Quoted(quote, body) =>
      assert ItemText(item) == [quote] + (body + [quote]);
      ReadsQuoted(s, i, quote, body, d);
    case Nested(items) =>
      NestedAt(s, i, ItemsText(items));
      ReadsItems(s, i + 1, items, d + 1);
      ReadsNested(s, i, ItemsText(items), d);
  }

  lemma {:induction false} ReadsItems(s: string, i: nat, items: Items, d: nat)
    requires d > 0 && ValidItems(items) && At(s, i, ItemsText(items))
    ensures BraceEnd(s, i, Brace(d, None, false)) == BraceEnd(s, i + |ItemsText(items)|, Brace(d, None, false))
    decreases items
  {
    hide BraceEnd, ItemText, ValidItem, At;
    if items.Nothing? {
    } else {
      AtSplits(s, i, ItemText(items.first), ItemsText(items.rest));
      ReadsItem(s, i, items.first, d);
      ReadsItems(s, i + |ItemText(items.first)|, items.rest, d);
    }
  }

  // ----- every text the scanner reads is in the grammar

  // From inside a string, finds the quote that ends it.
  lemma {:induction false} FindQuote(s: string, i: nat, quote: char, d: nat) returns (k: nat)
    requires i <= |s| && d > 0 && IsQuote(quote)
    requires BraceEnd(s, i, Brace(d, Some(quote), false)).Some?
    ensures i <= k < |s| && s[k] == quote && IsQuotedBody(quote, s[i..k])
    ensures BraceEnd(s, k + 1, Brace(d, None, false)) == BraceEnd(s, i, Brace(d, Some(quote), false))
    decreases |s| - i
  {
    if s[i] == quote {
      k := i;
    } else {
      var n := if s[i] == '\\' then 2 else 1;
      assert n == 2 ==> i + 1 < |s| by {
        if n == 2 {
          assert BraceEnd(s, i, Brace(d, Some(quote), false)) == BraceEnd(s, i + 1, Brace(d, Some(quote), true));
        }
      }
      k := FindQuote(s, i + n, quote, d);
      assert s[i..k][n..] == s[i + n..k];
    }
  }

  // Stands an item at `i`, what comes after it is read in the same state.
  ghost predicate ReadAs(s: string, i: nat, d: nat, item: Item, next: nat) {
    && i < next <= |s| && d > 0 && ValidItem(item) && s[i..next] == ItemText(item)
    && BraceEnd(s, next, Brace(d, None, false)) == BraceEnd(s, i, Brace(d, None, false))
  }

  lemma FindQuoted(s: string, i: nat, d: nat) returns (item: Item, next: nat)
    requires i < |s| && d > 0 && IsQuote(s[i]) && BraceEnd(s, i, Brace(d, None, false)).Some?
    ensures ReadAs(s, i, d, item, next)
  {
    var k := FindQuote(s, i + 1, s[i], d);
    item, next := Quoted(s[i], s[i + 1..k]), k + 1;
    assert s[i..next] == [s[i]] + s[i + 1..k] + [s[k]];
  }

  // What the items found from `i` at depth `d` guarantee.
  ghost predicate Found(s: string, i: nat, d: nat, items: Items, j: nat) {
    && i <= j < |s| && d > 0 && s[j] == '}' && ValidItems(items) && s[i..j] == ItemsText(items)
    && (d == 1 ==> BraceEnd(s, i, Brace(d, None, false)) == Some(j + 1))
    && (d > 1 ==> BraceEnd(s, j + 1, Brace(d - 1, None, false)) == BraceEnd(s, i, Brace(d, None, false)))
  }

  lemma FoundMore(s: string, i: nat, d: nat, item: Item, next: nat, rest: Items, j: nat)
    requires ReadAs(s, i, d, item, next) && Found(s, next, d, rest, j)
    ensures Found(s, i, d, More(item, rest), j)
  {
    assert s[i..j] == s[i..next] + s[next..j];
  }

  lemma NestedRead(s: string, i: nat, d: nat, inner: Items, k: nat)
    requires i < |s| && d > 0 && s[i] == '{' && Found(s, i + 1, d + 1, inner, k)
    ensures ReadAs(s, i, d, Nested(inner), k + 1)
  {
    assert s[i..k + 1] == [s[i]] + s[i + 1..k] + [s[k]];
    assert At(s, i, "{");
    ReadsBrace(s, i, '{', d);
  }

  lemma NotAtEnd(s: string, i: nat, d: nat)
    requires i <= |s| && d > 0 && BraceEnd(s, i, Brace(d, None, false)).Some?
    ensures i < |s|
  {
  }

  lemma ClosesHere(s: string, i: nat, d: nat)
    requires i < |s| && d > 0 && s[i] == '}'
    ensures Found(s, i, d, Nothing, i)
  {
  }

  lemma PlainRead(s: string, i: nat, d: nat)
    requires i < |s| && d > 0 && !IsQuote(s[i]) && s[i] != '{' && s[i] != '}'
    ensures ReadAs(s, i, d, Plain(s[i]), i + 1)
  {
  }

  lemma OpensHere(s: string, i: nat, d: nat)
    requires i < |s| && d > 0 && s[i] == '{'
    ensures BraceEnd(s, i, Brace(d, None, false)) == BraceEnd(s, i + 1, Brace(d + 1, None, false))
  {
  }

  // From inside braces, finds the items up to the brace that closes this depth.
  lemma {:induction false} FindItems(s: string, i: nat, d: nat) returns (items: Items, j: nat)
    requires i <= |s| && d > 0 && BraceEnd(s, i, Brace(d, None, false)).Some?
    ensures Found(s, i, d, items, j)
    decreases |s| - i
  {
    hide BraceEnd, ItemText, ItemsText, ValidItem, ValidItems, IsQuote, Found;
    NotAtEnd(s, i, d);
    if s[i] == '}' {
      ClosesHere(s, i, d);
      return Nothing, i;
    }
    var item, next := Plain(s[i]), i + 1;
    if IsQuote(s[i]) {
      item, next := FindQuoted(s, i, d);
    } else if s[i] == '{' {
      OpensHere(s, i, d);
      var inner, k := FindItems(s, i + 1, d + 1);
      NestedRead(s, i, d, inner, k);
      item, next := Nested(inner), k + 1;
    } else {
      PlainRead(s, i, d);
    }
    var rest;
    rest, j := FindItems(s, next, d);
    FoundMore(s, i, d, item, next, rest, j);
    items := More(item, rest);
  }

  lemma BracedItems(t: string) returns (items: Items)
    requires IsBraced(t)
    ensures ValidItems(items) && t == "${" + ItemsText(items) + "}"
  {
    var j;
    items, j := FindItems(t, 2, 1);
    hide BraceEnd, ItemsText, ValidItems;
    assert t == t[..2] + t[2..j] + t[j..];
    assert t[..2] == "${" && t[j..] == "}";
  }

  lemma ItemsBraced(t: string, items: Items)
    requires ValidItems(items) && t == "${" + ItemsText(items) + "}"
    ensures IsBraced(t)
  {
    hide ItemsText, ValidItems;
    var n := |ItemsText(items)|;
    assert At(t, 2, ItemsText(items));
    ReadsItems(t, 2, items, 1);
    assert t[2 + n] == '}';
  }

  /** Braced tokens are exactly `${`, a text of the grammar, and `}`. */
  lemma BracedIff(t: string)
    ensures IsBraced(t) <==> exists items :: ValidItems(items) && t == "${" + ItemsText(items) + "}"
  {
    if IsBraced(t) {
      var items := BracedItems(t);
    }
    forall items | ValidItems(items) && t == "${" + ItemsText(items) + "}" ensures IsBraced(t) {
      ItemsBraced(t, items);
    }
  }
}
