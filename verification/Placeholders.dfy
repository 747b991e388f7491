/** The placeholders of a catalog text: the names in braces that the pattern `{word}`
    matches, each once and sorted. Two texts have the same list exactly when they name the
    same placeholders. */
module Placeholders {
  import opened Text
  import opened Sorting

  predicate IsWordChar(c: char) {
    'a' <= c <= 'z' || 'A' <= c <= 'Z' || IsDigit(c) || c == '_'
  }

  lemma WordCharacters(c: char)
    ensures IsWordChar(c) <==> c in CAPITALS || c in SMALL || c in DIGITS || c == '_'
  {
    CharactersListed(c);
  }

  ghost predicate IsWord(n: string) {
    n != "" && forall i :: 0 <= i < |n| ==> IsWordChar(n[i])
  }

  function WordEnd(s: string, i: nat): (e: nat)
    requires i <= |s|
    ensures i <= e <= |s| && (forall k :: i <= k < e ==> IsWordChar(s[k]))
    ensures e < |s| ==> !IsWordChar(s[e])
    decreases |s| - i
  {
    if i < |s| && IsWordChar(s[i]) then WordEnd(s, i + 1) else i
  }

  // The matches from `i` on, leftmost first and never overlapping.
  function NamesFrom(s: string, i: nat): seq<string>
    requires i <= |s|
    decreases |s| - i
  {
    if i == |s| then []
    else if s[i] != '{' then NamesFrom(s, i + 1)
    else
      var e := WordEnd(s, i + 1);
      if i + 1 < e < |s| && s[e] == '}' then [s[i + 1..e]] + NamesFrom(s, e + 1) else NamesFrom(s, i + 1)
  }

  function WithoutEmpty(names: seq<string>): seq<string> {
    if names == [] then []
    else (if names[0] != "" then [names[0]] else []) + WithoutEmpty(names[1..])
  }

  function ExtractPlaceholders(text: string, le: NameOrder): seq<string> {
    Sort(le, WithoutEmpty(Distinct(NamesFrom(text, 0))))
  }

  // ----- what is extracted

  ghost predicate StandsAt(s: string, n: string, k: int) {
    0 <= k && k + |n| + 2 <= |s| && s[k] == '{' && s[k + 1..k + 1 + |n|] == n && s[k + 1 + |n|] == '}'
  }

  /** The text has the name, a non-empty word, between two braces. */
  ghost predicate HasPlaceholder(s: string, n: string) {
    IsWord(n) && exists k :: StandsAt(s, n, k)
  }

  ghost predicate StandsFrom(s: string, n: string, i: nat) {
    exists k :: i <= k && StandsAt(s, n, k)
  }

  // A name that starts here is the word that ends here.
  lemma StandsOnce(s: string, n: string, i: nat)
    requires i < |s| && IsWord(n) && StandsAt(s, n, i)
    ensures WordEnd(s, i + 1) == i + 1 + |n|
  {
    var at := i + 1;
    assert forall k :: at <= k < at + |n| ==> s[k] == n[k - at];
  }

  lemma SkipOne(s: string, n: string, i: nat)
    requires !StandsAt(s, n, i)
    ensures StandsFrom(s, n, i) <==> StandsFrom(s, n, i + 1)
  {
    if StandsFrom(s, n, i) {
      var k :| i <= k && StandsAt(s, n, k);
      assert i + 1 <= k && StandsAt(s, n, k);
    }
  }

  // Inside a match nothing else starts.
  lemma SkipMatch(s: string, n: string, i: nat, e: nat)
    requires i < e < |s| && s[e] == '}' && forall k :: i < k < e ==> IsWordChar(s[k])
    ensures StandsFrom(s, n, i) <==> StandsAt(s, n, i) || StandsFrom(s, n, e + 1)
  {
    if StandsFrom(s, n, i) && !StandsAt(s, n, i) {
      var k :| i <= k && StandsAt(s, n, k);
      assert e + 1 <= k && StandsAt(s, n, k);
    }
    if StandsFrom(s, n, e + 1) {
      var k :| e + 1 <= k && StandsAt(s, n, k);
      assert i <= k && StandsAt(s, n, k);
    }
  }

  lemma {:induction false} NamesFromIff(s: string, i: nat, n: string)
    requires i <= |s|
    ensures n in NamesFrom(s, i) <==> IsWord(n) && StandsFrom(s, n, i)
    decreases |s| - i
  {
    hide StandsFrom;
    if i == |s| {
      NothingStands(s, n);
    } else if s[i] != '{' {
      SkipOne(s, n, i);
      NamesFromIff(s, i + 1, n);
    } else {
      var e := WordEnd(s, i + 1);
      if IsWord(n) && StandsAt(s, n, i) {
        StandsOnce(s, n, i);
      }
      if i + 1 < e < |s| && s[e] == '}' {
        SkipMatch(s, n, i, e);
        NamesFromIff(s, e + 1, n);
      } else {
        if IsWord(n) {
          SkipOne(s, n, i);
        }
        NamesFromIff(s, i + 1, n);
      }
    }
  }

  lemma NothingStands(s: string, n: string)
    ensures !StandsFrom(s, n, |s|)
  {
  }

  lemma {:induction false} WithoutEmptyKeeps(names: seq<string>)
    ensures forall n :: n in WithoutEmpty(names) <==> n in names && n != ""
    ensures NoDuplicates(names) ==> NoDuplicates(WithoutEmpty(names))
    decreases |names|
  {
    if names == [] {
    } else {
      WithoutEmptyKeeps(names[1..]);
      assert names == [names[0]] + names[1..];
      if NoDuplicates(names) {
        assert NoDuplicates(names[1..]);
        assert names[0] !in names[1..];
        var r := WithoutEmpty(names[1..]);
        assert forall i :: 0 <= i < |r| ==> r[i] in r;
      }
    }
  }

  // Before sorting.
  lemma NamesOnce(text: string)
    ensures NoDuplicates(WithoutEmpty(Distinct(NamesFrom(text, 0))))
    ensures forall n :: n in WithoutEmpty(Distinct(NamesFrom(text, 0))) <==> HasPlaceholder(text, n)
  {
    var names := Distinct(NamesFrom(text, 0));
    DistinctHasNoDuplicates(NamesFrom(text, 0));
    WithoutEmptyKeeps(names);
    forall n ensures n in WithoutEmpty(names) <==> HasPlaceholder(text, n) {
      NamesFromIff(text, 0, n);
    }
  }

  /** The list holds exactly the names that stand in braces, each once. */
  lemma ExtractedIff(text: string, le: NameOrder, n: string)
    ensures n in ExtractPlaceholders(text, le) <==> HasPlaceholder(text, n)
    ensures NoDuplicates(ExtractPlaceholders(text, le))
  {
    hide WithoutEmpty, NamesFrom, Distinct, NoDuplicates, HasPlaceholder, Sort;
    NamesOnce(text);
    var names := WithoutEmpty(Distinct(NamesFrom(text, 0)));
    SameElements(names, Sort(le, names));
    RearrangedHasNoDuplicates(names, Sort(le, names));
  }

  // The order tells any two words apart.
  ghost predicate SeparatesWords(le: NameOrder) {
    forall x, y :: IsWord(x) && IsWord(y) && le(x, y) && le(y, x) ==> x == y
  }

  ghost predicate SamePlaceholders(a: string, b: string) {
    forall n :: HasPlaceholder(a, n) <==> HasPlaceholder(b, n)
  }

  /** Two texts have equal lists of placeholders if and only if they have the same
      placeholders, in whatever order and however often. */
  lemma ListsAgreeIff(a: string, b: string, le: NameOrder)
    requires Preorder(le) && SeparatesWords(le)
    ensures ExtractPlaceholders(a, le) == ExtractPlaceholders(b, le) <==> SamePlaceholders(a, b)
  {
    hide WithoutEmpty, NamesFrom, Distinct, NoDuplicates, Sort, Preorder;
    forall n
      ensures n in ExtractPlaceholders(a, le) <==> HasPlaceholder(a, n)
      ensures n in ExtractPlaceholders(b, le) <==> HasPlaceholder(b, n)
    {
      ExtractedIff(a, le, n);
      ExtractedIff(b, le, n);
    }
    if SamePlaceholders(a, b) {
      NamesOnce(a);
      NamesOnce(b);
      var x, y := WithoutEmpty(Distinct(NamesFrom(a, 0))), WithoutEmpty(Distinct(NamesFrom(b, 0)));
      SameSetSameMultiset(x, y);
      SortForgets(le, x, y);
    }
  }
}
