/** The two votes that pick one translation among several for the same source: Android
    filters, counts and sorts; Apple counts and sorts with a penalty for the source. */
module TranslationVote {
  import opened Text
  import opened Sorting

  // ----- Android

  function WithoutSource(source: string, values: seq<string>): (r: seq<string>)
    ensures forall v :: v in r <==> v in values && v != source
    ensures forall v :: v != source ==> multiset(r)[v] == multiset(values)[v]
  {
    if values == [] then []
    else
      assert values == [values[0]] + values[1..];
      (if values[0] != source then [values[0]] else []) + WithoutSource(source, values[1..])
  }

  // More votes first, then the text order.
  predicate VotesLe(a: (string, nat), b: (string, nat)) {
    a.1 > b.1 || (a.1 == b.1 && TextLe(a.0, b.0))
  }

  function Candidates(source: string, values: seq<string>): seq<string> {
    var translated := WithoutSource(source, values);
    if translated != [] then translated else values
  }

  function AndroidVote(source: string, values: seq<string>): string {
    var sorted := Sort(VotesLe, CountEntries(Candidates(source, values)));
    if sorted == [] then "" else sorted[0].0
  }

  method SelectDeterministicTranslation(source: string, values: seq<string>) returns (r: string)
    ensures r == AndroidVote(source, values)
  {
    var translated := WithoutSource(source, values);
    var candidates := if |translated| > 0 then translated else values;
    var counts := CountValues(candidates);
    var sorted := Sort(VotesLe, counts);
    r := if |sorted| > 0 then sorted[0].0 else "";
  }

  // ----- Apple

  function Penalty(source: string, value: string): nat { if value == source then 1 else 0 }

  function PenalizedLe(source: string): ((string, nat), (string, nat)) -> bool {
    (a: (string, nat), b: (string, nat)) =>
      Penalty(source, a.0) < Penalty(source, b.0)
      || (Penalty(source, a.0) == Penalty(source, b.0) && VotesLe(a, b))
  }

  function AppleVote(source: string, translations: seq<string>): string {
    var sorted := Sort(PenalizedLe(source), CountEntries(translations));
    if sorted == [] then source else sorted[0].0
  }

  method ChooseTranslation(source: string, translations: seq<string>) returns (r: string)
    ensures r == AppleVote(source, translations)
  {
    var counts := CountValues(translations);
    var sorted := Sort(PenalizedLe(source), counts);
    r := if |sorted| > 0 then sorted[0].0 else source;
  }

  // ----- what both are for

  // More votes, or as many and not later in text order.
  ghost predicate Beats(values: seq<string>, w: string, v: string) {
    || multiset(values)[w] > multiset(values)[v]
    || (multiset(values)[w] == multiset(values)[v] && TextLe(w, v))
  }

  /** The winner is a candidate, is the source only if every candidate is, and beats
      every other translation in votes or, at equal votes, in text order. */
  ghost predicate IsWinner(source: string, values: seq<string>, w: string) {
    && w in values
    && (w == source ==> forall v :: v in values ==> v == source)
    && (forall v :: v in values && v != source ==> Beats(values, w, v))
  }

  lemma WinnerUnique(source: string, values: seq<string>, a: string, b: string)
    requires IsWinner(source, values, a) && IsWinner(source, values, b)
    ensures a == b
  {
    if a != source && b != source {
      if TextLe(a, b) && TextLe(b, a) {
        TextLeAntisymmetric(a, b);
      }
    }
  }

  lemma VotesOrder()
    ensures Preorder(VotesLe)
  {
    TextOrder();
  }

  lemma PenalizedOrder(source: string)
    ensures Preorder(PenalizedLe(source))
  {
    VotesOrder();
    var le := PenalizedLe(source);
    forall x, y ensures le(x, y) || le(y, x) {
      assert VotesLe(x, y) || VotesLe(y, x);
    }
    forall x, y, z | le(x, y) && le(y, z) ensures le(x, z) {
      assert VotesLe(x, y) && VotesLe(y, z) ==> VotesLe(x, z);
    }
  }

  // The first entry after sorting is ordered before every entry.
  lemma FirstEntry(le: ((string, nat), (string, nat)) -> bool, values: seq<string>, v: string)
    requires Preorder(le) && v in values
    ensures var sorted := Sort(le, CountEntries(values));
      && sorted != [] && sorted[0].0 in values && sorted[0].1 == multiset(values)[sorted[0].0]
      && le(sorted[0], (v, multiset(values)[v]))
  {
    var entries := CountEntries(values);
    var sorted := Sort(le, entries);
    SameElements(entries, sorted);
    SortSorts(le, entries);
    EntryIff(values, v, multiset(values)[v]);
    assert (v, multiset(values)[v]) in sorted;
    assert sorted[0] in sorted;
    EntryIff(values, sorted[0].0, sorted[0].1);
  }

  lemma AndroidWins(source: string, values: seq<string>)
    requires values != []
    ensures IsWinner(source, values, AndroidVote(source, values))
  {
    VotesOrder();
    var candidates := Candidates(source, values);
    var w := AndroidVote(source, values);
    assert candidates[0] in candidates;
    FirstEntry(VotesLe, candidates, candidates[0]);
    forall v | v in values && v != source
      ensures Beats(values, w, v)
    {
      assert v in WithoutSource(source, values);
      FirstEntry(VotesLe, candidates, v);
    }
    if w == source {
      assert source !in WithoutSource(source, values);
      forall v | v in values ensures v == source {
        assert v !in WithoutSource(source, values);
      }
    }
  }

  lemma AppleWins(source: string, values: seq<string>)
    requires values != []
    ensures IsWinner(source, values, AppleVote(source, values))
  {
    PenalizedOrder(source);
    var le := PenalizedLe(source);
    var w := AppleVote(source, values);
    assert values[0] in values;
    FirstEntry(le, values, values[0]);
    forall v | v in values && v != source
      ensures w != source && Beats(values, w, v)
    {
      FirstEntry(le, values, v);
      assert Penalty(source, w) <= Penalty(source, v);
    }
  }

  /** Each vote is the winner, and nothing else is. */
  lemma VoteIffWinner(source: string, values: seq<string>, w: string)
    requires values != []
    ensures w == AndroidVote(source, values) <==> IsWinner(source, values, w)
    ensures w == AppleVote(source, values) <==> IsWinner(source, values, w)
  {
    AndroidWins(source, values);
    AppleWins(source, values);
    if IsWinner(source, values, w) {
      WinnerUnique(source, values, w, AndroidVote(source, values));
      WinnerUnique(source, values, w, AppleVote(source, values));
    }
  }

  /** The votes agree on every list, except that on the empty one Android answers with
      the empty text and Apple with the source. */
  lemma VotesAgreeIff(source: string, values: seq<string>)
    ensures AndroidVote(source, values) == AppleVote(source, values) <==> values != [] || source == ""
  {
    if values != [] {
      AppleWins(source, values);
      VoteIffWinner(source, values, AppleVote(source, values));
    }
  }

  lemma WinnerForgetsOrder(source: string, a: seq<string>, b: seq<string>, w: string)
    requires multiset(a) == multiset(b) && IsWinner(source, a, w)
    ensures IsWinner(source, b, w)
  {
    SameElements(a, b);
  }

  /** Neither vote depends on the order of its input. */
  lemma VotesForgetOrder(source: string, a: seq<string>, b: seq<string>)
    requires multiset(a) == multiset(b)
    ensures AndroidVote(source, a) == AndroidVote(source, b)
    ensures AppleVote(source, a) == AppleVote(source, b)
  {
    hide *;
    SameElements(a, b);
    if a != [] {
      assert a[0] in b;
      AndroidWins(source, a);
      AppleWins(source, a);
      WinnerForgetsOrder(source, a, b, AndroidVote(source, a));
      WinnerForgetsOrder(source, a, b, AppleVote(source, a));
      VoteIffWinner(source, b, AndroidVote(source, a));
      VoteIffWinner(source, b, AppleVote(source, a));
    } else {
      assert b == [];
    }
  }

  /** The source is returned only when there is no other candidate. */
  lemma SourceOnlyAlone(source: string, values: seq<string>, v: string)
    requires v in values && v != source
    ensures AndroidVote(source, values) != source && AndroidVote(source, values) in values
    ensures AppleVote(source, values) != source && AppleVote(source, values) in values
  {
    AndroidWins(source, values);
    AppleWins(source, values);
  }
}
