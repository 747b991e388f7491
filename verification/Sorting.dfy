/** The stable sort behind `toSorted`, for any order, and the counting maps that feed it. */
module Sorting {
  import opened Text

  ghost predicate Preorder<T(!new)>(le: (T, T) -> bool) {
    && (forall x, y :: le(x, y) || le(y, x))
    && (forall x, y, z :: le(x, y) && le(y, z) ==> le(x, z))
  }

  ghost predicate SortedBy<T>(le: (T, T) -> bool, s: seq<T>) {
    forall i, j :: 0 <= i < j < |s| ==> le(s[i], s[j])
  }

  // Among the elements of `s`, only equal ones are ordered both ways.
  ghost predicate Separates<T>(le: (T, T) -> bool, s: seq<T>) {
    forall x, y :: x in s && y in s && le(x, y) && le(y, x) ==> x == y
  }

  function Insert<T>(le: (T, T) -> bool, x: T, s: seq<T>): (r: seq<T>)
    ensures multiset(r) == multiset{x} + multiset(s)
  {
    if s == [] || le(x, s[0]) then [x] + s
    else
      assert s == [s[0]] + s[1..];
      [s[0]] + Insert(le, x, s[1..])
  }

  function Sort<T>(le: (T, T) -> bool, s: seq<T>): (r: seq<T>)
    ensures multiset(r) == multiset(s)
    ensures |r| == |s|
  {
    if s == [] then []
    else
      assert s == [s[0]] + s[1..];
      var r := Insert(le, s[0], Sort(le, s[1..]));
      assert |multiset(r)| == |r| && |multiset(s)| == |s|;
      r
  }

  lemma {:induction false} InsertSorts<T(!new)>(le: (T, T) -> bool, x: T, s: seq<T>)
    requires Preorder(le) && SortedBy(le, s)
    ensures SortedBy(le, Insert(le, x, s))
    decreases |s|
  {
    if s == [] || le(x, s[0]) {
    } else {
      InsertSorts(le, x, s[1..]);
      var r := Insert(le, x, s[1..]);
      forall j | 0 <= j < |r| ensures le(s[0], r[j]) {
        assert r[j] in multiset(r);
        if r[j] != x {
          assert r[j] in multiset(s[1..]);
          assert r[j] in s[1..];
        }
      }
    }
  }

  lemma {:induction false} SortSorts<T(!new)>(le: (T, T) -> bool, s: seq<T>)
    requires Preorder(le)
    ensures SortedBy(le, Sort(le, s))
    decreases |s|
  {
    if s == [] {
    } else {
      SortSorts(le, s[1..]);
      InsertSorts(le, s[0], Sort(le, s[1..]));
    }
  }

  lemma SameElements<T>(a: seq<T>, b: seq<T>)
    requires multiset(a) == multiset(b)
    ensures |a| == |b| && forall x :: x in a <==> x in b
  {
    assert |multiset(a)| == |a| && |multiset(b)| == |b|;
    forall x ensures x in a <==> x in b {
      assert x in a <==> x in multiset(a);
      assert x in b <==> x in multiset(b);
    }
  }

  lemma HeadsAgree<T(!new)>(le: (T, T) -> bool, a: seq<T>, b: seq<T>)
    requires Preorder(le) && SortedBy(le, a) && SortedBy(le, b)
    requires multiset(a) == multiset(b) && Separates(le, a) && a != []
    ensures b != [] && a[0] == b[0]
  {
    SameElements(a, b);
    assert a[0] in b && b[0] in a;
  }

  lemma TailsKeep<T>(le: (T, T) -> bool, a: seq<T>)
    requires a != [] && SortedBy(le, a)
    ensures SortedBy(le, a[1..])
    ensures multiset(a[1..]) == multiset(a) - multiset{a[0]}
    ensures forall x :: x in a[1..] ==> x in a
  {
    assert a == [a[0]] + a[1..];
  }

  lemma SeparatesFewer<T>(le: (T, T) -> bool, a: seq<T>, b: seq<T>)
    requires Separates(le, a) && forall x :: x in b ==> x in a
    ensures Separates(le, b)
  {
  }

  // Two sorted arrangements of the same elements are the same.
  lemma {:induction false} SortedUnique<T(!new)>(le: (T, T) -> bool, a: seq<T>, b: seq<T>)
    requires Preorder(le) && SortedBy(le, a) && SortedBy(le, b)
    requires multiset(a) == multiset(b) && Separates(le, a)
    ensures a == b
    decreases |a|
  {
    hide *;
    if a == [] {
      SameElements(a, b);
    } else {
      HeadsAgree(le, a, b);
      TailsKeep(le, a);
      TailsKeep(le, b);
      SeparatesFewer(le, a, a[1..]);
      SortedUnique(le, a[1..], b[1..]);
      assert a == [a[0]] + a[1..] && b == [b[0]] + b[1..];
    }
  }

  /** Sorting forgets the order of its input, where the order separates the elements. */
  lemma SortForgets<T(!new)>(le: (T, T) -> bool, a: seq<T>, b: seq<T>)
    requires Preorder(le) && Separates(le, a) && multiset(a) == multiset(b)
    ensures Sort(le, a) == Sort(le, b)
  {
    SortSorts(le, a);
    SortSorts(le, b);
    SameElements(a, Sort(le, a));
    SortedUnique(le, Sort(le, a), Sort(le, b));
  }

  lemma TextOrder()
    ensures Preorder(TextLe)
    ensures forall s: seq<string> :: Separates(TextLe, s)
  {
    forall x, y ensures TextLe(x, y) || TextLe(y, x) {
      TextLeTotal(x, y);
    }
    forall x, y, z | TextLe(x, y) && TextLe(y, z) ensures TextLe(x, z) {
      TextLeTransitive(x, y, z);
    }
    forall x, y | TextLe(x, y) && TextLe(y, x) ensures x == y {
      TextLeAntisymmetric(x, y);
    }
  }

  // Ordered both ways with `c`.
  function Ties<T>(le: (T, T) -> bool, c: T): T -> bool { x => le(x, c) && le(c, x) }

  lemma {:induction false} InsertStable<T(!new)>(le: (T, T) -> bool, x: T, s: seq<T>, c: T)
    requires Preorder(le)
    ensures Filter(Insert(le, x, s), Ties(le, c)) == Filter([x] + s, Ties(le, c))
    decreases |s|
  {
    if s == [] || le(x, s[0]) {
    } else {
      var rest, keep := s[1..], Ties(le, c);
      InsertStable(le, x, rest, c);
      assert s == [s[0]] + rest;
      FilterSplits([s[0]], Insert(le, x, rest), keep);
      FilterSplits([x], rest, keep);
      FilterSplits([s[0]], rest, keep);
      FilterSplits([x], s, keep);
      assert !(keep(x) && keep(s[0]));
      assert Filter([s[0]], keep) == (if keep(s[0]) then [s[0]] else []);
      assert Filter([x], keep) == (if keep(x) then [x] else []);
    }
  }

  /** Sorting is stable: elements that tie keep their order. */
  lemma {:induction false} SortStable<T(!new)>(le: (T, T) -> bool, s: seq<T>, c: T)
    requires Preorder(le)
    ensures Filter(Sort(le, s), Ties(le, c)) == Filter(s, Ties(le, c))
    decreases |s|
  {
    if s == [] {
    } else {
      SortStable(le, s[1..], c);
      InsertStable(le, s[0], Sort(le, s[1..]), c);
      FilterSplits([s[0]], Sort(le, s[1..]), Ties(le, c));
      FilterSplits([s[0]], s[1..], Ties(le, c));
      assert s == [s[0]] + s[1..];
    }
  }

  // ----- distinct elements in order of first occurrence: the keys of a Map, or a Set

  function Distinct<T(==, !new)>(s: seq<T>): (d: seq<T>)
    ensures forall x :: x in d <==> x in s
  {
    if s == [] then []
    else
      var d := Distinct(s[..|s| - 1]);
      var x := s[|s| - 1];
      assert s == s[..|s| - 1] + [x];
      if x in d then d else d + [x]
  }

  ghost predicate NoDuplicates<T>(s: seq<T>) {
    forall i, j :: 0 <= i < j < |s| ==> s[i] != s[j]
  }

  lemma {:induction false} DistinctHasNoDuplicates<T(!new)>(s: seq<T>)
    ensures NoDuplicates(Distinct(s))
    decreases |s|
  {
    if s == [] {
    } else {
      DistinctHasNoDuplicates(s[..|s| - 1]);
    }
  }

  // Some occurrence of `x` stands before every `y`.
  ghost predicate SeenBefore<T>(s: seq<T>, x: T, y: T) {
    exists k :: 0 <= k < |s| && s[k] == x && y !in s[..k + 1]
  }

  lemma SeenEarlier<T>(s: seq<T>, more: seq<T>, x: T, y: T)
    requires SeenBefore(s, x, y)
    ensures SeenBefore(s + more, x, y)
  {
    var k :| 0 <= k < |s| && s[k] == x && y !in s[..k + 1];
    assert (s + more)[k] == x && (s + more)[..k + 1] == s[..k + 1];
  }

  /** The distinct elements stand in the order of their first occurrence. */
  lemma {:induction false} DistinctInOrder<T(!new)>(s: seq<T>, i: nat, j: nat)
    requires i < j < |Distinct(s)|
    ensures SeenBefore(s, Distinct(s)[i], Distinct(s)[j])
    decreases |s|
  {
    var front, x := s[..|s| - 1], s[|s| - 1];
    var d := Distinct(s);
    assert s == front + [x];
    if j < |Distinct(front)| {
      DistinctInOrder(front, i, j);
      SeenEarlier(front, [x], d[i], d[j]);
    } else {
      assert d[i] in Distinct(front) && d[j] == x && x !in front;
      var k :| 0 <= k < |front| && front[k] == d[i];
      assert x !in front[..k + 1];
      SeenEarlier(front, [x], d[i], d[j]);
    }
  }

  lemma {:induction false} OnceEach<T>(s: seq<T>, x: T)
    requires NoDuplicates(s)
    ensures multiset(s)[x] == if x in s then 1 else 0
    decreases |s|
  {
    if s == [] {
    } else {
      assert s == [s[0]] + s[1..];
      OnceEach(s[1..], x);
    }
  }

  lemma TwiceCounts<T>(s: seq<T>, i: nat, j: nat)
    requires i < j < |s| && s[i] == s[j]
    ensures multiset(s)[s[i]] >= 2
  {
    var a, b := s[..j], s[j..];
    assert s == a + b;
    assert a[i] in a && b[0] in b;
    assert multiset(a)[s[i]] >= 1 && multiset(b)[s[i]] >= 1;
  }

  lemma RearrangedHasNoDuplicates<T>(a: seq<T>, b: seq<T>)
    requires NoDuplicates(a) && multiset(a) == multiset(b)
    ensures NoDuplicates(b)
  {
    forall i, j | 0 <= i < j < |b| ensures b[i] != b[j] {
      if b[i] == b[j] {
        TwiceCounts(b, i, j);
        OnceEach(a, b[i]);
      }
    }
  }

  lemma SameSetSameMultiset<T(!new)>(a: seq<T>, b: seq<T>)
    requires NoDuplicates(a) && NoDuplicates(b)
    requires forall x :: x in a <==> x in b
    ensures multiset(a) == multiset(b)
  {
    forall x ensures multiset(a)[x] == multiset(b)[x] {
      OnceEach(a, x);
      OnceEach(b, x);
    }
  }

  // ----- counting occurrences

  function CountEntries(values: seq<string>): (e: seq<(string, nat)>)
    ensures |e| == |Distinct(values)|
    ensures forall i :: 0 <= i < |e| ==> e[i] == (Distinct(values)[i], multiset(values)[Distinct(values)[i]])
  {
    var d := Distinct(values);
    seq(|d|, i requires 0 <= i < |d| => (d[i], multiset(values)[d[i]]))
  }

  lemma EntryIff(values: seq<string>, v: string, n: nat)
    ensures (v, n) in CountEntries(values) <==> v in values && n == multiset(values)[v]
  {
    var d, e := Distinct(values), CountEntries(values);
    if v in values && n == multiset(values)[v] {
      assert v in d;
      var i :| 0 <= i < |d| && d[i] == v;
      assert e[i] == (v, n);
    }
  }

  lemma EntriesHaveNoDuplicates(values: seq<string>)
    ensures NoDuplicates(CountEntries(values))
    ensures forall x, y :: x in CountEntries(values) && y in CountEntries(values) && x.0 == y.0 ==> x == y
  {
    DistinctHasNoDuplicates(values);
    forall x, y | x in CountEntries(values) && y in CountEntries(values) && x.0 == y.0 ensures x == y {
      EntryIff(values, x.0, x.1);
      EntryIff(values, y.0, y.1);
    }
  }

  lemma EntriesForget(a: seq<string>, b: seq<string>)
    requires multiset(a) == multiset(b)
    ensures multiset(CountEntries(a)) == multiset(CountEntries(b))
  {
    EntriesHaveNoDuplicates(a);
    EntriesHaveNoDuplicates(b);
    SameElements(a, b);
    forall x: (string, nat) ensures x in CountEntries(a) <==> x in CountEntries(b) {
      EntryIff(a, x.0, x.1);
      EntryIff(b, x.0, x.1);
    }
    SameSetSameMultiset(CountEntries(a), CountEntries(b));
  }

  /** Fills a count Map in one pass; its entries come in order of first occurrence. */
  method CountValues(values: seq<string>) returns (entries: seq<(string, nat)>)
    ensures entries == CountEntries(values)
  {
    var keys: seq<string> := [];
    var counts: map<string, nat> := map[];
    for i := 0 to |values|
      invariant keys == Distinct(values[..i])
      invariant counts.Keys == set v | v in values[..i]
      invariant forall v :: v in counts ==> counts[v] == multiset(values[..i])[v]
    {
      var value := values[i];
      assert values[..i + 1] == values[..i] + [value];
      assert values[..i + 1][..i] == values[..i];
      if value !in counts {
        keys := keys + [value];
      }
      counts := counts[value := (if value in counts then counts[value] else 0) + 1];
    }
    assert values[..|values|] == values;
    entries := seq(|keys|, i requires 0 <= i < |keys| => (keys[i], counts[keys[i]]));
  }
}
