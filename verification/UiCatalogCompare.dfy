/** Comparing the flat catalog of each locale with the English one: orphan keys, key
    order, placeholders, and the keys for which a locale falls back to English. */
module UiCatalogCompare {
  import opened Text
  import opened Sorting
  import opened UiCatalog
  import opened Placeholders

  datatype LocaleFlat = LocaleFlat(locale: string, flat: Flat)

  datatype Problem =
    | OrphanKeys(locale: string, keys: seq<string>)
    | OutOfOrder(locale: string)
    | PlaceholderMismatch(locale: string, key: string, expected: seq<string>, got: seq<string>)

  datatype Fallback = Fallback(key: string, locales: seq<string>)

  datatype Analysis = Analysis(errors: seq<Problem>, fallbacks: seq<Fallback>)

  function Keys(flat: Flat): seq<string> {
    seq(|flat|, i requires 0 <= i < |flat| => flat[i].0)
  }

  function Get(flat: Flat, key: string): Option<string> {
    if flat == [] then None else if flat[0].0 == key then Some(flat[0].1) else Get(flat[1..], key)
  }

  lemma {:induction false} GetIff(flat: Flat, key: string)
    ensures Get(flat, key).Some? <==> key in Keys(flat)
    decreases |flat|
  {
    if flat == [] {
    } else {
      GetIff(flat[1..], key);
      assert Keys(flat) == [flat[0].0] + Keys(flat[1..]);
    }
  }

  // The keys of `keys` that `other` has, or lacks, in order.
  function Shared(keys: seq<string>, other: Flat): seq<string> {
    if keys == [] then []
    else
      var last := |keys| - 1;
      Shared(keys[..last], other) + (if Get(other, keys[last]).Some? then [keys[last]] else [])
  }

  function Missing(keys: seq<string>, other: Flat): seq<string> {
    if keys == [] then []
    else
      var last := |keys| - 1;
      Missing(keys[..last], other) + (if Get(other, keys[last]).None? then [keys[last]] else [])
  }

  // ----- one locale

  function OrderProblems(source: Flat, l: LocaleFlat): seq<Problem> {
    var orphans := Missing(Keys(l.flat), source);
    (if |orphans| > 0 then [OrphanKeys(l.locale, orphans)] else [])
    + (if Shared(Keys(l.flat), source) != Shared(Keys(source), l.flat) then [OutOfOrder(l.locale)] else [])
  }

  // Placeholder mismatches among the first `n` English keys.
  function PlaceholderProblems(source: Flat, l: LocaleFlat, le: NameOrder, n: nat): seq<Problem>
    requires n <= |source|
  {
    if n == 0 then []
    else
      var key, translated := source[n - 1].0, Get(l.flat, source[n - 1].0);
      PlaceholderProblems(source, l, le, n - 1)
        + (if translated.None? then []
           else
             var expected, got := ExtractPlaceholders(source[n - 1].1, le), ExtractPlaceholders(translated.value, le);
             if expected == got then [] else [PlaceholderMismatch(l.locale, key, expected, got)])
  }

  function LocaleProblems(source: Flat, l: LocaleFlat, le: NameOrder): seq<Problem> {
    OrderProblems(source, l) + PlaceholderProblems(source, l, le, |source|)
  }

  // ----- all locales

  function AllProblems(source: Flat, locales: seq<LocaleFlat>, le: NameOrder): seq<Problem> {
    if locales == [] then []
    else
      var last := |locales| - 1;
      AllProblems(source, locales[..last], le) + LocaleProblems(source, locales[last], le)
  }

  // The locales without `key`, in order.
  function Lacking(locales: seq<LocaleFlat>, key: string): seq<string> {
    if locales == [] then []
    else
      var last := |locales| - 1;
      Lacking(locales[..last], key) + (if Get(locales[last].flat, key).None? then [locales[last].locale] else [])
  }

  // Every missing English key, as often as it is missing.
  function AllMissing(source: Flat, locales: seq<LocaleFlat>): seq<string> {
    if locales == [] then []
    else
      var last := |locales| - 1;
      AllMissing(source, locales[..last]) + Missing(Keys(source), locales[last].flat)
  }

  predicate LocaleLe(le: NameOrder, a: LocaleFlat, b: LocaleFlat) { le(a.locale, b.locale) }

  function SortLocales(le: NameOrder, localeFlats: seq<LocaleFlat>): seq<LocaleFlat> {
    Sort((a: LocaleFlat, b: LocaleFlat) => LocaleLe(le, a, b), localeFlats)
  }

  function FallbacksOf(le: NameOrder, locales: seq<LocaleFlat>, keys: seq<string>): seq<Fallback> {
    var sorted := Sort(le, keys);
    seq(|sorted|, i requires 0 <= i < |sorted| => Fallback(sorted[i], Sort(le, Lacking(locales, sorted[i]))))
  }

  function Analyzed(source: Flat, localeFlats: seq<LocaleFlat>, le: NameOrder): Analysis {
    var locales := SortLocales(le, localeFlats);
    var keys := Distinct(AllMissing(source, locales));
    Analysis(AllProblems(source, locales, le), FallbacksOf(le, locales, keys))
  }

  // ----- the comparison

  // The fallback keys, in order of discovery, and the Map from each to its locales: after
  // the locales `done`, and within `current` once its first `n` English keys are done.
  function KeysAfter(source: Flat, done: seq<LocaleFlat>): seq<string> { Distinct(AllMissing(source, done)) }

  function MapAfter(source: Flat, done: seq<LocaleFlat>): map<string, seq<string>> {
    map key | key in KeysAfter(source, done) :: Lacking(done, key)
  }

  function MissingSoFar(source: Flat, current: LocaleFlat, n: nat): seq<string>
    requires n <= |source|
  {
    Missing(Keys(source)[..n], current.flat)
  }

  function KeysWithin(source: Flat, done: seq<LocaleFlat>, current: LocaleFlat, n: nat): seq<string>
    requires n <= |source|
  {
    Distinct(AllMissing(source, done) + MissingSoFar(source, current, n))
  }

  function LocalesWithin(source: Flat, done: seq<LocaleFlat>, current: LocaleFlat, n: nat, key: string): seq<string>
    requires n <= |source|
  {
    if key in MissingSoFar(source, current, n) then Lacking(done, key) + [current.locale] else Lacking(done, key)
  }

  function MapWithin(source: Flat, done: seq<LocaleFlat>, current: LocaleFlat, n: nat): map<string, seq<string>>
    requires n <= |source|
  {
    map key | key in KeysWithin(source, done, current, n) :: LocalesWithin(source, done, current, n, key)
  }

  lemma MissingStep(source: Flat, other: Flat, n: nat)
    requires n < |source|
    ensures var key := source[n].0;
      Missing(Keys(source)[..n + 1], other)
      == Missing(Keys(source)[..n], other) + (if Get(other, key).None? then [key] else [])
  {
    assert Keys(source)[..n + 1][..n] == Keys(source)[..n];
  }

  lemma {:induction false} MissingIff(keys: seq<string>, other: Flat, key: string)
    ensures key in Missing(keys, other) <==> key in keys && Get(other, key).None?
    ensures key in Shared(keys, other) <==> key in keys && Get(other, key).Some?
    decreases |keys|
  {
    if keys == [] {
    } else {
      var last := |keys| - 1;
      MissingIff(keys[..last], other, key);
      assert keys == keys[..last] + [keys[last]];
    }
  }

  lemma {:induction false} LackingNone(source: Flat, locales: seq<LocaleFlat>, key: string)
    ensures key in AllMissing(source, locales) <==> key in Keys(source) && Lacking(locales, key) != []
    decreases |locales|
  {
    if locales == [] {
    } else {
      var last := |locales| - 1;
      LackingNone(source, locales[..last], key);
      MissingIff(Keys(source), locales[last].flat, key);
    }
  }

  lemma WithinStart(source: Flat, done: seq<LocaleFlat>, current: LocaleFlat)
    ensures KeysWithin(source, done, current, 0) == KeysAfter(source, done)
    ensures MapWithin(source, done, current, 0) == MapAfter(source, done)
  {
    assert AllMissing(source, done) + [] == AllMissing(source, done);
  }

  lemma WithinEnd(source: Flat, done: seq<LocaleFlat>, current: LocaleFlat)
    ensures KeysWithin(source, done, current, |source|) == KeysAfter(source, done + [current])
    ensures MapWithin(source, done, current, |source|) == MapAfter(source, done + [current])
  {
    var all := done + [current];
    assert all[..|done|] == done && Keys(source)[..|source|] == Keys(source);
    forall key | key in KeysAfter(source, all)
      ensures LocalesWithin(source, done, current, |source|, key) == Lacking(all, key)
    {
      LackingNone(source, all, key);
      MissingIff(Keys(source), current.flat, key);
      assert Lacking(done, key) + [] == Lacking(done, key);
    }
  }

  // A key that the locale has changes nothing.
  lemma WithinSkip(source: Flat, done: seq<LocaleFlat>, current: LocaleFlat, n: nat)
    requires n < |source| && Get(current.flat, source[n].0).Some?
    ensures KeysWithin(source, done, current, n + 1) == KeysWithin(source, done, current, n)
    ensures MapWithin(source, done, current, n + 1) == MapWithin(source, done, current, n)
  {
    MissingStep(source, current.flat, n);
    assert MissingSoFar(source, current, n) + [] == MissingSoFar(source, current, n);
  }

  lemma MissingGrows(source: Flat, done: seq<LocaleFlat>, current: LocaleFlat, n: nat)
    requires n < |source| && NoDuplicates(Keys(source)) && Get(current.flat, source[n].0).None?
    ensures var key := source[n].0;
      && MissingSoFar(source, current, n + 1) == MissingSoFar(source, current, n) + [key]
      && key !in MissingSoFar(source, current, n)
      && (key !in KeysWithin(source, done, current, n) ==> Lacking(done, key) == [])
      && KeysWithin(source, done, current, n + 1)
         == (if key in KeysWithin(source, done, current, n) then KeysWithin(source, done, current, n)
             else KeysWithin(source, done, current, n) + [key])
  {
    var key := source[n].0;
    var missing, all := MissingSoFar(source, current, n), AllMissing(source, done);
    MissingStep(source, current.flat, n);
    assert all + (missing + [key]) == all + missing + [key];
    MissingIff(Keys(source)[..n], current.flat, key);
    assert Keys(source)[n] == key;
    LackingNone(source, done, key);
  }

  // A missing key gets the locale.
  lemma WithinAdd(source: Flat, done: seq<LocaleFlat>, current: LocaleFlat, n: nat)
    requires n < |source| && NoDuplicates(Keys(source)) && Get(current.flat, source[n].0).None?
    ensures var key, m := source[n].0, MapWithin(source, done, current, n);
      MapWithin(source, done, current, n + 1) == m[key := Lookup(m, key, []) + [current.locale]]
  {
    var key, m := source[n].0, MapWithin(source, done, current, n);
    hide Lacking, AllMissing, Missing, Distinct, Get, NoDuplicates;
    var more := m[key := Lookup(m, key, []) + [current.locale]];
    MissingGrows(source, done, current, n);
    assert Lookup(m, key, []) == Lacking(done, key);
    forall k | k in KeysWithin(source, done, current, n + 1)
      ensures k in more && more[k] == LocalesWithin(source, done, current, n + 1, k)
    {
    }
  }

  lemma MapWithinKeys(source: Flat, done: seq<LocaleFlat>, current: LocaleFlat, n: nat, key: string)
    requires n <= |source|
    ensures key in MapWithin(source, done, current, n) <==> key in KeysWithin(source, done, current, n)
  {
    hide KeysWithin;
  }

  /** The loop over the English keys for one locale, after the locales `done`. */
  method CompareKeys(source: Flat, l: LocaleFlat, le: NameOrder, done: seq<LocaleFlat>,
      inMap: map<string, seq<string>>, inKeys: seq<string>)
    returns (problems: seq<Problem>, byKey: map<string, seq<string>>, keys: seq<string>)
    requires NoDuplicates(Keys(source)) && inMap == MapAfter(source, done) && inKeys == KeysAfter(source, done)
    ensures problems == PlaceholderProblems(source, l, le, |source|)
    ensures byKey == MapAfter(source, done + [l]) && keys == KeysAfter(source, done + [l])
  {
    hide MapAfter, KeysAfter, MapWithin, KeysWithin, LocalesWithin, MissingSoFar, Lacking, AllMissing, Missing;
    hide Distinct, NoDuplicates, ExtractPlaceholders;
    problems, byKey, keys := [], inMap, inKeys;
    WithinStart(source, done, l);
    for n := 0 to |source|
      invariant problems == PlaceholderProblems(source, l, le, n)
      invariant byKey == MapWithin(source, done, l, n) && keys == KeysWithin(source, done, l, n)
    {
      var key := source[n].0;
      var translated := Get(l.flat, key);
      if translated.None? {
        MissingGrows(source, done, l, n);
        WithinAdd(source, done, l, n);
        MapWithinKeys(source, done, l, n, key);
        if key !in byKey {
          keys := keys + [key];
        }
        byKey := byKey[key := Lookup(byKey, key, []) + [l.locale]];
        continue;
      }
      WithinSkip(source, done, l, n);
      var sourcePlaceholders := ExtractPlaceholders(source[n].1, le);
      var translatedPlaceholders := ExtractPlaceholders(translated.value, le);
      if sourcePlaceholders != translatedPlaceholders {
        problems := problems + [PlaceholderMismatch(l.locale, key, sourcePlaceholders, translatedPlaceholders)];
      }
    }
    WithinEnd(source, done, l);
  }

  /** The comparison of one locale, as the loop over locales does it. */
  method CompareLocale(source: Flat, l: LocaleFlat) returns (problems: seq<Problem>)
    ensures problems == OrderProblems(source, l)
  {
    problems := [];
    var orphanKeys := Missing(Keys(l.flat), source);
    if |orphanKeys| > 0 {
      problems := problems + [OrphanKeys(l.locale, orphanKeys)];
    }
    var expectedPresentOrder, actualPresentOrder := Shared(Keys(source), l.flat), Shared(Keys(l.flat), source);
    if actualPresentOrder != expectedPresentOrder {
      problems := problems + [OutOfOrder(l.locale)];
    }
  }

  lemma AnalysisStep(source: Flat, locales: seq<LocaleFlat>, le: NameOrder, i: nat)
    requires i < |locales|
    ensures locales[..i + 1] == locales[..i] + [locales[i]]
    ensures AllProblems(source, locales[..i + 1], le)
      == AllProblems(source, locales[..i], le) + OrderProblems(source, locales[i])
         + PlaceholderProblems(source, locales[i], le, |source|)
  {
    hide OrderProblems, PlaceholderProblems;
    assert locales[..i + 1][..i] == locales[..i];
    Reassociate(AllProblems(source, locales[..i], le), OrderProblems(source, locales[i]),
      PlaceholderProblems(source, locales[i], le, |source|));
  }

  lemma Reassociate(a: seq<Problem>, b: seq<Problem>, c: seq<Problem>)
    ensures a + (b + c) == a + b + c
  {
  }

  lemma NothingCompared(source: Flat, le: NameOrder)
    ensures AllProblems(source, [], le) == []
    ensures KeysAfter(source, []) == [] && MapAfter(source, []) == map[]
  {
  }

  lemma MapKeys(source: Flat, done: seq<LocaleFlat>, key: string)
    ensures key in KeysAfter(source, done) ==>
      key in MapAfter(source, done) && Lookup(MapAfter(source, done), key, []) == Lacking(done, key)
  {
  }

  method AnalyzeControlUiCatalogs(source: Flat, localeFlats: seq<LocaleFlat>, le: NameOrder)
    returns (r: Analysis)
    requires NoDuplicates(Keys(source))
    ensures r == Analyzed(source, localeFlats, le)
  {
    hide AllProblems, OrderProblems, PlaceholderProblems, MapAfter, AllMissing, Lacking, Sort;
    NothingCompared(source, le);
    var errors: seq<Problem> := [];
    var fallbackKeys: seq<string> := [];
    var fallbackLocalesByKey: map<string, seq<string>> := map[];
    var locales := SortLocales(le, localeFlats);
    for i := 0 to |locales|
      invariant errors == AllProblems(source, locales[..i], le)
      invariant fallbackLocalesByKey == MapAfter(source, locales[..i])
      invariant fallbackKeys == KeysAfter(source, locales[..i])
    {
      AnalysisStep(source, locales, le, i);
      var problems := CompareLocale(source, locales[i]);
      errors := errors + problems;
      var mismatches;
      mismatches, fallbackLocalesByKey, fallbackKeys :=
        CompareKeys(source, locales[i], le, locales[..i], fallbackLocalesByKey, fallbackKeys);
      errors := errors + mismatches;
    }
    assert locales[..|locales|] == locales;
    var sorted := Sort(le, fallbackKeys);
    SameElements(fallbackKeys, sorted);
    assert forall i :: 0 <= i < |sorted| ==> sorted[i] in fallbackKeys;
    forall key | key in fallbackKeys ensures Lookup(fallbackLocalesByKey, key, []) == Lacking(locales, key) {
      MapKeys(source, locales, key);
    }
    r := Analysis(errors, seq(|sorted|, i requires 0 <= i < |sorted| =>
      Fallback(sorted[i], Sort(le, Lookup(fallbackLocalesByKey, sorted[i], [])))));
  }

  // ----- the main results

  ghost predicate ListsFallback(fallbacks: seq<Fallback>, key: string, locale: string) {
    exists i :: 0 <= i < |fallbacks| && fallbacks[i].key == key && locale in fallbacks[i].locales
  }

  ghost predicate KeysOnce(fallbacks: seq<Fallback>) {
    forall i, j :: 0 <= i < j < |fallbacks| ==> fallbacks[i].key != fallbacks[j].key
  }

  lemma FallbacksListed(le: NameOrder, locales: seq<LocaleFlat>, keys: seq<string>, key: string, locale: string)
    requires NoDuplicates(keys)
    ensures ListsFallback(FallbacksOf(le, locales, keys), key, locale)
      <==> key in keys && locale in Lacking(locales, key)
    ensures KeysOnce(FallbacksOf(le, locales, keys))
  {
    hide Lacking, Sort, NoDuplicates;
    var fallbacks, sorted := FallbacksOf(le, locales, keys), Sort(le, keys);
    SameElements(keys, sorted);
    SameElements(Lacking(locales, key), Sort(le, Lacking(locales, key)));
    SortedOnce(le, keys);
    if key in keys && locale in Lacking(locales, key) {
      var i :| 0 <= i < |sorted| && sorted[i] == key;
      assert fallbacks[i].key == key && locale in fallbacks[i].locales;
    }
  }

  lemma SortedOnce(le: NameOrder, keys: seq<string>)
    requires NoDuplicates(keys)
    ensures forall i, j :: 0 <= i < j < |Sort(le, keys)| ==> Sort(le, keys)[i] != Sort(le, keys)[j]
  {
    RearrangedHasNoDuplicates(keys, Sort(le, keys));
  }

  lemma {:induction false} LackingIff(locales: seq<LocaleFlat>, key: string, locale: string)
    ensures locale in Lacking(locales, key)
      <==> exists l :: l in locales && l.locale == locale && Get(l.flat, key).None?
    decreases |locales|
  {
    if locales == [] {
    } else {
      var last := |locales| - 1;
      LackingIff(locales[..last], key, locale);
      assert locales == locales[..last] + [locales[last]];
    }
  }

  /** A locale is listed as falling back for a key exactly when the key is English and the
      locale lacks it. Each key is listed once. */
  lemma FallbacksExact(source: Flat, localeFlats: seq<LocaleFlat>, le: NameOrder, key: string, locale: string)
    ensures ListsFallback(Analyzed(source, localeFlats, le).fallbacks, key, locale) <==>
      key in Keys(source) && exists l :: l in localeFlats && l.locale == locale && key !in Keys(l.flat)
    ensures KeysOnce(Analyzed(source, localeFlats, le).fallbacks)
  {
    hide ListsFallback, KeysOnce, FallbacksOf, SortLocales, Distinct, AllMissing, Lacking, Keys, Get;
    var locales := SortLocales(le, localeFlats);
    var keys := Distinct(AllMissing(source, locales));
    SortedLocales(le, localeFlats);
    DistinctHasNoDuplicates(AllMissing(source, locales));
    FallbacksListed(le, locales, keys, key, locale);
    LackingNone(source, locales, key);
    LackingIff(locales, key, locale);
    forall l: LocaleFlat ensures key in Keys(l.flat) <==> Get(l.flat, key).Some? {
      GetIff(l.flat, key);
    }
  }

  lemma SortedLocales(le: NameOrder, localeFlats: seq<LocaleFlat>)
    ensures forall l :: l in localeFlats <==> l in SortLocales(le, localeFlats)
  {
    SameElements(localeFlats, SortLocales(le, localeFlats));
  }

  predicate AgreesAt(source: Flat, l: LocaleFlat, le: NameOrder, i: nat)
    requires i < |source|
  {
    var translated := Get(l.flat, source[i].0);
    translated.Some? ==> ExtractPlaceholders(source[i].1, le) == ExtractPlaceholders(translated.value, le)
  }

  // A locale has no orphan key, keeps the English order, and its lists of placeholders are
  // the English ones.
  ghost predicate ListsAgree(source: Flat, l: LocaleFlat, le: NameOrder) {
    && Keys(l.flat) == Shared(Keys(source), l.flat)
    && AgreeBelow(source, l, le, |source|)
  }

  lemma {:induction false} NoOrphans(keys: seq<string>, source: Flat)
    ensures Missing(keys, source) == [] <==> Shared(keys, source) == keys
    ensures |Missing(keys, source)| + |Shared(keys, source)| == |keys|
    decreases |keys|
  {
    if keys == [] {
    } else {
      var last := |keys| - 1;
      NoOrphans(keys[..last], source);
      assert keys == keys[..last] + [keys[last]];
      if Shared(keys, source) == keys {
        assert |Shared(keys, source)| == |keys|;
      }
    }
  }

  lemma LastAgrees(source: Flat, l: LocaleFlat, le: NameOrder, n: nat)
    requires n < |source|
    ensures PlaceholderProblems(source, l, le, n + 1) == []
      <==> PlaceholderProblems(source, l, le, n) == [] && AgreesAt(source, l, le, n)
  {
  }

  ghost predicate AgreeBelow(source: Flat, l: LocaleFlat, le: NameOrder, n: nat)
    requires n <= |source|
  {
    forall i :: 0 <= i < n ==> AgreesAt(source, l, le, i)
  }

  lemma AgreeBelowStep(source: Flat, l: LocaleFlat, le: NameOrder, n: nat)
    requires n < |source|
    ensures AgreeBelow(source, l, le, n + 1) <==> AgreeBelow(source, l, le, n) && AgreesAt(source, l, le, n)
  {
    hide AgreesAt;
  }

  lemma {:induction false} PlaceholdersAgree(source: Flat, l: LocaleFlat, le: NameOrder, n: nat)
    requires n <= |source|
    ensures PlaceholderProblems(source, l, le, n) == [] <==> AgreeBelow(source, l, le, n)
  {
    hide *;
    if n == 0 {
      NothingDiffers(source, l, le);
    } else {
      PlaceholdersAgree(source, l, le, n - 1);
      LastAgrees(source, l, le, n - 1);
      AgreeBelowStep(source, l, le, n - 1);
    }
  }

  lemma NothingDiffers(source: Flat, l: LocaleFlat, le: NameOrder)
    ensures PlaceholderProblems(source, l, le, 0) == [] && AgreeBelow(source, l, le, 0)
  {
  }

  lemma {:induction false} SharedOfShared(keys: seq<string>, source: Flat, flat: Flat)
    requires forall k :: k in keys ==> Get(source, k).Some?
    ensures Shared(Shared(keys, flat), source) == Shared(keys, flat)
    decreases |keys|
  {
    if keys == [] {
    } else {
      var last := |keys| - 1;
      SharedOfShared(keys[..last], source, flat);
      var front := Shared(keys[..last], flat);
      if Get(flat, keys[last]).Some? {
        assert (front + [keys[last]])[..|front|] == front;
        assert keys[last] in keys;
      } else {
        assert front + [] == front;
      }
    }
  }

  lemma LocaleProblemsIff(source: Flat, l: LocaleFlat, le: NameOrder)
    ensures LocaleProblems(source, l, le) == [] <==> ListsAgree(source, l, le)
  {
    NoOrphans(Keys(l.flat), source);
    PlaceholdersAgree(source, l, le, |source|);
    forall k | k in Keys(source) ensures Get(source, k).Some? {
      GetIff(source, k);
    }
    SharedOfShared(Keys(source), source, l.flat);
    if ListsAgree(source, l, le) {
      assert Shared(Keys(l.flat), source) == Keys(l.flat);
    }
  }

  ghost predicate AllAgree(source: Flat, locales: seq<LocaleFlat>, le: NameOrder) {
    forall l :: l in locales ==> ListsAgree(source, l, le)
  }

  lemma {:induction false} AllProblemsIff(source: Flat, locales: seq<LocaleFlat>, le: NameOrder)
    ensures AllProblems(source, locales, le) == [] <==> AllAgree(source, locales, le)
    decreases |locales|
  {
    hide LocaleProblems, ListsAgree;
    if locales == [] {
    } else {
      hide AllAgree;
      AllProblemsIff(source, locales[..|locales| - 1], le);
      LocaleProblemsIff(source, locales[|locales| - 1], le);
    }
  }

  // The same by the placeholders themselves: a locale has no orphan key, keeps the English
  // order, and each of its texts has the placeholders of the English one.
  ghost predicate NamesAt(source: Flat, l: LocaleFlat, i: nat)
    requires i < |source|
  {
    var translated := Get(l.flat, source[i].0);
    translated.Some? ==> SamePlaceholders(source[i].1, translated.value)
  }

  ghost predicate IsClean(source: Flat, l: LocaleFlat) {
    && Keys(l.flat) == Shared(Keys(source), l.flat)
    && forall i :: 0 <= i < |source| ==> NamesAt(source, l, i)
  }

  lemma CleanIff(source: Flat, l: LocaleFlat, le: NameOrder)
    requires Preorder(le) && SeparatesWords(le)
    ensures ListsAgree(source, l, le) <==> IsClean(source, l)
  {
    hide Preorder, SeparatesWords, Keys, Shared;
    forall i | 0 <= i < |source|
      ensures AgreesAt(source, l, le, i) <==> NamesAt(source, l, i)
    {
      if Get(l.flat, source[i].0).Some? {
        ListsAgreeIff(source[i].1, Get(l.flat, source[i].0).value, le);
      }
    }
  }

  /** There are no errors exactly when every locale is clean: its key sequence is the
      English sequence without the keys it falls back on, and each translation has the
      placeholders of its English text. */
  lemma NoErrorsIff(source: Flat, localeFlats: seq<LocaleFlat>, le: NameOrder)
    requires Preorder(le) && SeparatesWords(le)
    ensures Analyzed(source, localeFlats, le).errors == [] <==> forall l :: l in localeFlats ==> IsClean(source, l)
  {
    hide Preorder, SeparatesWords, IsClean, ListsAgree, AllProblems, SortLocales;
    SortedLocales(le, localeFlats);
    AllProblemsIff(source, SortLocales(le, localeFlats), le);
    forall l ensures ListsAgree(source, l, le) <==> IsClean(source, l) {
      CleanIff(source, l, le);
    }
  }

  // ----- what the errors carry

  function InFlat(flat: Flat): string -> bool { (key: string) => key in Keys(flat) }

  function NotInFlat(flat: Flat): string -> bool { (key: string) => key !in Keys(flat) }

  lemma {:induction false} FiltersAre(keys: seq<string>, other: Flat)
    ensures Missing(keys, other) == Filter(keys, NotInFlat(other)) && Shared(keys, other) == Filter(keys, InFlat(other))
    decreases |keys|
  {
    if keys == [] {
    } else {
      var last := |keys| - 1;
      FiltersAre(keys[..last], other);
      GetIff(other, keys[last]);
    }
  }

  lemma FirstKeyOnce(flat: Flat, value: string)
    requires NoDuplicates(Keys(flat)) && flat != []
    ensures (flat[0].0, value) !in flat[1..]
  {
    forall i | 0 <= i < |flat[1..]| ensures flat[1..][i].0 != flat[0].0 {
      assert Keys(flat)[0] == flat[0].0 && Keys(flat)[i + 1] == flat[1..][i].0;
    }
  }

  // In a Map, a key has the one value that is listed with it.
  lemma {:induction false} GetIs(flat: Flat, key: string, value: string)
    requires NoDuplicates(Keys(flat))
    ensures Get(flat, key) == Some(value) <==> (key, value) in flat
    decreases |flat|
  {
    if flat == [] {
    } else {
      assert Keys(flat[1..]) == Keys(flat)[1..];
      GetIs(flat[1..], key, value);
      assert flat == [flat[0]] + flat[1..];
      FirstKeyOnce(flat, value);
    }
  }

  ghost predicate Mismatches(source: Flat, l: LocaleFlat, le: NameOrder, key: string, expected: seq<string>,
      got: seq<string>)
  {
    exists text, translated ::
      && (key, text) in source && (key, translated) in l.flat && expected != got
      && expected == ExtractPlaceholders(text, le) && got == ExtractPlaceholders(translated, le)
  }

  /** What an error says of a locale: its orphan keys, in its order; that the keys it shares
      with English stand in another order; or the placeholders of a text and of its translation. */
  ghost predicate IsProblemOf(source: Flat, l: LocaleFlat, le: NameOrder, e: Problem) {
    e.locale == l.locale &&
    match e
    case OrphanKeys(_, keys) => keys == Filter(Keys(l.flat), NotInFlat(source)) && keys != []
    case OutOfOrder(_) => Filter(Keys(l.flat), InFlat(source)) != Filter(Keys(source), InFlat(l.flat))
    case PlaceholderMismatch(_, key, expected, got) => Mismatches(source, l, le, key, expected, got)
  }

  lemma OrderProblemsAre(source: Flat, l: LocaleFlat, le: NameOrder, e: Problem)
    ensures e in OrderProblems(source, l) <==> !e.PlaceholderMismatch? && IsProblemOf(source, l, le, e)
  {
    hide Missing, Shared, Filter, InFlat, NotInFlat, Keys;
    FiltersAre(Keys(l.flat), source);
    FiltersAre(Keys(source), l.flat);
  }

  ghost predicate MismatchAt(source: Flat, l: LocaleFlat, le: NameOrder, i: nat, e: Problem)
    requires i < |source|
  {
    var translated := Get(l.flat, source[i].0);
    translated.Some? &&
    var expected, got := ExtractPlaceholders(source[i].1, le), ExtractPlaceholders(translated.value, le);
    expected != got && e == PlaceholderMismatch(l.locale, source[i].0, expected, got)
  }

  lemma ProblemStepIs(source: Flat, l: LocaleFlat, le: NameOrder, n: nat, e: Problem)
    requires n < |source|
    ensures e in PlaceholderProblems(source, l, le, n + 1)
      <==> e in PlaceholderProblems(source, l, le, n) || MismatchAt(source, l, le, n, e)
  {
  }

  lemma {:induction false} PlaceholderProblemsAre(source: Flat, l: LocaleFlat, le: NameOrder, n: nat, e: Problem)
    requires n <= |source|
    ensures e in PlaceholderProblems(source, l, le, n) <==> exists i :: 0 <= i < n && MismatchAt(source, l, le, i, e)
  {
    hide PlaceholderProblems, MismatchAt;
    if n == 0 {
      NothingMismatches(source, l, le);
    } else {
      PlaceholderProblemsAre(source, l, le, n - 1, e);
      ProblemStepIs(source, l, le, n - 1, e);
    }
  }

  lemma NothingMismatches(source: Flat, l: LocaleFlat, le: NameOrder)
    ensures PlaceholderProblems(source, l, le, 0) == []
  {
  }

  lemma MismatchIff(source: Flat, l: LocaleFlat, le: NameOrder, e: Problem)
    requires NoDuplicates(Keys(l.flat))
    ensures (exists i :: 0 <= i < |source| && MismatchAt(source, l, le, i, e))
      <==> e.PlaceholderMismatch? && IsProblemOf(source, l, le, e)
  {
    hide ExtractPlaceholders, Get, NoDuplicates, Keys;
    if i :| 0 <= i < |source| && MismatchAt(source, l, le, i, e) {
      var translated := Get(l.flat, source[i].0).value;
      GetIs(l.flat, source[i].0, translated);
      assert (e.key, source[i].1) in source && (e.key, translated) in l.flat;
    }
    if e.PlaceholderMismatch? && IsProblemOf(source, l, le, e) {
      var text, translated :|
        && (e.key, text) in source && (e.key, translated) in l.flat && e.expected != e.got
        && e.expected == ExtractPlaceholders(text, le) && e.got == ExtractPlaceholders(translated, le);
      GetIs(l.flat, e.key, translated);
      var i :| 0 <= i < |source| && source[i] == (e.key, text);
      assert MismatchAt(source, l, le, i, e);
    }
  }

  lemma LocaleProblemsAre(source: Flat, l: LocaleFlat, le: NameOrder, e: Problem)
    requires NoDuplicates(Keys(l.flat))
    ensures e in LocaleProblems(source, l, le) <==> IsProblemOf(source, l, le, e)
  {
    hide OrderProblems, PlaceholderProblems, IsProblemOf, MismatchAt;
    OrderProblemsAre(source, l, le, e);
    PlaceholderProblemsAre(source, l, le, |source|, e);
    MismatchIff(source, l, le, e);
  }

  ghost predicate AreMaps(locales: seq<LocaleFlat>) {
    forall l :: l in locales ==> NoDuplicates(Keys(l.flat))
  }

  lemma {:induction false} AllProblemsAre(source: Flat, locales: seq<LocaleFlat>, le: NameOrder, e: Problem)
    requires AreMaps(locales)
    ensures e in AllProblems(source, locales, le) <==> exists l :: l in locales && IsProblemOf(source, l, le, e)
    decreases |locales|
  {
    hide LocaleProblems, IsProblemOf, NoDuplicates;
    if locales == [] {
    } else {
      var last := |locales| - 1;
      assert locales == locales[..last] + [locales[last]];
      AllProblemsAre(source, locales[..last], le, e);
      LocaleProblemsAre(source, locales[last], le, e);
    }
  }

  /** The errors are exactly those of the locales. */
  lemma ErrorsExact(source: Flat, localeFlats: seq<LocaleFlat>, le: NameOrder, e: Problem)
    requires AreMaps(localeFlats)
    ensures e in Analyzed(source, localeFlats, le).errors
      <==> exists l :: l in localeFlats && IsProblemOf(source, l, le, e)
  {
    hide IsProblemOf, AllProblems, SortLocales;
    SortedLocales(le, localeFlats);
    AllProblemsAre(source, SortLocales(le, localeFlats), le, e);
  }

  // ----- in which order

  function IndexOf(keys: seq<string>, key: string): nat {
    if keys == [] || keys[0] == key then 0 else 1 + IndexOf(keys[1..], key)
  }

  lemma {:induction false} IndexIs(keys: seq<string>, i: nat)
    requires NoDuplicates(keys) && i < |keys|
    ensures IndexOf(keys, keys[i]) == i
    decreases |keys|
  {
    if i == 0 {
    } else {
      assert NoDuplicates(keys[1..]);
      IndexIs(keys[1..], i - 1);
    }
  }

  // Orphan keys come first, then the order, then placeholders by English key.
  function Rank(source: Flat, e: Problem): nat {
    match e
    case OrphanKeys(_, _) => 0
    case OutOfOrder(_) => 1
    case PlaceholderMismatch(_, key, _, _) => 2 + IndexOf(Keys(source), key)
  }

  ghost predicate Ranked(source: Flat, errors: seq<Problem>) {
    forall i, j :: 0 <= i < j < |errors| ==> Rank(source, errors[i]) < Rank(source, errors[j])
  }

  lemma {:induction false} PlaceholdersRanked(source: Flat, l: LocaleFlat, le: NameOrder, n: nat)
    requires NoDuplicates(Keys(source)) && n <= |source|
    ensures Ranked(source, PlaceholderProblems(source, l, le, n))
    ensures forall e :: e in PlaceholderProblems(source, l, le, n) ==> 2 <= Rank(source, e) < 2 + n
  {
    hide ExtractPlaceholders, IndexOf, NoDuplicates, Get;
    if n == 0 {
    } else {
      PlaceholdersRanked(source, l, le, n - 1);
      IndexIs(Keys(source), n - 1);
      var before := PlaceholderProblems(source, l, le, n - 1);
      assert forall i :: 0 <= i < |before| ==> before[i] in before;
    }
  }

  lemma LocaleRanked(source: Flat, l: LocaleFlat, le: NameOrder)
    requires NoDuplicates(Keys(source))
    ensures Ranked(source, LocaleProblems(source, l, le))
  {
    hide PlaceholderProblems, Missing, Shared, IndexOf, Keys;
    PlaceholdersRanked(source, l, le, |source|);
    var order, rest := OrderProblems(source, l), PlaceholderProblems(source, l, le, |source|);
    assert forall i :: 0 <= i < |rest| ==> rest[i] in rest;
  }

  lemma {:induction false} LocaleOfProblem(source: Flat, l: LocaleFlat, le: NameOrder, n: nat)
    requires n <= |source|
    ensures forall e :: e in PlaceholderProblems(source, l, le, n) ==> e.locale == l.locale
  {
    hide ExtractPlaceholders, Get;
    if n == 0 {
    } else {
      LocaleOfProblem(source, l, le, n - 1);
    }
  }

  ghost predicate ByLocale(le: NameOrder, errors: seq<Problem>) {
    forall i, j :: 0 <= i < j < |errors| ==> le(errors[i].locale, errors[j].locale)
  }

  lemma {:induction false} ProblemLocale(source: Flat, locales: seq<LocaleFlat>, le: NameOrder, e: Problem)
    requires e in AllProblems(source, locales, le)
    ensures exists l :: l in locales && l.locale == e.locale
    decreases |locales|
  {
    hide LocaleProblems;
    var last := |locales| - 1;
    assert locales == locales[..last] + [locales[last]];
    if e in LocaleProblems(source, locales[last], le) {
      SameLocale(source, locales[last], le);
    } else {
      ProblemLocale(source, locales[..last], le, e);
    }
  }

  ghost predicate LocalesInOrder(le: NameOrder, locales: seq<LocaleFlat>) {
    forall i, j :: 0 <= i < j < |locales| ==> le(locales[i].locale, locales[j].locale)
  }

  lemma {:induction false} AllByLocale(source: Flat, locales: seq<LocaleFlat>, le: NameOrder)
    requires Preorder(le) && LocalesInOrder(le, locales)
    ensures ByLocale(le, AllProblems(source, locales, le))
    decreases |locales|
  {
    hide LocaleProblems, ByLocale, Preorder;
    if locales == [] {
      NothingByLocale(le);
    } else {
      var last := |locales| - 1;
      AllByLocale(source, locales[..last], le);
      SameLocale(source, locales[last], le);
      var front, back := AllProblems(source, locales[..last], le), LocaleProblems(source, locales[last], le);
      forall e | e in front ensures le(e.locale, locales[last].locale) {
        ProblemLocale(source, locales[..last], le, e);
      }
      ByLocaleAdd(le, front, back, locales[last].locale);
    }
  }

  lemma NothingByLocale(le: NameOrder)
    ensures ByLocale(le, [])
  {
  }

  lemma ByLocaleAdd(le: NameOrder, front: seq<Problem>, back: seq<Problem>, locale: string)
    requires Preorder(le) && ByLocale(le, front)
    requires forall e :: e in front ==> le(e.locale, locale)
    requires forall e :: e in back ==> e.locale == locale
    ensures ByLocale(le, front + back)
  {
    hide Preorder;
    SameTies(le, back, locale);
    assert forall i :: 0 <= i < |front| ==> front[i] in front;
    assert forall j :: 0 <= j < |back| ==> back[j] in back;
  }

  lemma SameTies(le: NameOrder, errors: seq<Problem>, locale: string)
    requires Preorder(le) && forall e :: e in errors ==> e.locale == locale
    ensures ByLocale(le, errors)
  {
    assert le(locale, locale);
    assert forall i :: 0 <= i < |errors| ==> errors[i] in errors;
  }

  lemma SameLocale(source: Flat, l: LocaleFlat, le: NameOrder)
    ensures forall e :: e in LocaleProblems(source, l, le) ==> e.locale == l.locale
  {
    hide PlaceholderProblems, Missing, Shared, Keys;
    LocaleOfProblem(source, l, le, |source|);
  }

  /** Errors come by locale, in the order of locale names; fallbacks come by key, each with
      its locales, in the same order. */
  lemma AnalysisInOrder(source: Flat, localeFlats: seq<LocaleFlat>, le: NameOrder)
    requires Preorder(le)
    ensures ByLocale(le, Analyzed(source, localeFlats, le).errors)
    ensures var fallbacks := Analyzed(source, localeFlats, le).fallbacks;
      && (forall i, j :: 0 <= i < j < |fallbacks| ==> le(fallbacks[i].key, fallbacks[j].key))
      && (forall i :: 0 <= i < |fallbacks| ==> SortedBy(le, fallbacks[i].locales))
  {
    hide AllProblems, AllMissing, Distinct, Lacking, Sort;
    var locales := SortLocales(le, localeFlats);
    LocalesSorted(le, localeFlats);
    AllByLocale(source, locales, le);
    var keys := Distinct(AllMissing(source, locales));
    SortSorts(le, keys);
    forall key ensures SortedBy(le, Sort(le, Lacking(locales, key))) {
      SortSorts(le, Lacking(locales, key));
    }
  }

  lemma LocalesSorted(le: NameOrder, localeFlats: seq<LocaleFlat>)
    requires Preorder(le)
    ensures var locales := SortLocales(le, localeFlats);
      LocalesInOrder(le, locales)
  {
    var localeLe := (a: LocaleFlat, b: LocaleFlat) => LocaleLe(le, a, b);
    SortSorts(localeLe, localeFlats);
  }

  // ----- the English order

  // Some of the elements, in order.
  ghost predicate IsSubsequence(part: seq<string>, whole: seq<string>) {
    exists at :: At(part, whole, at)
  }

  ghost predicate At(part: seq<string>, whole: seq<string>, at: seq<nat>) {
    && |at| == |part| && Increasing(at)
    && forall i :: 0 <= i < |at| ==> at[i] < |whole| && part[i] == whole[at[i]]
  }

  // Where the whole has no duplicates, the places of a part are those of its elements.
  lemma PlacesPick(part: seq<string>, whole: seq<string>, at: seq<nat>, keep: string -> bool)
    requires NoDuplicates(whole) && At(part, whole, at) && forall key :: keep(key) <==> key in part
    ensures part == Filter(whole, keep)
  {
    forall k: nat ensures k in at <==> k < |whole| && keep(whole[k]) {
      if k < |whole| && whole[k] in part {
        var i :| 0 <= i < |part| && part[i] == whole[k];
        assert at[i] == k;
      }
    }
    hide Filter, Increasing, NoDuplicates;
    FilterUnique(whole, keep, at, part);
  }

  /** A locale has the key sequence of English without its fallback keys exactly when its
      keys are some of the English ones, in order. */
  lemma OrderIff(source: Flat, l: LocaleFlat)
    requires NoDuplicates(Keys(source))
    ensures Keys(l.flat) == Shared(Keys(source), l.flat) <==> IsSubsequence(Keys(l.flat), Keys(source))
  {
    hide Keys, Shared, Filter, Increasing, NoDuplicates;
    var whole, part := Keys(source), Keys(l.flat);
    FiltersAre(whole, l.flat);
    if part == Shared(whole, l.flat) {
      var at := FilterPicks(whole, InFlat(l.flat));
      assert At(part, whole, at);
    } else if at: seq<nat> :| At(part, whole, at) {
      PlacesPick(part, whole, at, InFlat(l.flat));
    }
  }
}
