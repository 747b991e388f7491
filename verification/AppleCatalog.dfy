/** Building an Apple string catalog from native sources and translation artifacts on top
    of the values already shipped: a merge that reaches a fixed point in one build. */
module AppleCatalog {
  import opened Text
  import opened Sorting
  import opened TranslationVote

  datatype StringUnit = StringUnit(state: Option<string>, value: Option<string>)

  datatype Localization = Localization(stringUnit: Option<StringUnit>)

  datatype CatalogEntry = CatalogEntry(localizations: map<string, Localization>)

  type Strings = map<string, CatalogEntry>

  datatype NativeEntry = NativeEntry(id: string, source: string, surface: string, sites: seq<(string, string)>)

  datatype Artifact = Artifact(locale: string, translations: seq<(string, string)>)

  datatype Contradiction = Contradiction(locale: string, source: string, translations: seq<string>)

  /** What a build reads besides the shipped catalog: the native entries, the artifacts,
      which entries belong to this catalog, and how a text is written in the catalog. */
  datatype Input = Input(
    entries: seq<NativeEntry>, artifacts: seq<Artifact>,
    includes: NativeEntry -> bool, catalogValue: string -> string)

  // ----- sources and candidates

  function Included(input: Input, entries: seq<NativeEntry>): seq<NativeEntry> {
    if entries == [] then []
    else
      var last := |entries| - 1;
      Included(input, entries[..last]) + (if input.includes(entries[last]) then [entries[last]] else [])
  }

  function CatalogSources(input: Input): seq<string> {
    var kept := Included(input, input.entries);
    seq(|kept|, i requires 0 <= i < |kept| => input.catalogValue(kept[i].source))
  }

  function Sources(input: Input): seq<string> {
    Sort(TextLe, Distinct(CatalogSources(input)))
  }

  function CatalogIds(input: Input): set<string> {
    var kept := Included(input, input.entries);
    set i | 0 <= i < |kept| :: kept[i].id
  }

  // Of several entries with the same id, the last one counts.
  function EntryById(entries: seq<NativeEntry>, id: string): Option<NativeEntry> {
    if entries == [] then None
    else
      var last := |entries| - 1;
      if entries[last].id == id then Some(entries[last]) else EntryById(entries[..last], id)
  }

  function ArtifactFor(artifacts: seq<Artifact>, locale: string): Option<Artifact> {
    if artifacts == [] then None
    else
      var last := |artifacts| - 1;
      if artifacts[last].locale == locale then Some(artifacts[last]) else ArtifactFor(artifacts[..last], locale)
  }

  // The catalog source that a translated id stands for.
  function SourceOf(input: Input, id: string): Option<string> {
    var entry := EntryById(input.entries, id);
    if entry.None? || id !in CatalogIds(input) then None else Some(input.catalogValue(entry.value.source))
  }

  function ValuesFor(input: Input, translations: seq<(string, string)>, source: string): seq<string> {
    if translations == [] then []
    else
      var last := |translations| - 1;
      ValuesFor(input, translations[..last], source)
        + (if SourceOf(input, translations[last].0) != Some(source) then []
           else [input.catalogValue(translations[last].1)])
  }

  function CandidatesFor(input: Input, locale: string, source: string): seq<string> {
    var artifact := ArtifactFor(input.artifacts, locale);
    if artifact.None? then [] else ValuesFor(input, artifact.value.translations, source)
  }

  // ----- one localization

  predicate IsShipped(unit: Option<StringUnit>) {
    && unit.Some? && unit.value.value.Some? && unit.value.value.value != ""
    && unit.value.state == Some("translated")
  }

  function ExistingUnit(existing: Strings, source: string, locale: string): Option<StringUnit> {
    if source !in existing || locale !in existing[source].localizations then None
    else existing[source].localizations[locale].stringUnit
  }

  function NewUnit(source: string, locale: string, candidates: seq<string>): StringUnit {
    if locale == "en" then StringUnit(Some("translated"), Some(source))
    else
      var value := AppleVote(source, candidates);
      StringUnit(Some(if value == source then "new" else "translated"), Some(value))
  }

  function BuiltUnit(existing: Strings, source: string, locale: string, candidates: seq<string>): StringUnit {
    var unit := ExistingUnit(existing, source, locale);
    if IsShipped(unit) then unit.value else NewUnit(source, locale, candidates)
  }

  // ----- the whole catalog

  function UnitFor(existing: Strings, input: Input, source: string, locale: string): StringUnit {
    BuiltUnit(existing, source, locale, CandidatesFor(input, locale, source))
  }

  function BuiltLocalizations(existing: Strings, input: Input, source: string, locales: seq<string>):
    map<string, Localization>
  {
    map locale | locale in locales :: Localization(Some(UnitFor(existing, input, source, locale)))
  }

  function BuiltFor(existing: Strings, input: Input, locales: seq<string>, sources: seq<string>): Strings {
    map source | source in sources :: CatalogEntry(BuiltLocalizations(existing, input, source, locales))
  }

  function BuiltStrings(existing: Strings, input: Input, locales: seq<string>): Strings {
    BuiltFor(existing, input, locales, Sources(input))
  }

  function DistinctSorted(input: Input, locale: string, source: string): seq<string> {
    Sort(TextLe, Distinct(CandidatesFor(input, locale, source)))
  }

  function ContradictionsOf(input: Input, locales: seq<string>, source: string): seq<Contradiction> {
    if locales == [] then []
    else
      var last := |locales| - 1;
      var distinct := DistinctSorted(input, locales[last], source);
      ContradictionsOf(input, locales[..last], source)
        + (if |distinct| > 1 then [Contradiction(locales[last], source, distinct)] else [])
  }

  function AllContradictions(input: Input, locales: seq<string>, sources: seq<string>): seq<Contradiction> {
    if sources == [] then []
    else
      var last := |sources| - 1;
      AllContradictions(input, locales, sources[..last]) + ContradictionsOf(input, locales, sources[last])
  }

  predicate ContradictionLe(a: Contradiction, b: Contradiction) {
    if a.source == b.source then TextLe(a.locale, b.locale) else TextLe(a.source, b.source)
  }

  function Contradictions(input: Input, locales: seq<string>): seq<Contradiction> {
    Sort(ContradictionLe, AllContradictions(input, locales, Sources(input)))
  }

  // ----- the builder

  ghost predicate IsBySource(m: map<string, seq<string>>, input: Input, translations: seq<(string, string)>) {
    forall source :: Lookup(m, source, []) == ValuesFor(input, translations, source)
  }

  lemma BySourceGrows(m: map<string, seq<string>>, input: Input, translations: seq<(string, string)>, i: nat)
    requires i < |translations| && IsBySource(m, input, translations[..i])
    ensures var at, value := SourceOf(input, translations[i].0), input.catalogValue(translations[i].1);
      IsBySource(if at.None? then m else m[at.value := Lookup(m, at.value, []) + [value]], input, translations[..i + 1])
  {
    var at, value := SourceOf(input, translations[i].0), input.catalogValue(translations[i].1);
    var more := if at.None? then m else m[at.value := Lookup(m, at.value, []) + [value]];
    assert translations[..i + 1][..i] == translations[..i];
    forall source ensures Lookup(more, source, []) == ValuesFor(input, translations[..i + 1], source) {
      assert Lookup(m, source, []) == ValuesFor(input, translations[..i], source);
    }
  }

  /** One artifact's translations, collected by catalog source. */
  method CollectBySource(input: Input, artifact: Artifact) returns (bySource: map<string, seq<string>>)
    ensures IsBySource(bySource, input, artifact.translations)
  {
    bySource := map[];
    for i := 0 to |artifact.translations|
      invariant IsBySource(bySource, input, artifact.translations[..i])
    {
      BySourceGrows(bySource, input, artifact.translations, i);
      var source := SourceOf(input, artifact.translations[i].0);
      if source.None? {
        continue;
      }
      var value := input.catalogValue(artifact.translations[i].1);
      bySource := bySource[source.value := Lookup(bySource, source.value, []) + [value]];
    }
    assert artifact.translations[..|artifact.translations|] == artifact.translations;
  }

  function CandidatesIn(byLocale: map<string, map<string, seq<string>>>, locale: string, source: string): seq<string> {
    if locale in byLocale then Lookup(byLocale[locale], source, []) else []
  }

  method CollectByLocale(input: Input) returns (byLocale: map<string, map<string, seq<string>>>)
    ensures forall locale, source :: CandidatesIn(byLocale, locale, source) == CandidatesFor(input, locale, source)
  {
    byLocale := map[];
    for i := 0 to |input.artifacts|
      invariant forall locale :: locale in byLocale <==> ArtifactFor(input.artifacts[..i], locale).Some?
      invariant forall locale :: locale in byLocale ==>
        IsBySource(byLocale[locale], input, ArtifactFor(input.artifacts[..i], locale).value.translations)
    {
      assert input.artifacts[..i + 1][..i] == input.artifacts[..i];
      var bySource := CollectBySource(input, input.artifacts[i]);
      byLocale := byLocale[input.artifacts[i].locale := bySource];
    }
    assert input.artifacts[..|input.artifacts|] == input.artifacts;
  }

  lemma LocalizationsGrow(existing: Strings, input: Input, source: string, locales: seq<string>, l: nat)
    requires l < |locales|
    ensures BuiltLocalizations(existing, input, source, locales[..l + 1])
      == BuiltLocalizations(existing, input, source, locales[..l])
           [locales[l] := Localization(Some(UnitFor(existing, input, source, locales[l])))]
  {
    assert locales[..l + 1] == locales[..l] + [locales[l]];
  }

  lemma ContradictionsGrow(input: Input, locales: seq<string>, source: string, l: nat)
    requires l < |locales|
    ensures var distinct := DistinctSorted(input, locales[l], source);
      ContradictionsOf(input, locales[..l + 1], source)
      == ContradictionsOf(input, locales[..l], source)
         + (if |distinct| > 1 then [Contradiction(locales[l], source, distinct)] else [])
  {
    assert locales[..l + 1][..l] == locales[..l];
  }

  /** The inner loop: one source in every locale. */
  method LocalizeSource(existing: Strings, input: Input, locales: seq<string>, source: string,
      translationsByLocale: map<string, map<string, seq<string>>>)
    returns (localizations: map<string, Localization>, contradictions: seq<Contradiction>)
    requires forall locale :: CandidatesIn(translationsByLocale, locale, source) == CandidatesFor(input, locale, source)
    ensures localizations == BuiltLocalizations(existing, input, source, locales)
    ensures contradictions == ContradictionsOf(input, locales, source)
  {
    localizations, contradictions := map[], [];
    for l := 0 to |locales|
      invariant localizations == BuiltLocalizations(existing, input, source, locales[..l])
      invariant contradictions == ContradictionsOf(input, locales[..l], source)
    {
      var locale := locales[l];
      LocalizationsGrow(existing, input, source, locales, l);
      ContradictionsGrow(input, locales, source, l);
      var candidates := CandidatesIn(translationsByLocale, locale, source);
      var distinct := Sort(TextLe, Distinct(candidates));
      if |distinct| > 1 {
        contradictions := contradictions + [Contradiction(locale, source, distinct)];
      }
      var existingUnit := ExistingUnit(existing, source, locale);
      if IsShipped(existingUnit) {
        localizations := localizations[locale := Localization(Some(existingUnit.value))];
        continue;
      }
      if locale == "en" {
        localizations := localizations[locale := Localization(Some(StringUnit(Some("translated"), Some(source))))];
        continue;
      }
      var value := ChooseTranslation(source, candidates);
      var state := if value == source then "new" else "translated";
      localizations := localizations[locale := Localization(Some(StringUnit(Some(state), Some(value))))];
    }
    assert locales[..|locales|] == locales;
  }

  lemma StringsGrow(existing: Strings, input: Input, locales: seq<string>, sources: seq<string>, s: nat)
    requires s < |sources|
    ensures BuiltFor(existing, input, locales, sources[..s + 1])
      == BuiltFor(existing, input, locales, sources[..s])
           [sources[s] := CatalogEntry(BuiltLocalizations(existing, input, sources[s], locales))]
    ensures AllContradictions(input, locales, sources[..s + 1])
      == AllContradictions(input, locales, sources[..s]) + ContradictionsOf(input, locales, sources[s])
  {
    assert sources[..s + 1] == sources[..s] + [sources[s]] && sources[..s + 1][..s] == sources[..s];
  }

  method BuildAppleCatalog(existing: Strings, input: Input, locales: seq<string>)
    returns (strings: Strings, contradictions: seq<Contradiction>)
    ensures strings == BuiltStrings(existing, input, locales)
    ensures contradictions == Contradictions(input, locales)
  {
    hide CandidatesFor, CandidatesIn, BuiltLocalizations, ContradictionsOf, Sources, Sort;
    var sources := Sources(input);
    var translationsByLocale := CollectByLocale(input);
    strings, contradictions := map[], [];
    for s := 0 to |sources|
      invariant strings == BuiltFor(existing, input, locales, sources[..s])
      invariant contradictions == AllContradictions(input, locales, sources[..s])
    {
      var source := sources[s];
      StringsGrow(existing, input, locales, sources, s);
      var localizations, found := LocalizeSource(existing, input, locales, source, translationsByLocale);
      contradictions := contradictions + found;
      strings := strings[source := CatalogEntry(localizations)];
    }
    assert sources[..|sources|] == sources;
    contradictions := Sort(ContradictionLe, contradictions);
  }

  // ----- the fixed point

  lemma BuiltUnitIs(existing: Strings, input: Input, locales: seq<string>, source: string, locale: string)
    requires source in Sources(input) && locale in locales
    ensures ExistingUnit(BuiltStrings(existing, input, locales), source, locale)
      == Some(UnitFor(existing, input, source, locale))
  {
  }

  lemma LocalizationsAgree(once: Strings, existing: Strings, input: Input, source: string, locales: seq<string>)
    requires forall locale :: locale in locales ==>
      UnitFor(once, input, source, locale) == UnitFor(existing, input, source, locale)
    ensures BuiltLocalizations(once, input, source, locales) == BuiltLocalizations(existing, input, source, locales)
  {
  }

  /** Building again from the built catalog, with the same inputs, changes nothing. The
      contradictions do not depend on the shipped catalog at all. */
  lemma BuildIsIdempotent(existing: Strings, input: Input, locales: seq<string>)
    ensures var once := BuiltStrings(existing, input, locales); BuiltStrings(once, input, locales) == once
  {
    var once := BuiltStrings(existing, input, locales);
    forall source | source in Sources(input)
      ensures BuiltLocalizations(once, input, source, locales) == BuiltLocalizations(existing, input, source, locales)
    {
      forall locale | locale in locales
        ensures UnitFor(once, input, source, locale) == UnitFor(existing, input, source, locale)
      {
        BuiltUnitIs(existing, input, locales, source, locale);
      }
      LocalizationsAgree(once, existing, input, source, locales);
    }
  }

  // Several builds in a row, each with its own inputs.
  function BuildAll(existing: Strings, inputs: seq<Input>, locales: seq<string>): Strings {
    if inputs == [] then existing
    else BuiltStrings(BuildAll(existing, inputs[..|inputs| - 1], locales), inputs[|inputs| - 1], locales)
  }

  /** A shipped, non-empty translation survives any number of later builds, whatever
      their artifacts say, as long as its source stays in each of them. */
  lemma {:induction false} ShippedSurvives(existing: Strings, inputs: seq<Input>, locales: seq<string>,
      source: string, locale: string)
    requires locale in locales && IsShipped(ExistingUnit(existing, source, locale))
    requires forall i :: 0 <= i < |inputs| ==> source in Sources(inputs[i])
    ensures ExistingUnit(BuildAll(existing, inputs, locales), source, locale) == ExistingUnit(existing, source, locale)
    decreases |inputs|
  {
    if inputs == [] {
    } else {
      ShippedSurvives(existing, inputs[..|inputs| - 1], locales, source, locale);
      BuiltUnitIs(BuildAll(existing, inputs[..|inputs| - 1], locales), inputs[|inputs| - 1], locales, source, locale);
    }
  }

  ghost predicate IsSource(input: Input, source: string) {
    exists e :: e in input.entries && input.includes(e) && input.catalogValue(e.source) == source
  }

  /** A build keeps exactly the sources of its input, whatever was shipped: a source that
      is dropped takes its translations with it. */
  lemma KeepsExactlySources(existing: Strings, input: Input, locales: seq<string>, source: string)
    ensures source in BuiltStrings(existing, input, locales) <==> IsSource(input, source)
  {
    SourcesIff(input, source);
  }

  lemma SourcesIff(input: Input, source: string)
    ensures source in Sources(input) <==> IsSource(input, source)
  {
    var keys := CatalogSources(input);
    SameElements(Distinct(keys), Sources(input));
    var kept := Included(input, input.entries);
    if source in keys {
      var i :| 0 <= i < |keys| && keys[i] == source;
      IncludedIff(input, input.entries, kept[i]);
      assert kept[i] in input.entries && input.includes(kept[i]);
    }
    forall e | e in input.entries && input.includes(e) && input.catalogValue(e.source) == source
      ensures source in keys
    {
      IncludedIff(input, input.entries, e);
      var i :| 0 <= i < |kept| && kept[i] == e;
      assert keys[i] == source;
    }
  }

  lemma {:induction false} IncludedIff(input: Input, entries: seq<NativeEntry>, e: NativeEntry)
    ensures e in Included(input, entries) <==> e in entries && input.includes(e)
    decreases |entries|
  {
    if entries == [] {
    } else {
      var last := |entries| - 1;
      IncludedIff(input, entries[..last], e);
      assert entries == entries[..last] + [entries[last]];
    }
  }

  /** Where nothing is shipped, a non-English unit holds the winner of the vote among the
      candidates, or the source if there are none, and is marked new exactly when no
      candidate differs from the source. */
  lemma FreshUnitIsWinner(existing: Strings, source: string, locale: string, candidates: seq<string>)
    requires locale != "en" && !IsShipped(ExistingUnit(existing, source, locale))
    ensures var unit := BuiltUnit(existing, source, locale, candidates);
      && unit.value.Some?
      && (candidates != [] ==> IsWinner(source, candidates, unit.value.value))
      && (candidates == [] ==> unit == StringUnit(Some("new"), Some(source)))
      && (unit.state == Some("translated") <==> unit.state != Some("new"))
      && (unit.state == Some("new") <==> forall v :: v in candidates ==> v == source)
  {
    var w := AppleVote(source, candidates);
    if candidates == [] {
      assert Distinct<string>([]) == [];
      assert w == source;
    } else {
      AppleWins(source, candidates);
      if exists v :: v in candidates && v != source {
        assert w != source;
      } else {
        assert w in candidates;
      }
    }
  }

  // ----- what a build writes, in terms of its input

  // A translated, non-empty unit is shipped for the source and locale.
  predicate Ships(existing: Strings, source: string, locale: string, value: string) {
    && source in existing && locale in existing[source].localizations
    && existing[source].localizations[locale].stringUnit == Some(StringUnit(Some("translated"), Some(value)))
    && value != ""
  }

  ghost predicate ShipsAny(existing: Strings, source: string, locale: string) {
    exists value :: Ships(existing, source, locale, value)
  }

  function TranslatedUnit(value: string): Localization {
    Localization(Some(StringUnit(Some("translated"), Some(value))))
  }

  lemma ShipsIff(existing: Strings, source: string, locale: string)
    ensures ShipsAny(existing, source, locale) <==> IsShipped(ExistingUnit(existing, source, locale))
    ensures forall value :: Ships(existing, source, locale, value) ==>
      ExistingUnit(existing, source, locale) == Some(StringUnit(Some("translated"), Some(value)))
  {
    var unit := ExistingUnit(existing, source, locale);
    if IsShipped(unit) {
      assert Ships(existing, source, locale, unit.value.value.value);
    }
  }

  lemma BuiltAt(existing: Strings, input: Input, locales: seq<string>, source: string, locale: string)
    requires IsSource(input, source) && locale in locales
    ensures var built := BuiltStrings(existing, input, locales);
      && source in built && built[source].localizations.Keys == (set l | l in locales)
      && built[source].localizations[locale] == Localization(Some(UnitFor(existing, input, source, locale)))
  {
    SourcesIff(input, source);
  }

  /** A shipped translated, non-empty value is written again, for English like for any other
      locale, whatever the artifacts say. */
  lemma ShippedIsKept(existing: Strings, input: Input, locales: seq<string>, source: string, locale: string,
      value: string)
    requires IsSource(input, source) && locale in locales && Ships(existing, source, locale, value)
    ensures var built := BuiltStrings(existing, input, locales);
      && source in built && locale in built[source].localizations
      && built[source].localizations[locale] == TranslatedUnit(value)
  {
    BuiltAt(existing, input, locales, source, locale);
    ShipsIff(existing, source, locale);
    assert ShipsAny(existing, source, locale);
  }

  /** Where no English value is shipped, the English unit is the source, translated, whatever
      the artifacts say. */
  lemma EnglishIsSource(existing: Strings, input: Input, locales: seq<string>, source: string)
    requires IsSource(input, source) && "en" in locales && !ShipsAny(existing, source, "en")
    ensures var built := BuiltStrings(existing, input, locales);
      && source in built && "en" in built[source].localizations
      && built[source].localizations["en"] == TranslatedUnit(source)
  {
    BuiltAt(existing, input, locales, source, "en");
    ShipsIff(existing, source, "en");
  }

  /** Where nothing is shipped, any other unit is the winner of the vote, or the source when
      there are no candidates; it is new when that is the source, and translated otherwise. */
  lemma OtherIsVoted(existing: Strings, input: Input, locales: seq<string>, source: string, locale: string)
      returns (value: string)
    requires IsSource(input, source) && locale in locales && locale != "en" && !ShipsAny(existing, source, locale)
    ensures var built := BuiltStrings(existing, input, locales);
      && source in built && locale in built[source].localizations
      && built[source].localizations[locale]
         == Localization(Some(StringUnit(Some(if value == source then "new" else "translated"), Some(value))))
    ensures var candidates := CandidatesFor(input, locale, source);
      if candidates == [] then value == source else IsWinner(source, candidates, value)
  {
    hide CandidatesFor, AppleVote, IsWinner;
    BuiltAt(existing, input, locales, source, locale);
    ShipsIff(existing, source, locale);
    var candidates := CandidatesFor(input, locale, source);
    value := AppleVote(source, candidates);
    if candidates == [] {
      VoteOnNone(source);
    } else {
      AppleWins(source, candidates);
    }
  }

  lemma VoteOnNone(source: string)
    ensures AppleVote(source, []) == source
  {
    assert Distinct<string>([]) == [];
  }

  // ----- which candidates there are

  // The last artifact of a locale counts.
  ghost predicate IsArtifactFor(input: Input, locale: string, a: nat) {
    && a < |input.artifacts| && input.artifacts[a].locale == locale
    && forall b :: a < b < |input.artifacts| ==> input.artifacts[b].locale != locale
  }

  // The last entry with an id counts.
  ghost predicate IsEntryFor(entries: seq<NativeEntry>, id: string, e: nat) {
    e < |entries| && entries[e].id == id && forall f :: e < f < |entries| ==> entries[f].id != id
  }

  /** The id stands for the source: some included entry has the id, and the last entry with
      it, included or not, is written as the source. */
  ghost predicate StandsFor(input: Input, id: string, source: string) {
    && (exists e :: e in input.entries && input.includes(e) && e.id == id)
    && exists e: nat :: IsEntryFor(input.entries, id, e) && input.catalogValue(input.entries[e].source) == source
  }

  lemma {:induction false} EntryByIdIff(entries: seq<NativeEntry>, id: string)
    ensures EntryById(entries, id).Some? <==> exists e :: e in entries && e.id == id
    ensures forall e: nat :: IsEntryFor(entries, id, e) ==> EntryById(entries, id) == Some(entries[e])
    ensures EntryById(entries, id).Some? ==> exists e: nat :: IsEntryFor(entries, id, e)
    decreases |entries|
  {
    if entries == [] {
    } else {
      var front, last := entries[..|entries| - 1], |entries| - 1;
      EntryByIdIff(front, id);
      assert entries == front + [entries[last]];
      if entries[last].id == id {
        assert IsEntryFor(entries, id, last);
      } else {
        forall e: nat ensures IsEntryFor(entries, id, e) <==> IsEntryFor(front, id, e) {
          if IsEntryFor(front, id, e) {
            assert forall f :: e < f < last ==> entries[f] == front[f];
          }
          if IsEntryFor(entries, id, e) {
            assert forall f :: e < f < last ==> entries[f] == front[f];
          }
        }
      }
    }
  }

  lemma IdIff(input: Input, id: string)
    ensures id in CatalogIds(input) <==> exists e :: e in input.entries && input.includes(e) && e.id == id
  {
    var kept := Included(input, input.entries);
    if id in CatalogIds(input) {
      var i :| 0 <= i < |kept| && kept[i].id == id;
      IncludedIff(input, input.entries, kept[i]);
    }
    forall e | e in input.entries && input.includes(e) && e.id == id ensures id in CatalogIds(input) {
      IncludedIff(input, input.entries, e);
      var i :| 0 <= i < |kept| && kept[i] == e;
    }
  }

  lemma SourceOfIff(input: Input, id: string, source: string)
    ensures SourceOf(input, id) == Some(source) <==> StandsFor(input, id, source)
  {
    hide EntryById, CatalogIds, IsEntryFor;
    EntryByIdIff(input.entries, id);
    IdIff(input, id);
  }

  function Written(input: Input, kept: seq<(string, string)>): seq<string> {
    seq(|kept|, i requires 0 <= i < |kept| => input.catalogValue(kept[i].1))
  }

  ghost function ForSource(input: Input, source: string): ((string, string)) -> bool {
    (t: (string, string)) => StandsFor(input, t.0, source)
  }

  lemma {:induction false} ValuesForAre(input: Input, translations: seq<(string, string)>, source: string)
    ensures ValuesFor(input, translations, source) == Written(input, Filter(translations, ForSource(input, source)))
    decreases |translations|
  {
    hide SourceOf, StandsFor;
    if translations == [] {
    } else {
      var last := |translations| - 1;
      ValuesForAre(input, translations[..last], source);
      SourceOfIff(input, translations[last].0, source);
    }
  }

  lemma {:induction false} ArtifactForIs(artifacts: seq<Artifact>, locale: string, a: nat)
    requires a < |artifacts| && artifacts[a].locale == locale
    requires forall b :: a < b < |artifacts| ==> artifacts[b].locale != locale
    ensures ArtifactFor(artifacts, locale) == Some(artifacts[a])
    decreases |artifacts|
  {
    var last := |artifacts| - 1;
    if a < last {
      ArtifactForIs(artifacts[..last], locale, a);
    }
  }

  lemma {:induction false} NoArtifact(artifacts: seq<Artifact>, locale: string)
    requires forall a :: a in artifacts ==> a.locale != locale
    ensures ArtifactFor(artifacts, locale) == None
    decreases |artifacts|
  {
    if artifacts == [] {
    } else {
      assert artifacts[|artifacts| - 1] in artifacts;
      NoArtifact(artifacts[..|artifacts| - 1], locale);
    }
  }

  /** The candidates are the values of the last artifact of the locale whose ids stand for
      the source, in order, as the catalog writes them; without an artifact there are none. */
  lemma CandidatesAre(input: Input, locale: string, source: string)
    ensures (forall a :: a in input.artifacts ==> a.locale != locale) ==> CandidatesFor(input, locale, source) == []
    ensures forall a: nat :: IsArtifactFor(input, locale, a) ==>
      CandidatesFor(input, locale, source)
      == Written(input, Filter(input.artifacts[a].translations, ForSource(input, source)))
  {
    hide ValuesFor, Filter, ForSource, Written, ArtifactFor;
    if forall a :: a in input.artifacts ==> a.locale != locale {
      NoArtifact(input.artifacts, locale);
    }
    forall a: nat | IsArtifactFor(input, locale, a)
      ensures CandidatesFor(input, locale, source)
        == Written(input, Filter(input.artifacts[a].translations, ForSource(input, source)))
    {
      ArtifactForIs(input.artifacts, locale, a);
      ValuesForAre(input, input.artifacts[a].translations, source);
    }
  }

  // ----- the contradictions

  /** The candidates of a source in a locale, each once and in text order. */
  ghost predicate ListsCandidates(input: Input, locale: string, source: string, translations: seq<string>) {
    && NoDuplicates(translations) && SortedBy(TextLe, translations)
    && forall v :: v in translations <==> v in CandidatesFor(input, locale, source)
  }

  ghost predicate Disputed(input: Input, locale: string, source: string) {
    exists v, w :: v in CandidatesFor(input, locale, source) && w in CandidatesFor(input, locale, source) && v != w
  }

  lemma TextSeparates(s: seq<string>)
    ensures Separates(TextLe, s)
  {
    forall x, y | TextLe(x, y) && TextLe(y, x) ensures x == y {
      TextLeAntisymmetric(x, y);
    }
  }

  lemma DistinctSortedIff(input: Input, locale: string, source: string, translations: seq<string>)
    ensures translations == DistinctSorted(input, locale, source)
      <==> ListsCandidates(input, locale, source, translations)
  {
    hide CandidatesFor, Distinct, Sort, Preorder, Separates, SortedBy, NoDuplicates;
    var candidates := CandidatesFor(input, locale, source);
    var sorted := DistinctSorted(input, locale, source);
    TextOrder();
    TextSeparates(translations);
    DistinctHasNoDuplicates(candidates);
    SortSorts(TextLe, Distinct(candidates));
    SameElements(Distinct(candidates), sorted);
    RearrangedHasNoDuplicates(Distinct(candidates), sorted);
    if ListsCandidates(input, locale, source, translations) {
      SameSetSameMultiset(translations, sorted);
      SortedUnique(TextLe, translations, sorted);
    }
  }

  lemma DisputedIff(input: Input, locale: string, source: string)
    ensures |DistinctSorted(input, locale, source)| > 1 <==> Disputed(input, locale, source)
  {
    hide DistinctSorted, CandidatesFor, SortedBy;
    var sorted := DistinctSorted(input, locale, source);
    DistinctSortedIff(input, locale, source, sorted);
    if |sorted| > 1 {
      assert sorted[0] in sorted && sorted[1] in sorted && sorted[0] != sorted[1];
    }
    if v, w :| v in sorted && w in sorted && v != w {
      assert |sorted| > 1;
    }
  }

  ghost predicate IsContradiction(input: Input, c: Contradiction) {
    |DistinctSorted(input, c.locale, c.source)| > 1 && c.translations == DistinctSorted(input, c.locale, c.source)
  }

  lemma InFrontOrLast<T>(s: seq<T>, x: T)
    requires s != []
    ensures x in s <==> x in s[..|s| - 1] || x == s[|s| - 1]
  {
    assert s == s[..|s| - 1] + [s[|s| - 1]];
  }

  lemma {:induction false} ContradictionsOfIff(input: Input, locales: seq<string>, source: string, c: Contradiction)
    ensures c in ContradictionsOf(input, locales, source)
      <==> c.source == source && c.locale in locales && IsContradiction(input, c)
    decreases |locales|
  {
    if locales == [] {
    } else {
      hide DistinctSorted, IsContradiction;
      var last := |locales| - 1;
      var distinct := DistinctSorted(input, locales[last], source);
      ContradictionsOfIff(input, locales[..last], source, c);
      InFrontOrLast(locales, c.locale);
    }
  }

  lemma {:induction false} AllContradictionsIff(input: Input, locales: seq<string>, sources: seq<string>,
      c: Contradiction)
    ensures c in AllContradictions(input, locales, sources)
      <==> c.source in sources && c.locale in locales && IsContradiction(input, c)
    decreases |sources|
  {
    if sources == [] {
    } else {
      hide IsContradiction, ContradictionsOf;
      var last := |sources| - 1;
      AllContradictionsIff(input, locales, sources[..last], c);
      ContradictionsOfIff(input, locales, sources[last], c);
      InFrontOrLast(sources, c.source);
    }
  }

  /** A build reports a contradiction exactly for the catalog sources and required locales
      with two different candidates, and lists just the candidates, once and in text order. */
  lemma ContradictionsExact(input: Input, locales: seq<string>, c: Contradiction)
    ensures c in Contradictions(input, locales) <==>
      && IsSource(input, c.source) && c.locale in locales && Disputed(input, c.locale, c.source)
      && ListsCandidates(input, c.locale, c.source, c.translations)
  {
    hide DistinctSorted, Sources, AllContradictions, IsSource, Disputed, ListsCandidates;
    var all := AllContradictions(input, locales, Sources(input));
    SameElements(all, Contradictions(input, locales));
    AllContradictionsIff(input, locales, Sources(input), c);
    SourcesIff(input, c.source);
    DisputedIff(input, c.locale, c.source);
    DistinctSortedIff(input, c.locale, c.source, c.translations);
  }

  lemma {:induction false} ContradictionsOfOnce(input: Input, locales: seq<string>, source: string)
    requires NoDuplicates(locales)
    ensures NoDuplicates(ContradictionsOf(input, locales, source))
    decreases |locales|
  {
    if locales == [] {
    } else {
      hide DistinctSorted;
      var last := |locales| - 1;
      var front := ContradictionsOf(input, locales[..last], source);
      ContradictionsOfOnce(input, locales[..last], source);
      forall i | 0 <= i < |front| ensures front[i].locale != locales[last] {
        assert front[i] in front;
        ContradictionsOfIff(input, locales[..last], source, front[i]);
      }
    }
  }

  lemma {:induction false} AllContradictionsOnce(input: Input, locales: seq<string>, sources: seq<string>)
    requires NoDuplicates(locales) && NoDuplicates(sources)
    ensures NoDuplicates(AllContradictions(input, locales, sources))
    decreases |sources|
  {
    if sources == [] {
    } else {
      hide ContradictionsOf, IsContradiction;
      var last := |sources| - 1;
      var front := AllContradictions(input, locales, sources[..last]);
      var back := ContradictionsOf(input, locales, sources[last]);
      AllContradictionsOnce(input, locales, sources[..last]);
      ContradictionsOfOnce(input, locales, sources[last]);
      forall i, j | 0 <= i < |front| && 0 <= j < |back| ensures front[i] != back[j] {
        assert front[i] in front && back[j] in back;
        AllContradictionsIff(input, locales, sources[..last], front[i]);
        ContradictionsOfIff(input, locales, sources[last], back[j]);
      }
    }
  }

  lemma ContradictionOrder()
    ensures Preorder(ContradictionLe)
  {
    TextOrder();
    forall x, y ensures ContradictionLe(x, y) || ContradictionLe(y, x) {
      assert TextLe(x.source, y.source) || TextLe(y.source, x.source);
    }
    forall x, y, z | ContradictionLe(x, y) && ContradictionLe(y, z) ensures ContradictionLe(x, z) {
      assert TextLe(x.source, y.source) && TextLe(y.source, z.source);
      if x.source == z.source {
        TextLeAntisymmetric(x.source, y.source);
      }
    }
  }

  // An earlier source, or the same one and an earlier locale.
  predicate ComesBefore(c: Contradiction, d: Contradiction) {
    if c.source != d.source then TextLe(c.source, d.source) else c.locale != d.locale && TextLe(c.locale, d.locale)
  }

  lemma OrderedComesBefore(c: Contradiction, d: Contradiction)
    requires ContradictionLe(c, d) && (c.source != d.source || c.locale != d.locale)
    ensures ComesBefore(c, d)
  {
  }

  /** For distinct locales each source and locale is reported once, by source and then by
      locale. */
  lemma ContradictionsOnce(input: Input, locales: seq<string>)
    requires NoDuplicates(locales)
    ensures forall i, j :: 0 <= i < j < |Contradictions(input, locales)| ==>
      var c, d := Contradictions(input, locales)[i], Contradictions(input, locales)[j];
      ComesBefore(c, d)
  {
    var all, sorted := AllContradictions(input, locales, Sources(input)), Contradictions(input, locales);
    ContradictionOrder();
    SortSorts(ContradictionLe, all);
    DistinctHasNoDuplicates(CatalogSources(input));
    RearrangedHasNoDuplicates(Distinct(CatalogSources(input)), Sources(input));
    AllContradictionsOnce(input, locales, Sources(input));
    RearrangedHasNoDuplicates(all, sorted);
    SameElements(all, sorted);
    hide *;
    forall i, j | 0 <= i < j < |sorted|
      ensures ComesBefore(sorted[i], sorted[j])
    {
      assert sorted[i] in sorted && sorted[j] in sorted;
      PairDetermines(input, locales, sorted[i], sorted[j]);
      OrderedComesBefore(sorted[i], sorted[j]);
    }
  }

  lemma PairDetermines(input: Input, locales: seq<string>, c: Contradiction, d: Contradiction)
    requires var all := AllContradictions(input, locales, Sources(input)); c in all && d in all
    ensures c.source == d.source && c.locale == d.locale ==> c == d
  {
    hide DistinctSorted, Sources, AllContradictions;
    AllContradictionsIff(input, locales, Sources(input), c);
    AllContradictionsIff(input, locales, Sources(input), d);
  }
}
