/** Memory-bounded declaration builds: extension entries are grouped by extension, and
    each group goes whole to the partition that is least loaded so far. */
module DeclarationPartitions {
  import opened Text
  import opened Sorting

  datatype Entry = Entry(name: string, source: string)

  // ----- greedy placement

  // The first partition among those with the fewest entries.
  predicate IsLeastLoaded<T>(parts: seq<seq<T>>, t: nat) {
    && t < |parts|
    && (forall i :: 0 <= i < |parts| ==> |parts[t]| <= |parts[i]|)
    && (forall i :: 0 <= i < t ==> |parts[t]| < |parts[i]|)
  }

  function LeastLoaded<T>(parts: seq<seq<T>>): (t: nat)
    requires parts != []
    ensures IsLeastLoaded(parts, t)
  {
    if |parts| == 1 then 0
    else
      var last := |parts| - 1;
      var t := LeastLoaded(parts[..last]);
      if |parts[last]| < |parts[t]| then last else t
  }

  lemma LeastLoadedUnique<T>(parts: seq<seq<T>>, s: nat, t: nat)
    requires IsLeastLoaded(parts, s) && IsLeastLoaded(parts, t)
    ensures s == t
  {
    assert |parts[s]| <= |parts[t]| && |parts[t]| <= |parts[s]|;
  }

  lemma LeastStep<T>(parts: seq<seq<T>>, i: nat, t: nat)
    requires 0 < i < |parts| && IsLeastLoaded(parts[..i], t)
    ensures |parts[i]| < |parts[t]| ==> IsLeastLoaded(parts[..i + 1], i)
    ensures |parts[i]| >= |parts[t]| ==> IsLeastLoaded(parts[..i + 1], t)
  {
    var front, more := parts[..i], parts[..i + 1];
    assert forall j :: 0 <= j < i ==> more[j] == front[j];
  }

  function Empties<T>(count: nat): seq<seq<T>> { seq(count, _ => []) }

  // The partitions after all groups have been placed in turn.
  function Place<T>(groups: seq<seq<T>>, count: nat): (parts: seq<seq<T>>)
    requires count > 0
    ensures |parts| == count
  {
    if groups == [] then Empties(count)
    else
      var last := |groups| - 1;
      var parts := Place(groups[..last], count);
      var t := LeastLoaded(parts);
      parts[t := parts[t] + groups[last]]
  }

  lemma PlaceNothing<T>(count: nat)
    ensures count > 0 ==> Place<T>([], count) == Empties(count)
  {
  }

  lemma PlaceGrows<T>(groups: seq<seq<T>>, count: nat, g: nat)
    requires g < |groups| && count > 0
    ensures var parts := Place(groups[..g], count); var t := LeastLoaded(parts);
      Place(groups[..g + 1], count) == parts[t := parts[t] + groups[g]]
  {
    assert groups[..g + 1][..g] == groups[..g];
  }

  method PartitionUnifiedEntryGroups(entryGroups: seq<seq<Entry>>, partitionCount: nat)
    returns (r: Result<seq<seq<Entry>>>)
    ensures partitionCount > 0 ==> r == Ok(Place(entryGroups, partitionCount))
    ensures partitionCount == 0 ==> (r.Ok? <==> entryGroups == []) && (r.Ok? ==> r.value == [])
  {
    var partitions := new seq<Entry>[partitionCount](_ => []);
    PlaceNothing<Entry>(partitionCount);
    assert entryGroups[..0] == [] && partitions[..] == Empties(partitionCount);
    hide Place, LeastLoaded, IsLeastLoaded;
    for g := 0 to |entryGroups|
      invariant g > 0 ==> partitionCount > 0
      invariant partitionCount > 0 ==> partitions[..] == Place(entryGroups[..g], partitionCount)
    {
      var entryGroup := entryGroups[g];
      ghost var parts := partitions[..];
      var targetIndex: nat := 0;
      var index := 1;
      while index < partitions.Length
        invariant partitions.Length > 0 ==> 1 <= index <= partitions.Length
        invariant partitions.Length > 0 ==> targetIndex < index && IsLeastLoaded(parts[..index], targetIndex)
        invariant partitions.Length == 0 ==> targetIndex == 0
        invariant partitions[..] == parts
      {
        LeastStep(parts, index, targetIndex);
        var candidate, target := partitions[index], partitions[targetIndex];
        assert candidate == parts[index] && target == parts[targetIndex];
        if |candidate| < |target| {
          targetIndex := index;
        }
        index := index + 1;
      }
      if targetIndex >= partitions.Length {
        return Err("unified declaration partition count must be positive");
      }
      assert parts[..partitions.Length] == parts;
      LeastLoadedUnique(parts, targetIndex, LeastLoaded(parts));
      PlaceGrows(entryGroups, partitionCount, g);
      partitions[targetIndex] := partitions[targetIndex] + entryGroup;
      assert partitions[..] == parts[targetIndex := parts[targetIndex] + entryGroup];
    }
    assert entryGroups[..|entryGroups|] == entryGroups;
    return Ok(partitions[..]);
  }

  // ----- balance

  function Largest<T>(groups: seq<seq<T>>): (n: nat)
    ensures forall g :: 0 <= g < |groups| ==> |groups[g]| <= n
    ensures groups != [] ==> exists g :: 0 <= g < |groups| && |groups[g]| == n
  {
    if groups == [] then 0
    else
      var last := |groups| - 1;
      var n := Largest(groups[..last]);
      assert forall g :: 0 <= g < last ==> groups[g] == groups[..last][g];
      if n <= |groups[last]| then |groups[last]| else n
  }

  /** Any two partitions differ by at most the largest group. */
  lemma {:induction false} Balanced<T>(groups: seq<seq<T>>, count: nat, p: nat, q: nat)
    requires p < count && q < count
    ensures |Place(groups, count)[p]| <= |Place(groups, count)[q]| + Largest(groups)
    decreases |groups|
  {
    if groups == [] {
    } else {
      var last := |groups| - 1;
      Balanced(groups[..last], count, p, q);
      var before := Place(groups[..last], count);
      assert IsLeastLoaded(before, LeastLoaded(before));
    }
  }

  function Total<T>(parts: seq<seq<T>>): nat {
    if parts == [] then 0 else |parts[0]| + Total(parts[1..])
  }

  lemma {:induction false} TotalIsLength<T>(parts: seq<seq<T>>)
    ensures Total(parts) == |Concat(parts)|
    decreases |parts|
  {
    if parts == [] {
    } else {
      TotalIsLength(parts[1..]);
    }
  }

  // If every part has at least `least` entries, so does each on average.
  lemma {:induction false} TotalAtLeast<T>(parts: seq<seq<T>>, least: int)
    requires forall q :: 0 <= q < |parts| ==> |parts[q]| >= least
    ensures Total(parts) >= |parts| * least
    decreases |parts|
  {
    if parts == [] {
    } else {
      assert forall q :: 0 <= q < |parts[1..]| ==> parts[1..][q] == parts[q + 1];
      TotalAtLeast(parts[1..], least);
      assert |parts| * least == |parts[1..]| * least + least;
    }
  }

  lemma {:induction false} TotalWithout<T>(parts: seq<seq<T>>, p: nat)
    requires p < |parts|
    ensures Total(parts) == |parts[p]| + Total(parts[..p] + parts[p + 1..])
    decreases p
  {
    if p > 0 {
      TotalWithout(parts[1..], p - 1);
      var rest := parts[..p] + parts[p + 1..];
      assert rest[1..] == parts[1..][..p - 1] + parts[1..][p..];
      assert rest[0] == parts[0] && parts[1..][p - 1] == parts[p];
    } else {
      assert parts[..p] + parts[p + 1..] == parts[1..];
    }
  }

  /** So a partition p holds at most the average plus a share of the largest group:
      count * |p| <= total + (count - 1) * largest. */
  lemma LoadBound<T>(groups: seq<seq<T>>, count: nat, p: nat)
    requires p < count
    ensures count * |Place(groups, count)[p]| <= Total(groups) + (count - 1) * Largest(groups)
  {
    hide Place, Largest, Total;
    var parts, largest := Place(groups, count), Largest(groups);
    var others := parts[..p] + parts[p + 1..];
    var least := |parts[p]| - largest;
    forall q | 0 <= q < |others| ensures |others[q]| >= least {
      Balanced(groups, count, p, if q < p then q else q + 1);
    }
    TotalAtLeast(others, least);
    TotalWithout(parts, p);
    TotalKept(groups, count);
    assert |others| == count - 1;
    LoadArithmetic(count, |parts[p]|, largest, Total(others), Total(groups));
  }

  lemma LoadArithmetic(count: nat, load: nat, largest: nat, others: nat, total: nat)
    requires others >= (count - 1) * (load - largest) && total == load + others
    ensures count * load <= total + (count - 1) * largest
  {
    assert (count - 1) * (load - largest) == (count - 1) * load - (count - 1) * largest;
    assert count * load == (count - 1) * load + load;
  }

  // ----- conservation

  lemma {:induction false} ConcatAdd<T>(parts: seq<seq<T>>, t: nat, group: seq<T>)
    requires t < |parts|
    ensures multiset(Concat(parts[t := parts[t] + group])) == multiset(Concat(parts)) + multiset(group)
    decreases t
  {
    var more := parts[t := parts[t] + group];
    if t > 0 {
      ConcatAdd(parts[1..], t - 1, group);
      assert more[1..] == parts[1..][t - 1 := parts[1..][t - 1] + group];
    } else {
      assert more[1..] == parts[1..];
    }
  }

  lemma ConcatLast<T>(groups: seq<seq<T>>, group: seq<T>)
    ensures Concat(groups + [group]) == Concat(groups) + group
  {
    ConcatSplits(groups, [group]);
    assert [group][1..] == [] && Concat<T>([]) == [];
    assert Concat([group]) == group + [];
  }

  lemma {:induction false} ConcatEmpties<T>(count: nat)
    ensures Concat(Empties<T>(count)) == []
  {
    if count == 0 {
    } else {
      ConcatEmpties<T>(count - 1);
      assert Empties<T>(count)[1..] == Empties<T>(count - 1);
    }
  }

  /** Placing loses no entry and adds none. */
  lemma {:induction false} EntriesConserved<T>(groups: seq<seq<T>>, count: nat)
    requires count > 0
    ensures multiset(Concat(Place(groups, count))) == multiset(Concat(groups))
    decreases |groups|
  {
    if groups == [] {
      ConcatEmpties<T>(count);
    } else {
      var last := |groups| - 1;
      EntriesConserved(groups[..last], count);
      var before := Place(groups[..last], count);
      ConcatAdd(before, LeastLoaded(before), groups[last]);
      ConcatLast(groups[..last], groups[last]);
      assert groups == groups[..last] + [groups[last]];
    }
  }

  lemma TotalKept<T>(groups: seq<seq<T>>, count: nat)
    requires count > 0
    ensures Total(Place(groups, count)) == Total(groups)
  {
    EntriesConserved(groups, count);
    TotalIsLength(groups);
    TotalIsLength(Place(groups, count));
    assert |multiset(Concat(groups))| == |Concat(groups)|;
    assert |multiset(Concat(Place(groups, count)))| == |Concat(Place(groups, count))|;
  }

  // ----- groups stay whole and in order

  // The one partition that each group goes to.
  function Targets<T>(groups: seq<seq<T>>, count: nat): (targets: seq<nat>)
    requires count > 0
    ensures |targets| == |groups| && forall g :: 0 <= g < |groups| ==> targets[g] < count
  {
    if groups == [] then []
    else
      var last := |groups| - 1;
      Targets(groups[..last], count) + [LeastLoaded(Place(groups[..last], count))]
  }

  function Selected<T>(groups: seq<seq<T>>, targets: seq<nat>, p: nat): seq<seq<T>>
    requires |targets| == |groups|
  {
    if groups == [] then []
    else
      var last := |groups| - 1;
      Selected(groups[..last], targets[..last], p) + (if targets[last] == p then [groups[last]] else [])
  }

  /** Each partition is the concatenation, in input order, of the groups sent to it;
      every group is sent to exactly one partition and arrives in one piece. */
  lemma {:induction false} GroupsStayWhole<T>(groups: seq<seq<T>>, count: nat, p: nat)
    requires p < count
    ensures Place(groups, count)[p] == Concat(Selected(groups, Targets(groups, count), p))
    decreases |groups|
  {
    if groups == [] {
    } else {
      var last := |groups| - 1;
      var targets := Targets(groups, count);
      GroupsStayWhole(groups[..last], count, p);
      assert targets[..last] == Targets(groups[..last], count);
      var before := Selected(groups[..last], targets[..last], p);
      ConcatLast(before, groups[last]);
      assert before + [] == before;
    }
  }

  // ----- against any other way to place the groups

  predicate Assigns(targets: seq<nat>, groupCount: nat, count: nat) {
    |targets| == groupCount && forall g :: 0 <= g < |targets| ==> targets[g] < count
  }

  // How many entries an assignment of whole groups puts into partition `p`.
  function Load<T>(groups: seq<seq<T>>, targets: seq<nat>, p: nat): nat
    requires |targets| == |groups|
  {
    Total(Selected(groups, targets, p))
  }

  function LoadsBelow<T>(groups: seq<seq<T>>, targets: seq<nat>, n: nat): nat
    requires |targets| == |groups|
  {
    if n == 0 then 0 else LoadsBelow(groups, targets, n - 1) + Load(groups, targets, n - 1)
  }

  lemma TotalLast<T>(groups: seq<seq<T>>, group: seq<T>)
    ensures Total(groups + [group]) == Total(groups) + |group|
  {
    TotalIsLength(groups);
    TotalIsLength(groups + [group]);
    ConcatLast(groups, group);
  }

  lemma LoadStep<T>(groups: seq<seq<T>>, targets: seq<nat>, p: nat)
    requires |targets| == |groups| > 0
    ensures var last := |groups| - 1;
      Load(groups, targets, p)
      == Load(groups[..last], targets[..last], p) + (if targets[last] == p then |groups[last]| else 0)
  {
    hide Total;
    var last := |groups| - 1;
    var before := Selected(groups[..last], targets[..last], p);
    TotalLast(before, groups[last]);
    assert before + [] == before;
  }

  lemma {:induction false} LoadsStep<T>(groups: seq<seq<T>>, targets: seq<nat>, n: nat)
    requires |targets| == |groups| > 0
    ensures var last := |groups| - 1;
      LoadsBelow(groups, targets, n)
      == LoadsBelow(groups[..last], targets[..last], n) + (if targets[last] < n then |groups[last]| else 0)
  {
    hide Load;
    if n == 0 {
    } else {
      LoadsStep(groups, targets, n - 1);
      LoadStep(groups, targets, n - 1);
    }
  }

  lemma {:induction false} NothingLoaded<T>(n: nat)
    ensures LoadsBelow<T>([], [], n) == 0 && Total<T>([]) == 0
  {
    if n == 0 {
    } else {
      NothingLoaded<T>(n - 1);
    }
  }

  // Every assignment places all entries.
  lemma {:induction false} LoadsSum<T>(groups: seq<seq<T>>, targets: seq<nat>, count: nat)
    requires Assigns(targets, |groups|, count)
    ensures LoadsBelow(groups, targets, count) == Total(groups)
    decreases |groups|
  {
    hide Load, LoadsBelow, Total;
    if groups == [] {
      NothingLoaded<T>(count);
      assert targets == [];
    } else {
      var last := |groups| - 1;
      LoadsStep(groups, targets, count);
      LoadsSum(groups[..last], targets[..last], count);
      TotalLast(groups[..last], groups[last]);
      assert groups == groups[..last] + [groups[last]];
    }
  }

  lemma {:induction false} LoadsBound<T>(groups: seq<seq<T>>, targets: seq<nat>, n: nat, most: nat)
    requires |targets| == |groups| && forall q: nat :: q < n ==> Load(groups, targets, q) <= most
    ensures LoadsBelow(groups, targets, n) <= n * most
  {
    if n == 0 {
    } else {
      LoadsBound(groups, targets, n - 1, most);
      assert n * most == (n - 1) * most + most;
    }
  }

  // The partition that gets a group holds at least as much.
  lemma {:induction false} LoadHolds<T>(groups: seq<seq<T>>, targets: seq<nat>, g: nat)
    requires |targets| == |groups| && g < |groups|
    ensures |groups[g]| <= Load(groups, targets, targets[g])
    decreases |groups|
  {
    hide Load;
    LoadStep(groups, targets, targets[g]);
    if g < |groups| - 1 {
      LoadHolds(groups[..|groups| - 1], targets[..|groups| - 1], g);
    }
  }

  lemma LargestFits<T>(groups: seq<seq<T>>, targets: seq<nat>, count: nat, most: nat)
    requires Assigns(targets, |groups|, count)
    requires forall q: nat :: q < count ==> Load(groups, targets, q) <= most
    ensures Largest(groups) <= most
  {
    hide Load;
    if groups != [] {
      var g: nat :| g < |groups| && |groups[g]| == Largest(groups);
      LoadHolds(groups, targets, g);
    }
  }

  lemma TimesAtMost(n: nat, a: nat, b: nat)
    requires a <= b
    ensures n * a <= n * b
  {
  }

  /** No assignment of whole groups to the same number of partitions is better by a factor
      of two: if each of its loads is at most `most`, each greedy load is at most
      (2 - 1/count) * most. */
  lemma WithinTwice<T>(groups: seq<seq<T>>, count: nat, p: nat, targets: seq<nat>, most: nat)
    requires p < count && Assigns(targets, |groups|, count)
    requires forall q: nat :: q < count ==> Load(groups, targets, q) <= most
    ensures count * |Place(groups, count)[p]| <= count * most + (count - 1) * most
  {
    hide Place, Total, Load, LoadsBelow, Largest;
    LoadBound(groups, count, p);
    LoadsSum(groups, targets, count);
    LoadsBound(groups, targets, count, most);
    LargestFits(groups, targets, count, most);
    TimesAtMost(count - 1, Largest(groups), most);
  }

  // Block `b` stands in `part` at position `at`.
  predicate BlockAt<T(==)>(part: seq<T>, at: nat, b: seq<T>) {
    at + |b| <= |part| && part[at..at + |b|] == b
  }

  lemma PlaceStep<T>(groups: seq<seq<T>>, count: nat, p: nat)
    requires p < count && groups != []
    ensures var last := |groups| - 1; var parts := Place(groups[..last], count);
      && Place(groups, count)[p] == parts[p] + (if p == LeastLoaded(parts) then groups[last] else [])
      && Targets(groups, count) == Targets(groups[..last], count) + [LeastLoaded(parts)]
  {
    var last := |groups| - 1;
    assert Place(groups[..last], count)[p] + [] == Place(groups[..last], count)[p];
  }

  lemma LastBlock<T>(part: seq<T>, b: seq<T>)
    ensures BlockAt(part + b, |part|, b)
  {
  }

  lemma BlockStays<T>(part: seq<T>, at: nat, b: seq<T>, more: seq<T>)
    requires BlockAt(part, at, b)
    ensures BlockAt(part + more, at, b)
  {
    assert (part + more)[at..at + |b|] == part[at..at + |b|];
  }

  /** Each group goes to the first of the partitions that hold the fewest entries just then. */
  lemma GoesToFirstLeast<T>(groups: seq<seq<T>>, count: nat, g: nat)
    requires count > 0 && g < |groups|
    ensures var before, t := Place(groups[..g], count), Targets(groups[..g + 1], count)[g];
      && (forall i :: 0 <= i < count ==> |before[t]| <= |before[i]|)
      && (forall i :: 0 <= i < t ==> |before[t]| < |before[i]|)
      && Place(groups[..g + 1], count) == before[t := before[t] + groups[g]]
  {
    hide Place;
    PlaceGrows(groups, count, g);
    assert groups[..g + 1][..g] == groups[..g];
    assert IsLeastLoaded(Place(groups[..g], count), LeastLoaded(Place(groups[..g], count)));
  }

  /** Every group stands in its target partition as one contiguous block. */
  lemma {:induction false} GroupIsContiguous<T>(groups: seq<seq<T>>, count: nat, g: nat) returns (at: nat)
    requires count > 0 && g < |groups|
    ensures BlockAt(Place(groups, count)[Targets(groups, count)[g]], at, groups[g])
    decreases |groups|
  {
    hide Place, Targets, LeastLoaded, BlockAt;
    var last := |groups| - 1;
    var parts := Place(groups[..last], count);
    var p := Targets(groups, count)[g];
    PlaceStep(groups, count, p);
    if g < last {
      at := GroupIsContiguous(groups[..last], count, g);
      assert groups[..last][g] == groups[g] && Targets(groups[..last], count)[g] == p;
      BlockStays(parts[p], at, groups[g], if p == LeastLoaded(parts) then groups[last] else []);
    } else {
      at := |parts[p]|;
      assert p == LeastLoaded(parts);
      assert BlockAt(parts[p] + groups[g], at, groups[g]) by {
        LastBlock(parts[p], groups[g]);
      }
    }
  }

  // ----- grouping entries by extension

  // The text up to the next slash.
  function FirstPart(s: string): string {
    if s == "" || s[0] == '/' then "" else [s[0]] + FirstPart(s[1..])
  }

  /** The second path component of a name below `extensions/`, unless it is empty. */
  function ExtensionId(name: string): Option<string> {
    if !StartsWith(name, "extensions/") then None
    else
      var id := FirstPart(name[|"extensions/"|..]);
      if id == "" then None else Some(id)
  }

  /** The name lies in the directory of the extension, or is its path. */
  predicate InExtension(name: string, id: string) {
    id != "" && '/' !in id && (name == "extensions/" + id || StartsWith(name, "extensions/" + id + "/"))
  }

  lemma {:induction false} FirstPartIff(s: string, part: string)
    ensures FirstPart(s) == part <==> '/' !in part && (s == part || StartsWith(s, part + "/"))
    decreases |s|
  {
    if s == "" || s[0] == '/' {
      if StartsWith(s, part + "/") && part != "" {
        assert s[0] == part[0] && part[0] in part;
      }
      assert s != "" ==> StartsWith(s, "/");
      assert "" + "/" == "/";
    } else {
      FirstPartIff(s[1..], if part == "" then "" else part[1..]);
      if part == "" {
        assert !StartsWith(s, part + "/");
      } else {
        assert part == [part[0]] + part[1..] && s == [s[0]] + s[1..];
        assert (part + "/")[1..] == part[1..] + "/";
        assert StartsWith(s, part + "/") ==> s[0] == part[0] && s[..|part| + 1][1..] == s[1..][..|part|];
        assert s[0] == part[0] && StartsWith(s[1..], part[1..] + "/") ==> s[..|part| + 1] == part + "/";
      }
    }
  }

  /** The extension of a name is the one directory below `extensions/` that it lies in. */
  lemma ExtensionIdIff(name: string, id: string)
    ensures ExtensionId(name) == Some(id) <==> InExtension(name, id)
  {
    hide FirstPart;
    var root := "extensions/";
    if StartsWith(name, root) {
      var rest := name[|root|..];
      FirstPartIff(rest, id);
      assert name == root + rest;
      assert name == root + id <==> rest == id;
      assert root + id + "/" == root + (id + "/");
      StartsAfter(root, rest, id + "/");
    } else {
      NotBelow(name, root, id);
    }
  }

  lemma StartsAfter(root: string, rest: string, p: string)
    ensures StartsWith(root + rest, root + p) <==> StartsWith(rest, p)
  {
    if |p| <= |rest| {
      assert (root + rest)[..|root + p|] == root + rest[..|p|];
      assert (root + rest[..|p|])[|root|..] == rest[..|p|] && (root + p)[|root|..] == p;
    }
  }

  lemma NotBelow(name: string, root: string, id: string)
    requires !StartsWith(name, root)
    ensures name != root + id && !StartsWith(name, root + id + "/")
  {
    assert root + id + "/" == root + (id + "/");
    StartsLess(name, root, id + "/");
    assert (root + id)[..|root|] == root;
  }

  lemma StartsLess(s: string, p: string, q: string)
    ensures StartsWith(s, p + q) ==> StartsWith(s, p)
  {
    if StartsWith(s, p + q) {
      assert s[..|p|] == s[..|p + q|][..|p|];
    }
  }

  function EntriesOf(entries: seq<Entry>, id: string): seq<Entry> {
    if entries == [] then []
    else
      var last := |entries| - 1;
      EntriesOf(entries[..last], id) + (if ExtensionId(entries[last].name) == Some(id) then [entries[last]] else [])
  }

  function Ids(entries: seq<Entry>): seq<string> {
    if entries == [] then []
    else
      var last := |entries| - 1;
      var id := ExtensionId(entries[last].name);
      Ids(entries[..last]) + (if id.Some? then [id.value] else [])
  }

  function ExtensionGroups(entries: seq<Entry>, idLe: (string, string) -> bool): seq<seq<Entry>> {
    var ids := Sort(idLe, Distinct(Ids(entries)));
    seq(|ids|, i requires 0 <= i < |ids| => EntriesOf(entries, ids[i]))
  }

  ghost predicate IsGrouping(byId: map<string, seq<Entry>>, entries: seq<Entry>) {
    forall id :: Lookup(byId, id, []) == EntriesOf(entries, id)
  }

  lemma GroupingGrows(byId: map<string, seq<Entry>>, entries: seq<Entry>, i: nat)
    requires i < |entries| && IsGrouping(byId, entries[..i])
    ensures var id := ExtensionId(entries[i].name);
      var more := if id.None? then byId else byId[id.value := Lookup(byId, id.value, []) + [entries[i]]];
      IsGrouping(more, entries[..i + 1])
  {
    var id := ExtensionId(entries[i].name);
    var more := if id.None? then byId else byId[id.value := Lookup(byId, id.value, []) + [entries[i]]];
    assert entries[..i + 1][..i] == entries[..i];
    forall other ensures Lookup(more, other, []) == EntriesOf(entries[..i + 1], other) {
      assert Lookup(byId, other, []) == EntriesOf(entries[..i], other);
    }
  }

  lemma IdsGrow(entries: seq<Entry>, i: nat)
    requires i < |entries|
    ensures var id := ExtensionId(entries[i].name);
      Distinct(Ids(entries[..i + 1])) == Distinct(Ids(entries[..i]))
        + (if id.Some? && id.value !in Distinct(Ids(entries[..i])) then [id.value] else [])
  {
    var id := ExtensionId(entries[i].name);
    var before := Ids(entries[..i]);
    assert entries[..i + 1][..i] == entries[..i];
    if id.Some? {
      assert (before + [id.value])[..|before|] == before;
    } else {
      assert before + [] == before;
    }
  }

  ghost predicate HasKeys(byId: map<string, seq<Entry>>, keys: seq<string>) {
    forall id :: id in keys <==> id in byId
  }

  lemma KeyAdded(byId: map<string, seq<Entry>>, keys: seq<string>, id: string, group: seq<Entry>)
    requires HasKeys(byId, keys)
    ensures id in keys <==> id in byId
    ensures HasKeys(byId[id := group], if id in keys then keys else keys + [id])
  {
  }

  lemma GroupsStart()
    ensures Distinct(Ids([])) == [] && HasKeys(map[], []) && IsGrouping(map[], [])
  {
  }

  lemma GroupsComplete(entries: seq<Entry>, byId: map<string, seq<Entry>>, idLe: (string, string) -> bool)
    requires IsGrouping(byId, entries)
    ensures var ids := Sort(idLe, Distinct(Ids(entries)));
      seq(|ids|, i requires 0 <= i < |ids| => Lookup(byId, ids[i], [])) == ExtensionGroups(entries, idLe)
  {
    hide Sort, Distinct, Ids, EntriesOf, Lookup;
  }

  /** The Map from extension to entries, then its values sorted by extension. `idLe` is
      the locale's order of names. */
  method GroupExtensionEntries(sortedEntries: seq<Entry>, idLe: (string, string) -> bool)
    returns (groups: seq<seq<Entry>>)
    ensures groups == ExtensionGroups(sortedEntries, idLe)
  {
    hide *;
    var keys: seq<string> := [];
    var byId: map<string, seq<Entry>> := map[];
    GroupsStart();
    assert sortedEntries[..0] == [];
    for i := 0 to |sortedEntries|
      invariant keys == Distinct(Ids(sortedEntries[..i]))
      invariant HasKeys(byId, keys)
      invariant IsGrouping(byId, sortedEntries[..i])
    {
      var entry := sortedEntries[i];
      IdsGrow(sortedEntries, i);
      GroupingGrows(byId, sortedEntries, i);
      var id := ExtensionId(entry.name);
      if id.None? {
        continue;
      }
      KeyAdded(byId, keys, id.value, Lookup(byId, id.value, []) + [entry]);
      if id.value !in byId {
        keys := keys + [id.value];
      }
      byId := byId[id.value := Lookup(byId, id.value, []) + [entry]];
    }
    assert sortedEntries[..|sortedEntries|] == sortedEntries;
    var ids := Sort(idLe, keys);
    GroupsComplete(sortedEntries, byId, idLe);
    groups := seq(|ids|, i requires 0 <= i < |ids| => Lookup(byId, ids[i], []));
  }

  lemma {:induction false} EntryOf(entries: seq<Entry>, id: string, e: Entry)
    ensures e in EntriesOf(entries, id) <==> e in entries && ExtensionId(e.name) == Some(id)
    ensures id in Ids(entries) <==> EntriesOf(entries, id) != []
    decreases |entries|
  {
    if entries == [] {
    } else {
      var last := |entries| - 1;
      EntryOf(entries[..last], id, e);
      assert entries == entries[..last] + [entries[last]];
    }
  }

  // Group `g` is all the entries of one extension and alone holds `e`.
  ghost predicate GroupsAlone(groups: seq<seq<Entry>>, g: nat, group: seq<Entry>, e: Entry) {
    && g < |groups| && groups[g] == group && e in group
    && forall h :: 0 <= h < |groups| && h != g ==> e !in groups[h]
  }

  function InThe(id: string): Entry -> bool { (e: Entry) => InExtension(e.name, id) }

  lemma {:induction false} EntriesOfAre(entries: seq<Entry>, id: string)
    ensures EntriesOf(entries, id) == Filter(entries, InThe(id))
    decreases |entries|
  {
    hide ExtensionId, InExtension;
    if entries == [] {
    } else {
      EntriesOfAre(entries[..|entries| - 1], id);
      ExtensionIdIff(entries[|entries| - 1].name, id);
    }
  }

  /** There is one group for each extension that some entry lies in, and no other, sorted by
      extension. A group lists the entries of its extension, in order. */
  lemma GroupsAre(entries: seq<Entry>, idLe: (string, string) -> bool) returns (ids: seq<string>)
    ensures NoDuplicates(ids) && (Preorder(idLe) ==> SortedBy(idLe, ids))
    ensures forall id :: id in ids <==> exists e :: e in entries && InExtension(e.name, id)
    ensures |ExtensionGroups(entries, idLe)| == |ids|
    ensures forall g :: 0 <= g < |ids| ==> ExtensionGroups(entries, idLe)[g] == Filter(entries, InThe(ids[g]))
  {
    hide Filter, EntriesOf, Ids, Distinct, Sort, NoDuplicates, SortedBy, Preorder, ExtensionId, InExtension;
    var keys := Distinct(Ids(entries));
    ids := Sort(idLe, keys);
    SameElements(keys, ids);
    DistinctHasNoDuplicates(Ids(entries));
    RearrangedHasNoDuplicates(keys, ids);
    if Preorder(idLe) {
      SortSorts(idLe, keys);
    }
    forall id ensures id in ids <==> exists e :: e in entries && InExtension(e.name, id) {
      IdIff(entries, id);
    }
    forall g | 0 <= g < |ids| ensures ExtensionGroups(entries, idLe)[g] == Filter(entries, InThe(ids[g])) {
      EntriesOfAre(entries, ids[g]);
    }
  }

  lemma {:induction false} IdIff(entries: seq<Entry>, id: string)
    ensures id in Ids(entries) <==> exists e :: e in entries && InExtension(e.name, id)
    decreases |entries|
  {
    hide ExtensionId, InExtension;
    if entries == [] {
    } else {
      var last := |entries| - 1;
      IdIff(entries[..last], id);
      ExtensionIdIff(entries[last].name, id);
      assert entries == entries[..last] + [entries[last]];
    }
  }

  /** The entries of one extension form one group, and no other group holds any. */
  lemma ExtensionStaysTogether(entries: seq<Entry>, idLe: (string, string) -> bool, e: Entry)
    requires e in entries && ExtensionId(e.name).Some?
    ensures exists g :: GroupsAlone(ExtensionGroups(entries, idLe), g, EntriesOf(entries, ExtensionId(e.name).value), e)
  {
    var id := ExtensionId(e.name).value;
    EntryOf(entries, id, e);
    var keys := Distinct(Ids(entries));
    var ids, groups := Sort(idLe, keys), ExtensionGroups(entries, idLe);
    SameElements(keys, ids);
    DistinctHasNoDuplicates(Ids(entries));
    RearrangedHasNoDuplicates(keys, ids);
    assert id in ids;
    var g: nat :| g < |ids| && ids[g] == id;
    forall h | 0 <= h < |groups| && h != g ensures e !in groups[h] {
      EntryOf(entries, ids[h], e);
      assert ids[h] != ids[g];
    }
    assert GroupsAlone(groups, g, EntriesOf(entries, id), e);
  }

  lemma {:induction false} InSelected<T>(groups: seq<seq<T>>, targets: seq<nat>, q: nat, e: T)
    requires |targets| == |groups| && e in Concat(Selected(groups, targets, q))
    ensures exists g: nat :: g < |groups| && targets[g] == q && e in groups[g]
    decreases |groups|
  {
    if groups == [] {
    } else {
      var last := |groups| - 1;
      var before := Selected(groups[..last], targets[..last], q);
      ConcatLast(before, groups[last]);
      if targets[last] != q || e !in groups[last] {
        assert before + [] == before;
        InSelected(groups[..last], targets[..last], q, e);
        var g: nat :| g < last && targets[..last][g] == q && e in groups[..last][g];
        assert targets[g] == q && e in groups[g];
      }
    }
  }

  // Other partitions do not hold an entry that stands in one group only.
  lemma ElsewhereAbsent<T>(groups: seq<seq<T>>, count: nat, g: nat, q: nat, e: T)
    requires q < count && g < |groups| && Targets(groups, count)[g] != q
    requires forall h :: 0 <= h < |groups| && h != g ==> e !in groups[h]
    ensures e !in Place(groups, count)[q]
  {
    hide Place, Targets, Concat, Selected;
    GroupsStayWhole(groups, count, q);
    if e in Place(groups, count)[q] {
      InSelected(groups, Targets(groups, count), q, e);
    }
  }

  /** End to end: all entries below one extension, in order, form one contiguous block of
      one partition, and no other partition holds any of them. */
  lemma ExtensionInOnePartition(entries: seq<Entry>, idLe: (string, string) -> bool, id: string, e: Entry, count: nat)
      returns (p: nat, at: nat)
    requires e in entries && InExtension(e.name, id) && count > 0
    ensures var parts := Place(ExtensionGroups(entries, idLe), count);
      p < count && BlockAt(parts[p], at, Filter(entries, InThe(id)))
    ensures var parts := Place(ExtensionGroups(entries, idLe), count);
      forall q, f :: 0 <= q < count && q != p && f in entries && InExtension(f.name, id) ==> f !in parts[q]
  {
    hide *;
    var groups := ExtensionGroups(entries, idLe);
    var ids := GroupsAre(entries, idLe);
    assert e in entries && InExtension(e.name, id);
    assert id in ids;
    var g: nat :| g < |ids| && ids[g] == id;
    p := Targets(groups, count)[g];
    at := GroupIsContiguous(groups, count, g);
    forall q, f | 0 <= q < count && q != p && f in entries && InExtension(f.name, id)
      ensures f !in Place(groups, count)[q]
    {
      OnlyGroup(entries, idLe, ids, g, f);
      ElsewhereAbsent(groups, count, g, q, f);
    }
  }

  lemma OnlyGroup(entries: seq<Entry>, idLe: (string, string) -> bool, ids: seq<string>, g: nat, f: Entry)
    requires NoDuplicates(ids) && |ExtensionGroups(entries, idLe)| == |ids| && g < |ids|
    requires forall h :: 0 <= h < |ids| ==> ExtensionGroups(entries, idLe)[h] == Filter(entries, InThe(ids[h]))
    requires InExtension(f.name, ids[g])
    ensures forall h :: 0 <= h < |ids| && h != g ==> f !in ExtensionGroups(entries, idLe)[h]
  {
    hide ExtensionGroups, Filter, InExtension;
    forall h | 0 <= h < |ids| && h != g ensures f !in ExtensionGroups(entries, idLe)[h] {
      EntriesOfAre(entries, ids[h]);
      EntryOf(entries, ids[h], f);
      ExtensionIdIff(f.name, ids[h]);
      ExtensionIdIff(f.name, ids[g]);
      assert ids[h] != ids[g];
    }
  }
}
