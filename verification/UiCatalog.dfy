/** The control UI catalogs: flattening a nested catalog into dotted keys, and exactly
    which catalogs the flat one still stands for. */
module UiCatalog {
  import opened Text

  // A parsed JSON value; objects keep the order of their keys.
  datatype Json = Leaf(value: string) | Object(fields: Fields) | Other

  datatype Fields = NoFields | Field(key: string, nested: Json, rest: Fields)

  type Flat = seq<(string, string)>

  // ----- a Map that keeps insertion order

  predicate HasKey(flat: Flat, key: string) {
    exists i :: 0 <= i < |flat| && flat[i].0 == key
  }

  // A known key keeps its place and gets the new value.
  function Put(flat: Flat, key: string, value: string): Flat {
    if flat == [] then [(key, value)]
    else if flat[0].0 == key then [(key, value)] + flat[1..]
    else [flat[0]] + Put(flat[1..], key, value)
  }

  lemma {:induction false} PutFresh(flat: Flat, key: string, value: string)
    requires !HasKey(flat, key)
    ensures Put(flat, key, value) == flat + [(key, value)]
    decreases |flat|
  {
    if flat == [] {
    } else {
      assert flat[0].0 != key;
      assert !HasKey(flat[1..], key) by {
        assert forall i :: 0 <= i < |flat[1..]| ==> flat[1..][i] == flat[i + 1];
      }
      PutFresh(flat[1..], key, value);
      assert flat == [flat[0]] + flat[1..];
    }
  }

  /** A Map keeps the place of a key it knows, and appends one it does not. */
  lemma {:induction false} PutIs(flat: Flat, key: string, value: string) returns (i: nat)
    ensures i <= |flat| && forall j :: 0 <= j < i ==> flat[j].0 != key
    ensures if i == |flat| then Put(flat, key, value) == flat + [(key, value)]
      else flat[i].0 == key && Put(flat, key, value) == flat[i := (key, value)]
    decreases |flat|
  {
    i := 0;
    if flat == [] || flat[0].0 == key {
      assert flat != [] ==> [(key, value)] + flat[1..] == flat[0 := (key, value)];
    } else {
      var j := PutIs(flat[1..], key, value);
      i := j + 1;
      assert flat == [flat[0]] + flat[1..];
    }
  }

  // ----- flattening

  function FullKey(prefix: string, key: string): string {
    if prefix != "" then prefix + "." + key else key
  }

  function FlattenFields(fields: Fields, title: string, prefix: string, out: Flat): Result<Flat>
    decreases fields
  {
    match fields
    case NoFields => Ok(out)
    case Field(key, nested, rest) =>
      var fullKey := FullKey(prefix, key);
      match nested
      case Leaf(value) => FlattenFields(rest, title, prefix, Put(out, fullKey, value))
      case Other => Err(title + ":" + fullKey + " must be a string or object")
      case Object(inner) =>
        var next := FlattenFields(inner, title, fullKey, out);
        if next.Err? then next else FlattenFields(rest, title, prefix, next.value)
  }

  function Flatten(value: Json, title: string, prefix: string, out: Flat): Result<Flat> {
    if !value.Object? then Err(title + (if prefix != "" then ":" + prefix else "") + " must be an object")
    else FlattenFields(value.fields, title, prefix, out)
  }

  class OrderedMap {
    var entries: Flat

    constructor ()
      ensures entries == []
    {
      entries := [];
    }

    method Set(key: string, value: string)
      modifies this
      ensures entries == Put(old(entries), key, value)
    {
      entries := Put(entries, key, value);
    }
  }

  /** Fills `out` as it recurses; the first value that is neither text nor object stops it. */
  method FlattenControlUiCatalog(value: Json, title: string, prefix: string, out: OrderedMap) returns (r: Result<Flat>)
    modifies out
    ensures r == Flatten(value, title, prefix, old(out.entries))
    ensures r.Ok? ==> out.entries == r.value
    decreases value
  {
    if !value.Object? {
      return Err(title + (if prefix != "" then ":" + prefix else "") + " must be an object");
    }
    var fields := value.fields;
    while fields.Field?
      invariant FlattenFields(value.fields, title, prefix, old(out.entries))
        == FlattenFields(fields, title, prefix, out.entries)
      invariant fields == value.fields || fields < value
      decreases fields
    {
      var fullKey := FullKey(prefix, fields.key);
      match fields.nested {
        case Leaf(text) =>
          out.Set(fullKey, text);
        case Other =>
          return Err(title + ":" + fullKey + " must be a string or object");
        case Object(_) =>
          var inner := FlattenControlUiCatalog(fields.nested, title, fullKey, out);
          if inner.Err? {
            return inner;
          }
      }
      fields := fields.rest;
    }
    r := Ok(out.entries);
  }

  // ----- the leaves of a tree, by path

  type Leaves = seq<(seq<string>, string)>

  function Under(key: string, leaves: Leaves): Leaves {
    seq(|leaves|, i requires 0 <= i < |leaves| => ([key] + leaves[i].0, leaves[i].1))
  }

  function NestedLeaves(key: string, nested: Json): Leaves
    decreases nested
  {
    match nested
    case Leaf(value) => [([key], value)]
    case Object(inner) => Under(key, LeavesOf(inner))
    case Other => []
  }

  function LeavesOf(fields: Fields): Leaves
    decreases fields
  {
    if fields.NoFields? then [] else NestedLeaves(fields.key, fields.nested) + LeavesOf(fields.rest)
  }

  predicate HasField(fields: Fields, key: string) {
    fields.Field? && (fields.key == key || HasField(fields.rest, key))
  }

  // As in any JavaScript object, at every level.
  predicate DistinctKeys(fields: Fields)
    decreases fields
  {
    fields.Field? ==>
      && !HasField(fields.rest, fields.key) && DistinctKeys(fields.rest)
      && (fields.nested.Object? ==> DistinctKeys(fields.nested.fields))
  }

  // Every value is a text or an object.
  predicate OnlyText(fields: Fields)
    decreases fields
  {
    fields.Field? ==>
      && !fields.nested.Other? && OnlyText(fields.rest)
      && (fields.nested.Object? ==> OnlyText(fields.nested.fields))
  }

  // No key has a dot, and no inner object is empty.
  predicate PlainKeys(fields: Fields)
    decreases fields
  {
    fields.Field? ==>
      && '.' !in fields.key && PlainKeys(fields.rest)
      && (fields.nested.Object? ==> fields.nested.fields.Field? && PlainKeys(fields.nested.fields))
  }

  // At the top level, no empty key holds an object. Elsewhere an empty key does no harm.
  predicate NamesObjects(fields: Fields) {
    fields.Field? ==> !(fields.key == "" && fields.nested.Object?) && NamesObjects(fields.rest)
  }

  predicate Usable(fields: Fields) { OnlyText(fields) && PlainKeys(fields) && NamesObjects(fields) }

  predicate WellFormed(fields: Fields) { DistinctKeys(fields) && OnlyText(fields) && PlainKeys(fields) }

  // The parts of a path are keys without dots.
  ghost predicate IsPath(path: seq<string>) {
    path != [] && forall i :: 0 <= i < |path| ==> '.' !in path[i]
  }

  ghost predicate ArePaths(leaves: Leaves) {
    forall i :: 0 <= i < |leaves| ==> IsPath(leaves[i].0)
  }

  lemma {:induction false} LeavesArePaths(fields: Fields)
    requires OnlyText(fields) && PlainKeys(fields)
    ensures ArePaths(LeavesOf(fields))
    ensures fields.Field? ==> LeavesOf(fields) != [] && NestedLeaves(fields.key, fields.nested) != []
    decreases fields
  {
    if fields.NoFields? {
    } else {
      LeavesArePaths(fields.rest);
      if fields.nested.Object? {
        LeavesArePaths(fields.nested.fields);
      }
    }
  }

  // The first parts of the leaves are keys of the fields.
  lemma {:induction false} HeadsAreKeys(fields: Fields, i: nat)
    requires WellFormed(fields) && i < |LeavesOf(fields)|
    ensures LeavesOf(fields)[i].0 != [] && HasField(fields, LeavesOf(fields)[i].0[0])
    decreases fields
  {
    var first := NestedLeaves(fields.key, fields.nested);
    if i < |first| {
      assert LeavesOf(fields)[i] == first[i] && first[i].0[0] == fields.key;
    } else {
      HeadsAreKeys(fields.rest, i - |first|);
    }
  }

  // ----- flattening lists the leaves

  function Keyed(prefix: string, leaves: Leaves): Flat {
    seq(|leaves|, i requires 0 <= i < |leaves| =>
      (FullKey(prefix, if leaves[i].0 == [] then "" else JoinDots(leaves[i].0)), leaves[i].1))
  }

  lemma KeyedSplits(prefix: string, a: Leaves, b: Leaves)
    ensures Keyed(prefix, a + b) == Keyed(prefix, a) + Keyed(prefix, b)
  {
  }

  lemma KeyedUnder(prefix: string, key: string, leaves: Leaves)
    requires FullKey(prefix, key) != "" && ArePaths(leaves)
    ensures Keyed(prefix, Under(key, leaves)) == Keyed(FullKey(prefix, key), leaves)
  {
    forall i | 0 <= i < |leaves|
      ensures FullKey(prefix, JoinDots([key] + leaves[i].0)) == FullKey(FullKey(prefix, key), JoinDots(leaves[i].0))
    {
      assert IsPath(leaves[i].0);
      assert ([key] + leaves[i].0)[1..] == leaves[i].0;
      var j := JoinDots(leaves[i].0);
      assert prefix + "." + (key + "." + j) == prefix + "." + key + "." + j;
    }
  }

  // Different paths have different keys.
  lemma KeyIsInjective(prefix: string, p: seq<string>, q: seq<string>)
    requires IsPath(p) && IsPath(q) && FullKey(prefix, JoinDots(p)) == FullKey(prefix, JoinDots(q))
    ensures p == q
  {
    if prefix != "" {
      assert (prefix + "." + JoinDots(p))[|prefix| + 1..] == JoinDots(p);
      assert (prefix + "." + JoinDots(q))[|prefix| + 1..] == JoinDots(q);
    }
    JoinSplits(p);
    JoinSplits(q);
  }

  // None of the keys about to be written is taken.
  ghost predicate Fresh(out: Flat, prefix: string, leaves: Leaves) {
    forall i, j :: 0 <= i < |out| && 0 <= j < |leaves| ==> out[i].0 != Keyed(prefix, leaves)[j].0
  }

  // Writing one field's leaves does not take the keys of the rest.
  lemma RestStaysFresh(out: Flat, prefix: string, fields: Fields)
    requires WellFormed(fields) && fields.Field? && Fresh(out, prefix, LeavesOf(fields))
    ensures Fresh(out, prefix, NestedLeaves(fields.key, fields.nested))
    ensures Fresh(out + Keyed(prefix, NestedLeaves(fields.key, fields.nested)), prefix, LeavesOf(fields.rest))
  {
    hide JoinDots, IsSpace, FullKey, HasField;
    var first, later := NestedLeaves(fields.key, fields.nested), LeavesOf(fields.rest);
    var more := out + Keyed(prefix, first);
    KeyedSplits(prefix, first, later);
    LeavesArePaths(fields);
    forall i, j | 0 <= i < |more| && 0 <= j < |later| ensures more[i].0 != Keyed(prefix, later)[j].0 {
      assert Keyed(prefix, LeavesOf(fields))[|first| + j] == Keyed(prefix, later)[j];
      if i >= |out| {
        var k := i - |out|;
        assert LeavesOf(fields)[k] == first[k] && LeavesOf(fields)[|first| + j] == later[j];
        assert IsPath(first[k].0) && IsPath(later[j].0) && first[k].0[0] == fields.key;
        HeadsAreKeys(fields.rest, j);
        if more[i].0 == Keyed(prefix, later)[j].0 {
          KeyIsInjective(prefix, first[k].0, later[j].0);
        }
      }
    }
    forall i, j | 0 <= i < |out| && 0 <= j < |first| ensures out[i].0 != Keyed(prefix, first)[j].0 {
      assert Keyed(prefix, LeavesOf(fields))[j] == Keyed(prefix, first)[j];
    }
  }

  lemma {:induction false} FirstListed(fields: Fields, title: string, prefix: string, out: Flat)
    requires WellFormed(fields) && fields.Field? && (prefix != "" || NamesObjects(fields))
    requires Fresh(out, prefix, NestedLeaves(fields.key, fields.nested))
    ensures FlattenFields(fields, title, prefix, out)
      == FlattenFields(fields.rest, title, prefix, out + Keyed(prefix, NestedLeaves(fields.key, fields.nested)))
    decreases fields, 0
  {
    var fullKey := FullKey(prefix, fields.key);
    match fields.nested {
      case Leaf(value) =>
        var first := Keyed(prefix, NestedLeaves(fields.key, fields.nested));
        assert first == [(fullKey, value)] && first[0].0 == fullKey;
        PutFresh(out, fullKey, value);
      case Object(inner) =>
        LeavesArePaths(inner);
        KeyedUnder(prefix, fields.key, LeavesOf(inner));
        FlattenLists(inner, title, fullKey, out);
    }
  }

  lemma {:induction false} FlattenLists(fields: Fields, title: string, prefix: string, out: Flat)
    requires WellFormed(fields) && Fresh(out, prefix, LeavesOf(fields))
    requires prefix != "" || NamesObjects(fields)
    ensures FlattenFields(fields, title, prefix, out) == Ok(out + Keyed(prefix, LeavesOf(fields)))
    decreases fields
  {
    if fields.NoFields? {
      assert out + Keyed(prefix, []) == out;
    } else {
      hide FlattenFields, Keyed, Fresh;
      var first, later := NestedLeaves(fields.key, fields.nested), LeavesOf(fields.rest);
      RestStaysFresh(out, prefix, fields);
      FirstListed(fields, title, prefix, out);
      FlattenLists(fields.rest, title, prefix, out + Keyed(prefix, first));
      KeyedSplits(prefix, first, later);
      assert out + Keyed(prefix, first) + Keyed(prefix, later) == out + Keyed(prefix, first + later);
    }
  }

  // ----- and back

  // The leaves at the front that stand under `key`.
  function RunLength(leaves: Leaves, key: string): nat {
    if leaves == [] || leaves[0].0 == [] || leaves[0].0[0] != key then 0 else 1 + RunLength(leaves[1..], key)
  }

  lemma {:induction false} RunIs(a: Leaves, b: Leaves, key: string)
    requires forall i :: 0 <= i < |a| ==> a[i].0 != [] && a[i].0[0] == key
    requires b == [] || b[0].0 == [] || b[0].0[0] != key
    ensures RunLength(a + b, key) == |a|
    decreases |a|
  {
    if a == [] {
      assert a + b == b;
    } else {
      assert (a + b)[1..] == a[1..] + b;
      RunIs(a[1..], b, key);
    }
  }

  lemma {:induction false} RunBound(leaves: Leaves, key: string)
    ensures RunLength(leaves, key) <= |leaves|
    decreases |leaves|
  {
    if leaves == [] {
    } else {
      RunBound(leaves[1..], key);
    }
  }

  function Strip(leaves: Leaves): Leaves {
    seq(|leaves|, i requires 0 <= i < |leaves| => (if leaves[i].0 == [] then [] else leaves[i].0[1..], leaves[i].1))
  }

  // How deep the deepest leaf is.
  function Depth(leaves: Leaves): nat {
    if leaves == [] then 0
    else
      var d := Depth(leaves[1..]);
      if |leaves[0].0| > d then |leaves[0].0| else d
  }

  // Groups leaves by their first part, down to `depth` levels.
  function Rebuild(leaves: Leaves, depth: nat): Fields
    decreases depth, |leaves|
  {
    if leaves == [] || leaves[0].0 == [] then NoFields
    else
      var key := leaves[0].0[0];
      var n := RunLength(leaves, key);
      RunBound(leaves, key);
      var nested :=
        if |leaves[0].0| == 1 then Leaf(leaves[0].1)
        else if depth == 0 then Other
        else Object(Rebuild(Strip(leaves[..n]), depth - 1));
      Field(key, nested, Rebuild(leaves[n..], depth))
  }

  function FieldsDepth(fields: Fields): nat
    decreases fields
  {
    if fields.NoFields? then 0
    else
      var here := if fields.nested.Object? then FieldsDepth(fields.nested.fields) + 1 else 0;
      var later := FieldsDepth(fields.rest);
      if here > later then here else later
  }

  lemma StripUnder(key: string, leaves: Leaves)
    ensures Strip(Under(key, leaves)) == leaves
  {
    forall i | 0 <= i < |leaves| ensures ([key] + leaves[i].0)[1..] == leaves[i].0 {
    }
  }

  // The leaves of the first field are the first run.
  lemma FirstRun(fields: Fields)
    requires WellFormed(fields) && fields.Field?
    ensures var leaves, first := LeavesOf(fields), NestedLeaves(fields.key, fields.nested);
      && first != [] && leaves != [] && leaves[0] == first[0]
      && leaves[0].0 != [] && leaves[0].0[0] == fields.key
      && RunLength(leaves, fields.key) == |first| <= |leaves|
      && leaves[..|first|] == first && leaves[|first|..] == LeavesOf(fields.rest)
    ensures fields.nested.Object? ==> |LeavesOf(fields)[0].0| > 1
    ensures fields.nested.Leaf? ==> |LeavesOf(fields)[0].0| == 1
  {
    hide Rebuild, RunLength;
    var first, later := NestedLeaves(fields.key, fields.nested), LeavesOf(fields.rest);
    LeavesArePaths(fields);
    if later != [] {
      HeadsAreKeys(fields.rest, 0);
    }
    if fields.nested.Object? {
      var inner := LeavesOf(fields.nested.fields);
      LeavesArePaths(fields.nested.fields);
      assert |first[0].0| == 1 + |inner[0].0| && IsPath(inner[0].0);
    }
    assert forall i :: 0 <= i < |first| ==> first[i].0 != [] && first[i].0[0] == fields.key;
    RunIs(first, later, fields.key);
  }

  lemma {:induction false} RebuildUndoes(fields: Fields, depth: nat)
    requires WellFormed(fields) && depth >= FieldsDepth(fields)
    ensures Rebuild(LeavesOf(fields), depth) == fields
    decreases fields
  {
    if fields.NoFields? {
    } else {
      hide RunLength, Strip;
      FirstRun(fields);
      RebuildUndoes(fields.rest, depth);
      if fields.nested.Object? {
        StripUnder(fields.key, LeavesOf(fields.nested.fields));
        RebuildUndoes(fields.nested.fields, depth - 1);
      }
    }
  }

  function SplitKeys(flat: Flat): Leaves {
    seq(|flat|, i requires 0 <= i < |flat| => (SplitDots(flat[i].0), flat[i].1))
  }

  /** The nested catalog that a flat one stands for. */
  function Unflatten(flat: Flat): Json {
    var leaves := SplitKeys(flat);
    Object(Rebuild(leaves, Depth(leaves)))
  }

  lemma SplitUndoesKeyed(leaves: Leaves)
    requires ArePaths(leaves)
    ensures SplitKeys(Keyed("", leaves)) == leaves
  {
    forall i | 0 <= i < |leaves| ensures SplitDots(JoinDots(leaves[i].0)) == leaves[i].0 {
      assert IsPath(leaves[i].0);
      JoinSplits(leaves[i].0);
    }
  }

  lemma {:induction false} DepthAtLeast(leaves: Leaves, i: nat)
    requires i < |leaves|
    ensures |leaves[i].0| <= Depth(leaves)
    decreases i
  {
    if i == 0 {
    } else {
      DepthAtLeast(leaves[1..], i - 1);
      assert leaves[1..][i - 1] == leaves[i];
    }
  }

  // Some leaf lies as deep as the fields nest.
  lemma {:induction false} DeepestLeaf(fields: Fields) returns (i: nat)
    requires WellFormed(fields) && fields.Field?
    ensures i < |LeavesOf(fields)| && |LeavesOf(fields)[i].0| > FieldsDepth(fields)
    decreases fields
  {
    var first := NestedLeaves(fields.key, fields.nested);
    LeavesArePaths(fields);
    var here := if fields.nested.Object? then FieldsDepth(fields.nested.fields) + 1 else 0;
    if here >= FieldsDepth(fields.rest) {
      i := 0;
      if fields.nested.Object? {
        i := DeepestLeaf(fields.nested.fields);
      }
      assert LeavesOf(fields)[i] == first[i];
    } else {
      var j := DeepestLeaf(fields.rest);
      i := |first| + j;
    }
  }

  // Usable catalogs come back.
  lemma UsableReturns(fields: Fields, title: string)
    requires DistinctKeys(fields) && Usable(fields)
    ensures Flatten(Object(fields), title, "", []) == Ok(Keyed("", LeavesOf(fields)))
    ensures Unflatten(Keyed("", LeavesOf(fields))) == Object(fields)
  {
    var leaves := LeavesOf(fields);
    FlattenLists(fields, title, "", []);
    LeavesArePaths(fields);
    SplitUndoesKeyed(leaves);
    assert [] + Keyed("", leaves) == Keyed("", leaves);
    if fields.Field? {
      var i := DeepestLeaf(fields);
      DepthAtLeast(leaves, i);
    }
    RebuildUndoes(fields, Depth(leaves));
  }

  // ----- nothing else comes back

  lemma {:induction false} FlattenNeedsText(fields: Fields, title: string, prefix: string, out: Flat)
    ensures FlattenFields(fields, title, prefix, out).Ok? <==> OnlyText(fields)
    decreases fields
  {
    if fields.NoFields? {
    } else {
      var fullKey := FullKey(prefix, fields.key);
      match fields.nested {
        case Leaf(value) =>
          FlattenNeedsText(fields.rest, title, prefix, Put(out, fullKey, value));
        case Other =>
        case Object(inner) =>
          FlattenNeedsText(inner, title, fullKey, out);
          var next := FlattenFields(inner, title, fullKey, out);
          if next.Ok? {
            FlattenNeedsText(fields.rest, title, prefix, next.value);
          }
      }
    }
  }

  ghost predicate NoDots(leaves: Leaves) {
    forall i, j :: 0 <= i < |leaves| && 0 <= j < |leaves[i].0| ==> '.' !in leaves[i].0[j]
  }

  lemma SplitKeysNoDots(flat: Flat)
    ensures NoDots(SplitKeys(flat))
  {
    forall i | 0 <= i < |flat| ensures forall j :: 0 <= j < |SplitDots(flat[i].0)| ==> '.' !in SplitDots(flat[i].0)[j] {
      SplitPartsNoDots(flat[i].0);
    }
  }

  // What is rebuilt has plain keys, and an object only around a leaf.
  lemma {:induction false} RebuildIsPlain(leaves: Leaves, depth: nat)
    requires NoDots(leaves)
    ensures PlainKeys(Rebuild(leaves, depth))
    decreases depth, |leaves|
  {
    if leaves != [] && leaves[0].0 != [] {
      var key := leaves[0].0[0];
      var n := RunLength(leaves, key);
      RunBound(leaves, key);
      RebuildIsPlain(leaves[n..], depth);
      if |leaves[0].0| > 1 && depth > 0 {
        var run := Strip(leaves[..n]);
        assert run[0].0 == leaves[0].0[1..];
        RebuildIsPlain(run, depth - 1);
      }
    }
  }

  // The lengths of all paths, each `base` longer than it is.
  function Weight(leaves: Leaves, base: nat): nat {
    if leaves == [] then 0 else base + |leaves[0].0| + Weight(leaves[1..], base)
  }

  lemma {:induction false} WeightSplits(a: Leaves, b: Leaves, base: nat)
    ensures Weight(a + b, base) == Weight(a, base) + Weight(b, base)
    decreases |a|
  {
    if a == [] {
      assert a + b == b;
    } else {
      assert (a + b)[1..] == a[1..] + b;
      WeightSplits(a[1..], b, base);
    }
  }

  lemma WeightOfFields(fields: Fields, base: nat)
    requires fields.Field?
    ensures Weight(LeavesOf(fields), base)
      == Weight(NestedLeaves(fields.key, fields.nested), base) + Weight(LeavesOf(fields.rest), base)
  {
    WeightSplits(NestedLeaves(fields.key, fields.nested), LeavesOf(fields.rest), base);
  }

  lemma {:induction false} WeightUnder(key: string, leaves: Leaves, base: nat)
    ensures Weight(Under(key, leaves), base) == Weight(leaves, base + 1)
    decreases |leaves|
  {
    if leaves == [] {
    } else {
      assert Under(key, leaves)[1..] == Under(key, leaves[1..]);
      WeightUnder(key, leaves[1..], base);
    }
  }

  ghost predicate NoneEmpty(leaves: Leaves) {
    forall i :: 0 <= i < |leaves| ==> leaves[i].0 != []
  }

  lemma {:induction false} WeightStrip(leaves: Leaves, base: nat)
    requires NoneEmpty(leaves)
    ensures Weight(Strip(leaves), base + 1) == Weight(leaves, base)
    decreases |leaves|
  {
    if leaves == [] {
    } else {
      assert Strip(leaves)[1..] == Strip(leaves[1..]);
      WeightStrip(leaves[1..], base);
    }
  }

  lemma {:induction false} WeightGrows(leaves: Leaves, base: nat, more: nat)
    requires base <= more
    ensures Weight(leaves, base) <= Weight(leaves, more)
    ensures leaves != [] && base < more ==> Weight(leaves, base) < Weight(leaves, more)
    decreases |leaves|
  {
    if leaves == [] {
    } else {
      WeightGrows(leaves[1..], base, more);
    }
  }

  lemma {:induction false} RunHasKey(leaves: Leaves, key: string)
    ensures RunLength(leaves, key) <= |leaves|
    ensures forall i :: 0 <= i < RunLength(leaves, key) ==> leaves[i].0 != []
    decreases |leaves|
  {
    if RunLength(leaves, key) > 0 {
      RunHasKey(leaves[1..], key);
      assert forall i :: 1 <= i < RunLength(leaves, key) ==> leaves[i] == leaves[1..][i - 1];
    }
  }

  // Rebuilding one run and what follows it.
  lemma RebuildStep(leaves: Leaves, depth: nat, n: nat)
    requires leaves != [] && leaves[0].0 != [] && n == RunLength(leaves, leaves[0].0[0])
    ensures 0 < n <= |leaves|
    ensures leaves == leaves[..n] + leaves[n..] && NoneEmpty(leaves[..n])
    ensures var rebuilt := Rebuild(leaves, depth);
      && rebuilt.Field? && rebuilt.key == leaves[0].0[0] && rebuilt.rest == Rebuild(leaves[n..], depth)
      && (rebuilt.nested.Object? ==> depth > 0 && rebuilt.nested.fields == Rebuild(Strip(leaves[..n]), depth - 1))
  {
    RunHasKey(leaves, leaves[0].0[0]);
  }

  lemma RunWeighs(run: Leaves, nested: Json, key: string, base: nat)
    requires run != [] && NoneEmpty(run)
    requires nested.Object? ==> Weight(LeavesOf(nested.fields), base + 1) <= Weight(Strip(run), base + 1)
    ensures Weight(NestedLeaves(key, nested), base) <= Weight(run, base)
  {
    if nested.Object? {
      WeightUnder(key, LeavesOf(nested.fields), base);
      WeightStrip(run, base);
    }
  }

  lemma RebuildWeighsBy(leaves: Leaves, n: nat, rebuilt: Fields, base: nat)
    requires 0 < n <= |leaves| && NoneEmpty(leaves[..n]) && rebuilt.Field?
    requires rebuilt.nested.Object? ==>
      Weight(LeavesOf(rebuilt.nested.fields), base + 1) <= Weight(Strip(leaves[..n]), base + 1)
    requires Weight(LeavesOf(rebuilt.rest), base) <= Weight(leaves[n..], base)
    ensures Weight(LeavesOf(rebuilt), base) <= Weight(leaves, base)
  {
    hide *;
    assert leaves == leaves[..n] + leaves[n..];
    RunWeighs(leaves[..n], rebuilt.nested, rebuilt.key, base);
    WeightSplits(leaves[..n], leaves[n..], base);
    WeightOfFields(rebuilt, base);
  }

  lemma RebuildNothing(leaves: Leaves, depth: nat, base: nat)
    requires leaves == [] || leaves[0].0 == []
    ensures Weight(LeavesOf(Rebuild(leaves, depth)), base) == 0
  {
  }

  // Rebuilding adds no weight.
  lemma {:induction false} RebuildWeighs(leaves: Leaves, depth: nat, base: nat)
    ensures Weight(LeavesOf(Rebuild(leaves, depth)), base) <= Weight(leaves, base)
    decreases depth, |leaves|
  {
    hide *;
    if leaves == [] || leaves[0].0 == [] {
      RebuildNothing(leaves, depth, base);
    } else {
      var n := RunLength(leaves, leaves[0].0[0]);
      RebuildStep(leaves, depth, n);
      var rebuilt := Rebuild(leaves, depth);
      RebuildWeighs(leaves[n..], depth, base);
      if rebuilt.nested.Object? {
        RebuildWeighs(Strip(leaves[..n]), depth - 1, base + 1);
      }
      RebuildWeighsBy(leaves, n, rebuilt, base);
    }
  }

  lemma {:induction false} PutWeighs(flat: Flat, key: string, value: string)
    ensures Weight(SplitKeys(Put(flat, key, value)), 0) <= Weight(SplitKeys(flat), 0) + |SplitDots(key)|
    decreases |flat|
  {
    var after := Put(flat, key, value);
    assert SplitKeys(after)[1..] == SplitKeys(after[1..]);
    if flat == [] {
    } else {
      assert SplitKeys(flat)[1..] == SplitKeys(flat[1..]);
      if flat[0].0 != key {
        PutWeighs(flat[1..], key, value);
      }
    }
  }

  // How many parts a prefix puts before a key.
  function PrefixParts(prefix: string): nat {
    if prefix == "" then 0 else |SplitDots(prefix)|
  }

  lemma FullKeyParts(prefix: string, key: string)
    requires '.' !in key
    ensures |SplitDots(FullKey(prefix, key))| == PrefixParts(prefix) + 1
    ensures PrefixParts(FullKey(prefix, key)) <= PrefixParts(prefix) + 1
  {
    SplitWithoutDot(key, "");
    assert key + "" == key;
    if prefix != "" {
      SplitCounts(prefix, key);
    }
  }

  // Flattening adds no weight either.
  lemma {:induction false} FlattenWeighs(fields: Fields, title: string, prefix: string, out: Flat)
    requires OnlyText(fields) && PlainKeys(fields)
    ensures var r := FlattenFields(fields, title, prefix, out);
      && r.Ok?
      && Weight(SplitKeys(r.value), 0) <= Weight(SplitKeys(out), 0) + Weight(LeavesOf(fields), PrefixParts(prefix))
    decreases fields
  {
    FlattenNeedsText(fields, title, prefix, out);
    if fields.NoFields? {
    } else {
      var next := FirstWeighs(fields, title, prefix, out);
      FlattenWeighs(fields.rest, title, prefix, next);
      WeightOfFields(fields, PrefixParts(prefix));
    }
  }

  lemma {:induction false} FirstWeighs(fields: Fields, title: string, prefix: string, out: Flat) returns (next: Flat)
    requires OnlyText(fields) && PlainKeys(fields) && fields.Field?
    ensures FlattenFields(fields, title, prefix, out) == FlattenFields(fields.rest, title, prefix, next)
    ensures Weight(SplitKeys(next), 0)
      <= Weight(SplitKeys(out), 0) + Weight(NestedLeaves(fields.key, fields.nested), PrefixParts(prefix))
    ensures prefix == fields.key == "" && fields.nested.Object? ==>
      Weight(SplitKeys(next), 0)
      < Weight(SplitKeys(out), 0) + Weight(NestedLeaves(fields.key, fields.nested), PrefixParts(prefix))
    decreases fields, 0
  {
    var fullKey := FullKey(prefix, fields.key);
    FullKeyParts(prefix, fields.key);
    match fields.nested {
      case Leaf(value) =>
        next := Put(out, fullKey, value);
        PutWeighs(out, fullKey, value);
      case Object(inner) =>
        FlattenWeighs(inner, title, fullKey, out);
        next := FlattenFields(inner, title, fullKey, out).value;
        LeavesArePaths(inner);
        WeightUnder(fields.key, LeavesOf(inner), PrefixParts(prefix));
        WeightGrows(LeavesOf(inner), PrefixParts(fullKey), PrefixParts(prefix) + 1);
    }
  }

  // An object under an empty key at the top level loses a part of its paths.
  lemma {:induction false} UnnamedLoses(fields: Fields, title: string, out: Flat)
    requires OnlyText(fields) && PlainKeys(fields) && !NamesObjects(fields)
    ensures var r := FlattenFields(fields, title, "", out);
      r.Ok? && Weight(SplitKeys(r.value), 0) < Weight(SplitKeys(out), 0) + Weight(LeavesOf(fields), 0)
    decreases fields
  {
    var next := FirstWeighs(fields, title, "", out);
    WeightOfFields(fields, 0);
    FlattenWeighs(fields.rest, title, "", next);
    if !NamesObjects(fields.rest) {
      UnnamedLoses(fields.rest, title, next);
    }
  }

  lemma ReturnedIsUsable(fields: Fields, title: string)
    requires Flatten(Object(fields), title, "", []).Ok?
    requires Unflatten(Flatten(Object(fields), title, "", []).value) == Object(fields)
    ensures Usable(fields)
  {
    hide Depth, Weight, Rebuild, SplitKeys;
    var flat := Flatten(Object(fields), title, "", []).value;
    var leaves := SplitKeys(flat);
    FlattenNeedsText(fields, title, "", []);
    SplitKeysNoDots(flat);
    RebuildIsPlain(leaves, Depth(leaves));
    if !NamesObjects(fields) {
      UnnamedLoses(fields, title, []);
      RebuildWeighs(leaves, Depth(leaves), 0);
      NothingWeighs();
      assert false;
    }
  }

  lemma NothingWeighs()
    ensures Weight(SplitKeys([]), 0) == 0
  {
  }

  // ----- the main results

  /** Flattening keeps a catalog, so that unflattening gives it back, if and only if every
      value is text or an object, no key has a dot, no inner object is empty and no empty
      key at the top level holds an object. */
  lemma FlattenRoundTripIff(fields: Fields, title: string)
    requires DistinctKeys(fields)
    ensures var flat := Flatten(Object(fields), title, "", []);
      flat.Ok? && Unflatten(flat.value) == Object(fields) <==> Usable(fields)
  {
    hide Flatten, Unflatten, Usable;
    var flat := Flatten(Object(fields), title, "", []);
    if Usable(fields) {
      UsableReturns(fields, title);
    } else if flat.Ok? && Unflatten(flat.value) == Object(fields) {
      ReturnedIsUsable(fields, title);
    }
  }

  /** Flattening tells usable catalogs apart. Among all catalogs it does not even do that
      for them: an empty object more leaves no trace. */
  lemma UsableAreDetermined(a: Fields, b: Fields, title: string, key: string)
    requires DistinctKeys(a) && DistinctKeys(b) && Usable(a) && Usable(b)
    ensures Flatten(Object(a), title, "", []) == Flatten(Object(b), title, "", []) ==> a == b
    ensures Flatten(Object(Field(key, Object(NoFields), a)), title, "", []) == Flatten(Object(a), title, "", [])
  {
    FlattenRoundTripIff(a, title);
    FlattenRoundTripIff(b, title);
    assert FlattenFields(NoFields, title, FullKey("", key), []) == Ok([]);
  }

  /** A usable catalog is flattened to its leaves, each once and in order, under their
      dotted paths. */
  lemma FlattenListsLeaves(fields: Fields, title: string)
    requires DistinctKeys(fields) && Usable(fields)
    ensures Flatten(Object(fields), title, "", []) == Ok(Keyed("", LeavesOf(fields)))
    ensures |Flatten(Object(fields), title, "", []).value| == |LeavesOf(fields)|
  {
    UsableReturns(fields, title);
  }

  /** Three catalogs that flattening does not keep: a dotted key takes the place of a nested
      one, an empty object leaves no trace, and an empty key is dropped from a path. */
  lemma FlattenCanLose()
    ensures var dotted := Field("a.b", Leaf("1"), Field("a", Object(Field("b", Leaf("2"), NoFields)), NoFields));
      Flatten(Object(dotted), "en", "", []) == Ok([("a.b", "2")]) && !Usable(dotted)
    ensures var hollow := Field("a", Object(NoFields), NoFields);
      Flatten(Object(hollow), "en", "", []) == Flatten(Object(NoFields), "en", "", []) && !Usable(hollow)
    ensures var inner := Field("b", Leaf("2"), NoFields);
      var unnamed := Field("", Object(inner), NoFields);
      Flatten(Object(unnamed), "en", "", []) == Flatten(Object(inner), "en", "", []) && !Usable(unnamed)
  {
    var inner := Field("b", Leaf("2"), NoFields);
    assert FullKey("a", "b") == "a.b";
    assert Put([("a.b", "1")], "a.b", "2") == [("a.b", "2")];
    assert FlattenFields(inner, "en", "a", [("a.b", "1")]) == Ok([("a.b", "2")]);
  }

  // ----- what stops it

  // The keys down to the first value that is neither text nor object, in document order.
  function FirstOther(fields: Fields): Option<seq<string>>
    decreases fields
  {
    if fields.NoFields? then None
    else
      var here :=
        match fields.nested
        case Leaf(_) => None
        case Other => Some([])
        case Object(inner) => FirstOther(inner);
      if here.Some? then Some([fields.key] + here.value) else FirstOther(fields.rest)
  }

  // The dotted name of a path below a prefix.
  function NameOf(prefix: string, path: seq<string>): string
    decreases |path|
  {
    if path == [] then prefix else NameOf(FullKey(prefix, path[0]), path[1..])
  }

  /** Flattening fails exactly when some value is neither text nor object, and names the
      first of them. */
  lemma {:induction false} FlattenFailsAt(fields: Fields, title: string, prefix: string, out: Flat)
    ensures var r := FlattenFields(fields, title, prefix, out);
      && (r.Ok? <==> FirstOther(fields).None?)
      && (r.Err? ==>
        r.message == title + ":" + NameOf(prefix, FirstOther(fields).value) + " must be a string or object")
    decreases fields
  {
    hide FullKey, Put;
    if fields.NoFields? {
    } else {
      var fullKey := FullKey(prefix, fields.key);
      match fields.nested {
        case Leaf(value) =>
          FlattenFailsAt(fields.rest, title, prefix, Put(out, fullKey, value));
        case Other =>
          assert ([fields.key] + [])[1..] == [];
          NameOfOne(prefix, fields.key, []);
        case Object(inner) =>
          FlattenFailsAt(inner, title, fullKey, out);
          var next := FlattenFields(inner, title, fullKey, out);
          if next.Ok? {
            FlattenFailsAt(fields.rest, title, prefix, next.value);
          } else {
            NameOfOne(prefix, fields.key, FirstOther(inner).value);
          }
      }
    }
  }

  lemma NameOfOne(prefix: string, key: string, path: seq<string>)
    ensures NameOf(prefix, [key] + path) == NameOf(FullKey(prefix, key), path)
  {
    assert ([key] + path)[1..] == path;
  }
}
