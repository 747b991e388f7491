/** The delimiter-aware scanners over Kotlin code: splitting a parameter or argument
    list at its top-level commas, and finding the delimiter that closes an opening one. */
module TopLevelSplit {
  import opened Text

  // ----- quotes

  datatype Quoting = Quoting(quoted: bool, escaped: bool)

  // Where the scanner stands before position `i`, having started at `start`.
  function QuotingAt(s: string, start: nat, i: nat): Quoting
    requires start <= i <= |s|
    decreases i
  {
    if i == start then Quoting(false, false)
    else
      var q := QuotingAt(s, start, i - 1);
      if q.escaped then q.(escaped := false)
      else if q.quoted && s[i - 1] == '\\' then q.(escaped := true)
      else if s[i - 1] == '"' then q.(quoted := !q.quoted)
      else q
  }

  // The character at `i` is code: it is not quoted and is not a quote.
  predicate IsCode(s: string, start: nat, i: nat)
    requires start <= i < |s|
  {
    QuotingAt(s, start, i) == Quoting(false, false) && s[i] != '"'
  }

  // ----- depths

  // Openings minus closings among the code before `i`; it may become negative.
  function Depth(s: string, start: nat, i: nat, opening: char, closing: char): int
    requires start <= i <= |s|
    decreases i
  {
    if i == start then 0
    else
      var d := Depth(s, start, i - 1, opening, closing);
      if !IsCode(s, start, i - 1) then d
      else if s[i - 1] == opening then d + 1
      else if s[i - 1] == closing then d - 1
      else d
  }

  predicate Flat(s: string, start: nat, i: nat)
    requires start <= i <= |s|
  {
    Depth(s, start, i, '(', ')') == 0 && Depth(s, start, i, '[', ']') == 0 && Depth(s, start, i, '{', '}') == 0
  }

  // Type arguments are counted outside default values; a lone `>` is not counted.
  datatype TypeState = TypeState(depth: nat, inDefault: bool)

  function TypesAt(s: string, start: nat, i: nat): TypeState
    requires start <= i <= |s|
    decreases i
  {
    if i == start then TypeState(0, false)
    else
      var t, c := TypesAt(s, start, i - 1), s[i - 1];
      if !IsCode(s, start, i - 1) then t
      else if c == '<' && !t.inDefault then t.(depth := t.depth + 1)
      else if c == '>' && t.depth > 0 then t.(depth := t.depth - 1)
      else if c == '=' && t.depth == 0 && Flat(s, start, i - 1) then t.(inDefault := true)
      else if c == ',' && t.depth == 0 && Flat(s, start, i - 1) then t.(inDefault := false)
      else t
  }

  /** The commas to cut at: code, at bracket depth zero of each kind and, when type
      arguments are tracked, at type-argument depth zero. */
  predicate IsCut(s: string, start: nat, i: nat, trackTypes: bool)
    requires start <= i < |s|
  {
    IsCode(s, start, i) && s[i] == ',' && Flat(s, start, i) && (trackTypes ==> TypesAt(s, start, i).depth == 0)
  }

  // ----- the same, one character at a time

  // The variables of the splitter; the type state stays put when it is not tracked.
  datatype Scanner = Scanner(q: Quoting, parens: int, brackets: int, braces: int, types: TypeState)

  function Next(n: Scanner, c: char, trackTypes: bool): Scanner {
    var flat := n.types.depth == 0 && n.parens == 0 && n.brackets == 0 && n.braces == 0;
    if n.q.escaped then n.(q := n.q.(escaped := false))
    else if n.q.quoted && c == '\\' then n.(q := n.q.(escaped := true))
    else if c == '"' then n.(q := n.q.(quoted := !n.q.quoted))
    else if n.q.quoted then n
    else if trackTypes && c == '<' && !n.types.inDefault then n.(types := n.types.(depth := n.types.depth + 1))
    else if trackTypes && c == '>' && n.types.depth > 0 then n.(types := n.types.(depth := n.types.depth - 1))
    else if c == '(' then n.(parens := n.parens + 1)
    else if c == '[' then n.(brackets := n.brackets + 1)
    else if c == '{' then n.(braces := n.braces + 1)
    else if c == ')' then n.(parens := n.parens - 1)
    else if c == ']' then n.(brackets := n.brackets - 1)
    else if c == '}' then n.(braces := n.braces - 1)
    else if trackTypes && c == '=' && flat then n.(types := n.types.(inDefault := true))
    else if c == ',' && flat then n.(types := n.types.(inDefault := false))
    else n
  }

  function ScannerAt(s: string, start: nat, i: nat, trackTypes: bool): Scanner
    requires start <= i <= |s|
    decreases i
  {
    if i == start then Scanner(Quoting(false, false), 0, 0, 0, TypeState(0, false))
    else Next(ScannerAt(s, start, i - 1, trackTypes), s[i - 1], trackTypes)
  }

  // What one character does to each variable.
  lemma NextEach(n: Scanner, c: char, trackTypes: bool)
    requires !trackTypes ==> n.types == TypeState(0, false)
    ensures var m, code := Next(n, c, trackTypes), n.q == Quoting(false, false) && c != '"';
      var flat := n.parens == 0 && n.brackets == 0 && n.braces == 0;
      && m.q == (if n.q.escaped then n.q.(escaped := false)
                 else if n.q.quoted && c == '\\' then n.q.(escaped := true)
                 else if c == '"' then n.q.(quoted := !n.q.quoted)
                 else n.q)
      && m.parens == (if !code then n.parens else if c == '(' then n.parens + 1
                      else if c == ')' then n.parens - 1 else n.parens)
      && m.brackets == (if !code then n.brackets else if c == '[' then n.brackets + 1
                        else if c == ']' then n.brackets - 1 else n.brackets)
      && m.braces == (if !code then n.braces else if c == '{' then n.braces + 1
                      else if c == '}' then n.braces - 1 else n.braces)
      && m.types == (if !code || !trackTypes then n.types
                     else if c == '<' && !n.types.inDefault then n.types.(depth := n.types.depth + 1)
                     else if c == '>' && n.types.depth > 0 then n.types.(depth := n.types.depth - 1)
                     else if c == '=' && n.types.depth == 0 && flat then n.types.(inDefault := true)
                     else if c == ',' && n.types.depth == 0 && flat then n.types.(inDefault := false)
                     else n.types)
  {
  }

  // The step by step state is the state read off the text.
  lemma {:induction false} ScannerIs(s: string, start: nat, i: nat, trackTypes: bool)
    requires start <= i <= |s|
    ensures ScannerAt(s, start, i, trackTypes)
      == Scanner(QuotingAt(s, start, i), Depth(s, start, i, '(', ')'), Depth(s, start, i, '[', ']'),
                 Depth(s, start, i, '{', '}'), if trackTypes then TypesAt(s, start, i) else TypeState(0, false))
    decreases i
  {
    hide Next;
    if i == start {
    } else {
      ScannerIs(s, start, i - 1, trackTypes);
      NextEach(ScannerAt(s, start, i - 1, trackTypes), s[i - 1], trackTypes);
    }
  }

  predicate CutsOn(n: Scanner, c: char) {
    && n.q == Quoting(false, false) && c == ','
    && n.types.depth == 0 && n.parens == 0 && n.brackets == 0 && n.braces == 0
  }

  lemma CutIff(s: string, start: nat, i: nat, trackTypes: bool)
    requires start <= i < |s|
    ensures IsCut(s, start, i, trackTypes) <==> CutsOn(ScannerAt(s, start, i, trackTypes), s[i])
  {
    ScannerIs(s, start, i, trackTypes);
  }

  // ----- the splitter

  datatype Segment = Segment(start: nat, end: nat, value: string)

  predicate Follows(a: Segment, b: Segment, s: string) {
    b.start == a.end + 1 && a.end < |s| && s[a.end] == ','
  }

  // The segments fill start..end, one comma apart.
  predicate Tiles(segments: seq<Segment>, s: string, start: nat, end: nat)
    requires start <= end <= |s|
  {
    && segments != []
    && segments[0].start == start && segments[|segments| - 1].end == end
    && (forall k :: 0 <= k < |segments| ==>
          segments[k].start <= segments[k].end <= end && segments[k].value == s[segments[k].start..segments[k].end])
    && (forall k :: 0 < k < |segments| ==> Follows(segments[k - 1], segments[k], s))
  }

  // The segments fill start up to a comma just before `next`.
  predicate TilesBefore(segments: seq<Segment>, s: string, start: nat, next: nat)
    requires start <= next <= |s|
  {
    if segments == [] then next == start
    else start < next && s[next - 1] == ',' && Tiles(segments, s, start, next - 1)
  }

  // The segments end exactly at the cuts before `upTo`.
  ghost predicate EndsAtCuts(segments: seq<Segment>, s: string, start: nat, upTo: nat, trackTypes: bool)
    requires start <= upTo <= |s|
  {
    && (forall k :: 0 <= k < |segments| ==>
          start <= segments[k].end < upTo && IsCut(s, start, segments[k].end, trackTypes))
    && (forall i :: start <= i < upTo && IsCut(s, start, i, trackTypes) ==>
          exists k :: 0 <= k < |segments| && segments[k].end == i)
  }

  // The segments pushed before position `i`, and where the next one starts.
  datatype Split = Split(done: seq<Segment>, next: nat)

  function SplitAt(s: string, start: nat, i: nat, trackTypes: bool): (r: Split)
    requires start <= i <= |s|
    ensures start <= r.next <= i
    decreases i
  {
    if i == start then Split([], start)
    else
      var before := SplitAt(s, start, i - 1, trackTypes);
      if !CutsOn(ScannerAt(s, start, i - 1, trackTypes), s[i - 1]) then before
      else Split(before.done + [Segment(before.next, i - 1, s[before.next..i - 1])], i)
  }

  lemma SplitStep(s: string, start: nat, i: nat, trackTypes: bool)
    requires start <= i < |s|
    ensures var before := SplitAt(s, start, i, trackTypes);
      SplitAt(s, start, i + 1, trackTypes)
      == if IsCut(s, start, i, trackTypes)
         then Split(before.done + [Segment(before.next, i, s[before.next..i])], i + 1)
         else before
  {
    hide IsCut, ScannerAt, CutsOn;
    CutIff(s, start, i, trackTypes);
  }

  lemma SplitAtStep(s: string, start: nat, i: nat, trackTypes: bool)
    requires start <= i < |s|
    ensures ScannerAt(s, start, i + 1, trackTypes) == Next(ScannerAt(s, start, i, trackTypes), s[i], trackTypes)
    ensures var before := SplitAt(s, start, i, trackTypes);
      SplitAt(s, start, i + 1, trackTypes)
      == if CutsOn(ScannerAt(s, start, i, trackTypes), s[i])
         then Split(before.done + [Segment(before.next, i, s[before.next..i])], i + 1)
         else before
  {
    hide Next, CutsOn;
  }

  lemma SplitStart(s: string, start: nat, trackTypes: bool)
    requires start <= |s|
    ensures SplitAt(s, start, start, trackTypes) == Split([], start)
    ensures TilesBefore([], s, start, start) && EndsAtCuts([], s, start, start, trackTypes)
  {
    hide IsCut;
  }

  lemma {:induction false} SplitTiles(s: string, start: nat, i: nat, trackTypes: bool)
    requires start <= i <= |s|
    ensures TilesBefore(SplitAt(s, start, i, trackTypes).done, s, start, SplitAt(s, start, i, trackTypes).next)
    ensures EndsAtCuts(SplitAt(s, start, i, trackTypes).done, s, start, i, trackTypes)
    decreases i
  {
    hide *;
    SplitStart(s, start, trackTypes);
    if i == start {
    } else {
      var before := SplitAt(s, start, i - 1, trackTypes);
      SplitTiles(s, start, i - 1, trackTypes);
      SplitStep(s, start, i - 1, trackTypes);
      if IsCut(s, start, i - 1, trackTypes) {
        CutIsComma(s, start, i - 1, trackTypes);
        var segment := Segment(before.next, i - 1, s[before.next..i - 1]);
        CutAdded(before.done, segment, s, start, i - 1, trackTypes);
        SegmentAdded(before.done, segment, s, start, before.next);
      } else {
        NoCutAdded(before.done, s, start, i - 1, trackTypes);
      }
    }
  }

  lemma CutIsComma(s: string, start: nat, i: nat, trackTypes: bool)
    requires start <= i < |s| && IsCut(s, start, i, trackTypes)
    ensures s[i] == ','
  {
  }

  lemma ScanStart(s: string, start: nat, trackTypes: bool)
    requires start <= |s|
    ensures ScannerAt(s, start, start, trackTypes) == Scanner(Quoting(false, false), 0, 0, 0, TypeState(0, false))
    ensures SplitAt(s, start, start, trackTypes) == Split([], start)
  {
  }

  /** The segments fill the slice and end exactly at its top-level commas. */
  method SplitTopLevelSegments(source: string, start: nat, end: nat, trackTypeArguments: bool)
    returns (segments: seq<Segment>)
    requires start <= end <= |source|
    ensures Tiles(segments, source, start, end)
    ensures EndsAtCuts(segments[..|segments| - 1], source, start, end, trackTypeArguments)
  {
    hide Tiles, TilesBefore, EndsAtCuts, IsCut, ScannerAt, SplitAt;
    ScanStart(source, start, trackTypeArguments);
    segments := [];
    var segmentStart := start;
    var quoted, escaped := false, false;
    var typeArgumentDepth: nat := 0;
    var inDefaultValue := false;
    var parens, brackets, braces := 0, 0, 0;
    for index := start to end
      invariant ScannerAt(source, start, index, trackTypeArguments)
        == Scanner(Quoting(quoted, escaped), parens, brackets, braces, TypeState(typeArgumentDepth, inDefaultValue))
      invariant start <= segmentStart <= index
      invariant SplitAt(source, start, index, trackTypeArguments) == Split(segments, segmentStart)
    {
      SplitAtStep(source, start, index, trackTypeArguments);
      var character := source[index];
      if escaped {
        escaped := false;
      } else if quoted && character == '\\' {
        escaped := true;
      } else if character == '"' {
        quoted := !quoted;
      } else if quoted {
      } else if trackTypeArguments && !inDefaultValue && character == '<' {
        typeArgumentDepth := typeArgumentDepth + 1;
      } else if trackTypeArguments && character == '>' && typeArgumentDepth > 0 {
        typeArgumentDepth := typeArgumentDepth - 1;
      } else if character == '(' {
        parens := parens + 1;
      } else if character == '[' {
        brackets := brackets + 1;
      } else if character == '{' {
        braces := braces + 1;
      } else if character == ')' {
        parens := parens - 1;
      } else if character == ']' {
        brackets := brackets - 1;
      } else if character == '}' {
        braces := braces - 1;
      } else if trackTypeArguments && character == '=' && typeArgumentDepth == 0
        && parens == 0 && brackets == 0 && braces == 0 {
        inDefaultValue := true;
      } else if character == ',' && typeArgumentDepth == 0 && parens == 0 && brackets == 0 && braces == 0 {
        segments := segments + [Segment(segmentStart, index, source[segmentStart..index])];
        segmentStart := index + 1;
        inDefaultValue := false;
      }
    }
    var segment := Segment(segmentStart, end, source[segmentStart..end]);
    SplitTiles(source, start, end, trackTypeArguments);
    SegmentAdded(segments, segment, source, start, segmentStart);
    assert (segments + [segment])[..|segments|] == segments;
    segments := segments + [segment];
  }

  lemma SegmentAdded(segments: seq<Segment>, last: Segment, s: string, start: nat, segmentStart: nat)
    requires start <= segmentStart <= last.end <= |s| && TilesBefore(segments, s, start, segmentStart)
    requires last == Segment(segmentStart, last.end, s[segmentStart..last.end])
    ensures Tiles(segments + [last], s, start, last.end)
    ensures last.end < |s| && s[last.end] == ',' ==> TilesBefore(segments + [last], s, start, last.end + 1)
  {
    var more := segments + [last];
    forall k | 0 < k < |more| ensures Follows(more[k - 1], more[k], s) {
      assert k < |segments| ==> Follows(segments[k - 1], segments[k], s);
    }
  }

  lemma NoCutAdded(segments: seq<Segment>, s: string, start: nat, i: nat, trackTypes: bool)
    requires start <= i < |s| && EndsAtCuts(segments, s, start, i, trackTypes)
    ensures !IsCut(s, start, i, trackTypes) ==> EndsAtCuts(segments, s, start, i + 1, trackTypes)
  {
  }

  lemma CutAdded(segments: seq<Segment>, last: Segment, s: string, start: nat, i: nat, trackTypes: bool)
    requires start <= i < |s| && EndsAtCuts(segments, s, start, i, trackTypes)
    requires last.end == i && IsCut(s, start, i, trackTypes)
    ensures EndsAtCuts(segments + [last], s, start, i + 1, trackTypes)
  {
    var more := segments + [last];
    forall j | start <= j < i + 1 && IsCut(s, start, j, trackTypes)
      ensures exists k :: 0 <= k < |more| && more[k].end == j
    {
      if j == i {
        assert more[|segments|].end == j;
      } else {
        var k :| 0 <= k < |segments| && segments[k].end == j;
        assert more[k].end == j;
      }
    }
  }

  // ----- what the segments say

  function JoinWithCommas(segments: seq<Segment>): string {
    if segments == [] then ""
    else if |segments| == 1 then segments[0].value
    else segments[0].value + "," + JoinWithCommas(segments[1..])
  }

  lemma TilesRest(segments: seq<Segment>, s: string, start: nat, end: nat)
    requires start <= end <= |s| && Tiles(segments, s, start, end) && |segments| > 1
    ensures segments[0].end + 1 <= end && s[segments[0].end] == ','
    ensures Tiles(segments[1..], s, segments[0].end + 1, end)
  {
    var rest := segments[1..];
    assert Follows(segments[0], segments[1], s);
    assert rest[0] == segments[1] && rest[|rest| - 1] == segments[|segments| - 1];
    forall k | 0 < k < |rest| ensures Follows(rest[k - 1], rest[k], s) {
      assert Follows(segments[k], segments[k + 1], s);
    }
  }

  lemma TilesFirst(segments: seq<Segment>, s: string, start: nat, end: nat)
    requires start <= end <= |s| && Tiles(segments, s, start, end)
    ensures segments != [] && start <= segments[0].end <= end && segments[0].value == s[start..segments[0].end]
    ensures |segments| == 1 ==> segments[0].end == end
  {
  }

  lemma JoinStep(segments: seq<Segment>)
    ensures |segments| == 1 ==> JoinWithCommas(segments) == segments[0].value
    ensures |segments| > 1 ==> JoinWithCommas(segments) == segments[0].value + "," + JoinWithCommas(segments[1..])
  {
  }

  lemma SliceAtComma(s: string, start: nat, cut: nat, end: nat)
    requires start <= cut < end <= |s| && s[cut] == ','
    ensures s[start..cut] + "," + s[cut + 1..end] == s[start..end]
  {
    assert s[start..end] == s[start..cut] + [s[cut]] + s[cut + 1..end];
  }

  /** Joining the values with commas rebuilds the slice. */
  lemma {:induction false} JoinRebuilds(segments: seq<Segment>, s: string, start: nat, end: nat)
    requires start <= end <= |s| && Tiles(segments, s, start, end)
    ensures JoinWithCommas(segments) == s[start..end]
    decreases |segments|
  {
    hide *;
    TilesFirst(segments, s, start, end);
    JoinStep(segments);
    if |segments| > 1 {
      var cut := segments[0].end;
      TilesRest(segments, s, start, end);
      JoinRebuilds(segments[1..], s, cut + 1, end);
      SliceAtComma(s, start, cut, end);
    }
  }

  // Segments never step back.
  lemma {:induction false} EndsIncrease(segments: seq<Segment>, s: string, start: nat, end: nat, i: nat, j: nat)
    requires start <= end <= |s| && Tiles(segments, s, start, end) && i < j < |segments|
    ensures segments[i].end < segments[j].end
    decreases j
  {
    assert Follows(segments[j - 1], segments[j], s);
    if i < j - 1 {
      EndsIncrease(segments, s, start, end, i, j - 1);
    }
  }

  // Two tilings with the same cuts agree up to any index they both have.
  lemma {:induction false} TilingsAgree(a: seq<Segment>, b: seq<Segment>, s: string, start: nat, end: nat,
      trackTypes: bool, k: nat)
    requires start <= end <= |s| && Tiles(a, s, start, end) && Tiles(b, s, start, end)
    requires EndsAtCuts(a[..|a| - 1], s, start, end, trackTypes)
    requires EndsAtCuts(b[..|b| - 1], s, start, end, trackTypes)
    requires k < |a| && k < |b|
    ensures a[k] == b[k]
    decreases k
  {
    if k > 0 {
      TilingsAgree(a, b, s, start, end, trackTypes, k - 1);
      assert Follows(a[k - 1], a[k], s) && Follows(b[k - 1], b[k], s);
    }
    EndNotAfter(b, a, s, start, end, trackTypes, k);
    EndNotAfter(a, b, s, start, end, trackTypes, k);
  }

  // The k-th end of one tiling cannot lie past the k-th end of the other.
  lemma EndNotAfter(late: seq<Segment>, early: seq<Segment>, s: string, start: nat, end: nat, trackTypes: bool, k: nat)
    requires start <= end <= |s| && Tiles(late, s, start, end) && Tiles(early, s, start, end)
    requires EndsAtCuts(late[..|late| - 1], s, start, end, trackTypes)
    requires EndsAtCuts(early[..|early| - 1], s, start, end, trackTypes)
    requires k < |late| && k < |early| && late[k].start == early[k].start
    ensures late[k].end <= early[k].end
  {
    var i := early[k].end;
    if k < |early| - 1 {
      assert early[..|early| - 1][k].end == i;
      assert IsCut(s, start, i, trackTypes);
      var j :| 0 <= j < |late[..|late| - 1]| && late[..|late| - 1][j].end == i;
      if k < j {
        EndsIncrease(late, s, start, end, k, j);
      } else if j < k {
        assert Follows(late[k - 1], late[k], s);
        if j < k - 1 {
          EndsIncrease(late, s, start, end, j, k - 1);
        }
      }
    }
  }

  /** The two properties of the splitter determine its result. */
  lemma SegmentsUnique(a: seq<Segment>, b: seq<Segment>, s: string, start: nat, end: nat, trackTypes: bool)
    requires start <= end <= |s| && Tiles(a, s, start, end) && Tiles(b, s, start, end)
    requires EndsAtCuts(a[..|a| - 1], s, start, end, trackTypes)
    requires EndsAtCuts(b[..|b| - 1], s, start, end, trackTypes)
    ensures a == b
  {
    var n := if |a| < |b| then |a| else |b|;
    forall k | 0 <= k < n ensures a[k] == b[k] {
      TilingsAgree(a, b, s, start, end, trackTypes, k);
    }
    if |a| < |b| {
      EndsIncrease(b, s, start, end, |a| - 1, |b| - 1);
    } else if |b| < |a| {
      EndsIncrease(a, s, start, end, |b| - 1, |a| - 1);
    }
  }

  const FRESH := Scanner(Quoting(false, false), 0, 0, 0, TypeState(0, false))

  lemma {:induction false} Restarts(s: string, start: nat, at: nat, i: nat, trackTypes: bool)
    requires start <= at <= i <= |s| && ScannerAt(s, start, at, trackTypes) == FRESH
    ensures ScannerAt(s, at, i, trackTypes) == ScannerAt(s, start, i, trackTypes)
    decreases i
  {
    if i == at {
    } else {
      Restarts(s, start, at, i - 1, trackTypes);
    }
  }

  lemma CutRestarts(s: string, start: nat, i: nat, trackTypes: bool)
    requires start <= i < |s| && IsCut(s, start, i, trackTypes)
    ensures ScannerAt(s, start, i + 1, trackTypes) == FRESH
  {
    hide IsCut;
    CutIff(s, start, i, trackTypes);
  }

  // A segment starts with every count at zero.
  lemma SegmentStartsFresh(segments: seq<Segment>, s: string, start: nat, end: nat, trackTypes: bool, k: nat)
    requires start <= end <= |s| && Tiles(segments, s, start, end) && k < |segments|
    requires EndsAtCuts(segments[..|segments| - 1], s, start, end, trackTypes)
    ensures start <= segments[k].start && ScannerAt(s, start, segments[k].start, trackTypes) == FRESH
  {
    hide IsCut;
    if k > 0 {
      assert Follows(segments[k - 1], segments[k], s);
      var cut := segments[k - 1].end;
      assert segments[..|segments| - 1][k - 1].end == cut;
      CutRestarts(s, start, cut, trackTypes);
    }
  }

  /** Splitting a segment by itself finds no comma to cut at. */
  lemma SegmentIsWhole(segments: seq<Segment>, s: string, start: nat, end: nat, trackTypes: bool, k: nat, i: nat)
    requires start <= end <= |s| && Tiles(segments, s, start, end) && k < |segments|
    requires EndsAtCuts(segments[..|segments| - 1], s, start, end, trackTypes)
    requires segments[k].start <= i < segments[k].end
    ensures !IsCut(s, segments[k].start, i, trackTypes)
  {
    hide IsCut, ScannerAt, CutsOn;
    var at := segments[k].start;
    SegmentStartsFresh(segments, s, start, end, trackTypes, k);
    Restarts(s, start, at, i, trackTypes);
    CutIff(s, start, i, trackTypes);
    CutIff(s, at, i, trackTypes);
    if IsCut(s, start, i, trackTypes) {
      var j :| 0 <= j < |segments[..|segments| - 1]| && segments[..|segments| - 1][j].end == i;
      if k < j {
        EndsIncrease(segments, s, start, end, k, j);
      } else if j < k {
        assert Follows(segments[k - 1], segments[k], s);
        if j < k - 1 {
          EndsIncrease(segments, s, start, end, j, k - 1);
        }
      }
    }
  }

  // ----- closing delimiters

  // Code at `i` that closes, and brings the depth to zero.
  predicate ClosesAt(s: string, offset: nat, i: nat, opening: char, closing: char)
    requires offset <= i < |s|
  {
    IsCode(s, offset, i) && s[i] == closing && s[i] != opening && Depth(s, offset, i + 1, opening, closing) == 0
  }

  /** The least closing position, or none exactly when there is none. */
  method FindClosingDelimiter(source: string, openingOffset: nat, opening: char, closing: char)
    returns (r: Option<nat>)
    ensures r.Some? ==>
      openingOffset <= r.value < |source| && ClosesAt(source, openingOffset, r.value, opening, closing)
    ensures forall i :: openingOffset <= i < (if r.Some? then r.value else |source|) ==>
      !ClosesAt(source, openingOffset, i, opening, closing)
  {
    if openingOffset > |source| {
      return None;
    }
    var depth := 0;
    var quoted, escaped := false, false;
    for index := openingOffset to |source|
      invariant QuotingAt(source, openingOffset, index) == Quoting(quoted, escaped)
      invariant depth == Depth(source, openingOffset, index, opening, closing)
      invariant forall i :: openingOffset <= i < index ==> !ClosesAt(source, openingOffset, i, opening, closing)
    {
      var character := source[index];
      if escaped {
        escaped := false;
        continue;
      }
      if quoted && character == '\\' {
        escaped := true;
        continue;
      }
      if character == '"' {
        quoted := !quoted;
        continue;
      }
      if quoted {
        continue;
      }
      if character == opening {
        depth := depth + 1;
      } else if character == closing {
        depth := depth - 1;
        if depth == 0 {
          return Some(index);
        }
      }
    }
    return None;
  }

  /** Between an opening delimiter and the first position that closes it, the depth
      never falls to zero: the text between is balanced. */
  lemma {:induction false} StaysOpen(s: string, offset: nat, i: nat, opening: char, closing: char)
    requires offset < i <= |s| && s[offset] == opening != '"' && opening != closing
    requires forall j :: offset <= j < i ==> !ClosesAt(s, offset, j, opening, closing)
    ensures Depth(s, offset, i, opening, closing) >= 1
    decreases i
  {
    if i > offset + 1 {
      StaysOpen(s, offset, i - 1, opening, closing);
      assert !ClosesAt(s, offset, i - 1, opening, closing);
    } else {
      assert IsCode(s, offset, offset);
    }
  }

  // ----- what is never cut

  predicate IsKind(opening: char, closing: char) {
    (opening == '(' && closing == ')') || (opening == '[' && closing == ']') || (opening == '{' && closing == '}')
  }

  // Scanning from an unquoted place is scanning from the start.
  lemma {:induction false} ScansOn(s: string, start: nat, at: nat, i: nat, opening: char, closing: char)
    requires start <= at <= i <= |s| && QuotingAt(s, start, at) == Quoting(false, false)
    ensures QuotingAt(s, at, i) == QuotingAt(s, start, i)
    ensures Depth(s, at, i, opening, closing)
      == Depth(s, start, i, opening, closing) - Depth(s, start, at, opening, closing)
    decreases i
  {
    if i == at {
    } else {
      ScansOn(s, start, at, i - 1, opening, closing);
    }
  }

  /** No comma between an opening bracket and the position found to close it is a cut, if no
      more brackets of the kind are closed than opened before it. */
  lemma NoCutInside(s: string, start: nat, a: nat, b: nat, i: nat, opening: char, closing: char, trackTypes: bool)
    requires start <= a < i < b < |s| && IsKind(opening, closing)
    requires IsCode(s, start, a) && s[a] == opening && Depth(s, start, a, opening, closing) >= 0
    requires ClosesAt(s, a, b, opening, closing) && forall j :: a <= j < b ==> !ClosesAt(s, a, j, opening, closing)
    ensures !IsCut(s, start, i, trackTypes)
  {
    ScansOn(s, start, a, a + 1, opening, closing);
    OpenBelow(s, a, i, opening, closing);
    ScansOn(s, start, a, i, opening, closing);
  }

  lemma {:induction false} OpenBelow(s: string, a: nat, i: nat, opening: char, closing: char)
    requires a < i <= |s| && opening != closing && IsCode(s, a, a) && s[a] == opening
    requires forall j :: a <= j < i ==> !ClosesAt(s, a, j, opening, closing)
    ensures Depth(s, a, i, opening, closing) > 0
    decreases i
  {
    if i == a + 1 {
      assert Depth(s, a, a, opening, closing) == 0;
    } else {
      OpenBelow(s, a, i - 1, opening, closing);
      assert !ClosesAt(s, a, i - 1, opening, closing);
    }
  }

  /** Where type arguments are tracked, nothing after an unquoted `<` is cut before the next
      unquoted `>`, unless the `<` stands in a default value. */
  lemma {:induction false} TypeArgumentsHide(s: string, start: nat, a: nat, i: nat)
    requires start <= a < i <= |s| && IsCode(s, start, a) && s[a] == '<' && !TypesAt(s, start, a).inDefault
    requires forall k :: a < k < i && IsCode(s, start, k) ==> s[k] != '>'
    ensures TypesAt(s, start, i).depth > 0
    ensures i < |s| ==> !IsCut(s, start, i, true)
    decreases i
  {
    hide IsCode, Flat;
    if i == a + 1 {
    } else {
      TypeArgumentsHide(s, start, a, i - 1);
    }
  }

  // From a top-level `=` on, a default value lasts until the next top-level comma.
  ghost predicate InDefault(s: string, start: nat, a: nat, i: nat) {
    && start <= a < i <= |s| && IsCode(s, start, a) && s[a] == '='
    && TypesAt(s, start, a).depth == 0 && Flat(s, start, a)
    && forall k :: a < k < i && IsCode(s, start, k) && s[k] == ',' ==> !Flat(s, start, k)
  }

  /** In a default value `<` and `>` are comparisons: the next top-level comma is a cut. */
  lemma {:induction false} DefaultIgnoresComparisons(s: string, start: nat, a: nat, i: nat)
    requires InDefault(s, start, a, i)
    ensures TypesAt(s, start, i) == TypeState(0, true)
    ensures i < |s| && IsCode(s, start, i) && s[i] == ',' && Flat(s, start, i) ==> IsCut(s, start, i, true)
    decreases i
  {
    if i == a + 1 {
    } else {
      DefaultIgnoresComparisons(s, start, a, i - 1);
    }
  }

  /** A double-quoted string, in which a backslash takes the next character with it, is passed
      over: nothing in it is code, and the scan is outside quotes after it. */
  lemma StringsAreQuoted(s: string, start: nat, i: nat, body: string)
    requires start <= i && i + |body| + 2 <= |s| && s[i..i + |body| + 2] == "\"" + body + "\""
    requires IsQuotedBody('"', body) && QuotingAt(s, start, i) == Quoting(false, false)
    ensures QuotingAt(s, start, i + |body| + 2) == Quoting(false, false)
    ensures forall k :: i <= k < i + |body| + 2 ==> !IsCode(s, start, k)
  {
    var t := "\"" + body + "\"";
    SliceAt(s, i, i + |body| + 2, 0);
    SliceAt(s, i, i + |body| + 2, |body| + 1);
    assert t[|body| + 1] == t[|t| - 1];
    SliceOfSlice(s, i, i + |body| + 2, 1, 1 + |body|);
    assert t[1..1 + |body|] == body;
    assert QuotingAt(s, start, i + 1) == Quoting(true, false);
    BodyIsQuoted(s, start, i + 1, body);
    assert s[i + 1 + |body|] == '"';
  }

  lemma {:induction false} BodyIsQuoted(s: string, start: nat, i: nat, body: string)
    requires start <= i && i + |body| <= |s| && IsQuotedBody('"', body) && s[i..i + |body|] == body
    requires QuotingAt(s, start, i) == Quoting(true, false)
    ensures QuotingAt(s, start, i + |body|) == Quoting(true, false)
    ensures forall k :: i <= k < i + |body| ==> QuotingAt(s, start, k).quoted
    decreases |body|
  {
    if body == "" {
    } else {
      var n := if body[0] == '\\' then 2 else 1;
      assert s[i] == body[0];
      assert QuotingAt(s, start, i + 1) == Quoting(true, n == 2);
      assert n == 2 ==> QuotingAt(s, start, i + 2) == Quoting(true, false);
      assert s[i + n..i + |body|] == body[n..];
      BodyIsQuoted(s, start, i + n, body[n..]);
    }
  }
}
