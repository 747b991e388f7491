/** Dotted path patterns of the policy coverage check: `*` stands for one part and `**`
    for any number of parts. The recursive matcher is exactly this meaning. */
module PolicyGlob {
  import opened Text

  function Matches(pattern: seq<string>, value: seq<string>): bool
    decreases |pattern|
  {
    if pattern == [] then value == []
    else if pattern[0] == "**" then
      |pattern| == 1 || exists k :: 0 <= k <= |value| && Matches(pattern[1..], value[k..])
    else
      value != [] && (pattern[0] == "*" || pattern[0] == value[0]) && Matches(pattern[1..], value[1..])
  }

  method MatchesParts(patternParts: seq<string>, valueParts: seq<string>) returns (r: bool)
    ensures r <==> Matches(patternParts, valueParts)
    decreases |patternParts|
  {
    if |patternParts| == 0 {
      return |valueParts| == 0;
    }
    var head, tail := patternParts[0], patternParts[1..];
    if head == "**" {
      if |tail| == 0 {
        return true;
      }
      var index := 0;
      while index <= |valueParts|
        invariant 0 <= index <= |valueParts| + 1
        invariant forall k :: 0 <= k < index ==> !Matches(tail, valueParts[k..])
      {
        var found := MatchesParts(tail, valueParts[index..]);
        if found {
          return true;
        }
        index := index + 1;
      }
      return false;
    }
    if |valueParts| == 0 {
      return false;
    }
    if head != "*" && head != valueParts[0] {
      return false;
    }
    r := MatchesParts(tail, valueParts[1..]);
  }

  // ----- the meaning of a pattern

  // What one part of a pattern may stand for.
  predicate PartMeans(part: string, parts: seq<string>) {
    if part == "**" then true else if part == "*" then |parts| == 1 else parts == [part]
  }

  // The value divides into consecutive runs, one for each part of the pattern.
  ghost predicate Divides(pattern: seq<string>, value: seq<string>, segments: seq<seq<string>>) {
    && |segments| == |pattern| && Concat(segments) == value
    && forall i :: 0 <= i < |pattern| ==> PartMeans(pattern[i], segments[i])
  }

  lemma {:induction false} MatchDivides(pattern: seq<string>, value: seq<string>) returns (segments: seq<seq<string>>)
    requires Matches(pattern, value)
    ensures Divides(pattern, value, segments)
    decreases |pattern|
  {
    if pattern == [] {
      segments := [];
    } else {
      var k := 1;
      if pattern[0] == "**" {
        if |pattern| == 1 {
          segments := [value];
          assert segments[1..] == [];
          assert Concat(segments) == value + Concat([]);
          return;
        }
        k :| 0 <= k <= |value| && Matches(pattern[1..], value[k..]);
      }
      var rest := MatchDivides(pattern[1..], value[k..]);
      segments := [value[..k]] + rest;
      assert segments[1..] == rest;
      assert value == value[..k] + value[k..];
      forall i | 0 <= i < |pattern| ensures PartMeans(pattern[i], segments[i]) {
        assert i > 0 ==> PartMeans(pattern[1..][i - 1], rest[i - 1]);
      }
    }
  }

  lemma {:induction false} DivisionMatches(pattern: seq<string>, value: seq<string>, segments: seq<seq<string>>)
    requires Divides(pattern, value, segments)
    ensures Matches(pattern, value)
    decreases |pattern|
  {
    if pattern == [] {
    } else {
      var first, rest := segments[0], segments[1..];
      assert PartMeans(pattern[0], first);
      assert value[|first|..] == Concat(rest);
      assert Divides(pattern[1..], value[|first|..], rest) by {
        assert forall i :: 0 <= i < |rest| ==> pattern[1..][i] == pattern[i + 1] && rest[i] == segments[i + 1];
      }
      DivisionMatches(pattern[1..], value[|first|..], rest);
    }
  }

  /** The matcher is sound and complete: it accepts exactly the values that divide into
      runs allowed by the parts of the pattern. */
  lemma MatchesIff(pattern: seq<string>, value: seq<string>)
    ensures Matches(pattern, value) <==> exists segments :: Divides(pattern, value, segments)
  {
    if Matches(pattern, value) {
      var segments := MatchDivides(pattern, value);
    }
    if segments :| Divides(pattern, value, segments) {
      DivisionMatches(pattern, value, segments);
    }
  }

  // ----- composition

  ghost predicate SplitsAt(p: seq<string>, q: seq<string>, value: seq<string>, k: int) {
    0 <= k <= |value| && Matches(p, value[..k]) && Matches(q, value[k..])
  }

  lemma DivisionSplits(p: seq<string>, q: seq<string>, value: seq<string>, segments: seq<seq<string>>) returns (k: nat)
    requires Divides(p + q, value, segments)
    ensures k <= |value|
    ensures Divides(p, value[..k], segments[..|p|]) && Divides(q, value[k..], segments[|p|..])
  {
    hide PartMeans, Concat;
    var a, b := segments[..|p|], segments[|p|..];
    assert segments == a + b;
    ConcatSplits(a, b);
    k := |Concat(a)|;
    assert value[..k] == Concat(a) && value[k..] == Concat(b);
    assert forall i :: 0 <= i < |p| ==> PartMeans((p + q)[i], segments[i]) && a[i] == segments[i];
    assert forall i :: 0 <= i < |q| ==> PartMeans((p + q)[|p| + i], segments[|p| + i]) && b[i] == segments[|p| + i];
  }

  lemma DivisionsJoin(p: seq<string>, q: seq<string>, v: seq<string>, w: seq<string>,
      a: seq<seq<string>>, b: seq<seq<string>>)
    requires Divides(p, v, a) && Divides(q, w, b)
    ensures Divides(p + q, v + w, a + b)
  {
    hide PartMeans;
    ConcatSplits(a, b);
  }

  /** A pattern in two halves matches exactly the values that split into a prefix matching
      the one and a suffix matching the other. */
  lemma MatchesComposes(p: seq<string>, q: seq<string>, value: seq<string>)
    ensures Matches(p + q, value) <==> exists k :: SplitsAt(p, q, value, k)
  {
    hide Matches, Divides;
    if Matches(p + q, value) {
      var segments := MatchDivides(p + q, value);
      var k := DivisionSplits(p, q, value, segments);
      DivisionMatches(p, value[..k], segments[..|p|]);
      DivisionMatches(q, value[k..], segments[|p|..]);
      assert SplitsAt(p, q, value, k);
    }
    if k :| SplitsAt(p, q, value, k) {
      var a := MatchDivides(p, value[..k]);
      var b := MatchDivides(q, value[k..]);
      DivisionsJoin(p, q, value[..k], value[k..], a, b);
      assert value == value[..k] + value[k..];
      DivisionMatches(p + q, value, a + b);
    }
  }

  lemma AnyTwiceMatches(value: seq<string>)
    ensures Matches(["**", "**"], value)
  {
    assert value[0..] == value && ["**", "**"][1..] == ["**"];
    assert Matches(["**", "**"][1..], value[0..]);
  }

  // Middles that match the same values can be exchanged.
  lemma MiddleExchanges(p: seq<string>, m: seq<string>, n: seq<string>, q: seq<string>, value: seq<string>)
    requires forall v :: Matches(m, v) ==> Matches(n, v)
    requires Matches(p + m + q, value)
    ensures Matches(p + n + q, value)
  {
    MatchesComposes(p + m, q, value);
    var k :| SplitsAt(p + m, q, value, k);
    MatchesComposes(p, m, value[..k]);
    var j :| SplitsAt(p, m, value[..k], j);
    assert SplitsAt(p, n, value[..k], j);
    MatchesComposes(p, n, value[..k]);
    assert SplitsAt(p + n, q, value, k);
    MatchesComposes(p + n, q, value);
  }

  /** Adjacent double stars collapse to one, wherever they stand. */
  lemma DoubleStarsCollapse(p: seq<string>, q: seq<string>, value: seq<string>)
    ensures Matches(p + ["**", "**"] + q, value) <==> Matches(p + ["**"] + q, value)
  {
    forall v ensures Matches(["**"], v) && Matches(["**", "**"], v) {
      AnyTwiceMatches(v);
    }
    if Matches(p + ["**", "**"] + q, value) {
      MiddleExchanges(p, ["**", "**"], ["**"], q, value);
    }
    if Matches(p + ["**"] + q, value) {
      MiddleExchanges(p, ["**"], ["**", "**"], q, value);
    }
  }

  // ----- dotted paths

  method PathMatchesPattern(pattern: string, value: string) returns (r: bool)
    ensures r <==> Matches(SplitDots(pattern), SplitDots(value))
  {
    r := MatchesParts(SplitDots(pattern), SplitDots(value));
  }

  lemma {:induction false} LiteralMatches(pattern: seq<string>, value: seq<string>)
    requires "*" !in pattern && "**" !in pattern
    ensures Matches(pattern, value) <==> pattern == value
    decreases |pattern|
  {
    if pattern == [] {
    } else {
      assert pattern == [pattern[0]] + pattern[1..];
      if value != [] {
        assert value == [value[0]] + value[1..];
        LiteralMatches(pattern[1..], value[1..]);
      }
    }
  }

  /** A pattern without star parts matches its own path and nothing else. */
  lemma LiteralPattern(pattern: string, value: string)
    requires "*" !in SplitDots(pattern) && "**" !in SplitDots(pattern)
    ensures Matches(SplitDots(pattern), SplitDots(value)) <==> pattern == value
  {
    LiteralMatches(SplitDots(pattern), SplitDots(value));
    SplitJoins(pattern);
    SplitJoins(value);
  }
}
