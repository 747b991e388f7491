/** Strings as sequences of code units: replacement, decimal numerals, trimming,
    joining and splitting, and the code-unit order used by the sorters; and the shared
    operations on sequences and maps. */
module Text {

  datatype Option<+T> = None | Some(value: T)

  datatype Result<+T> = Ok(value: T) | Err(message: string)

  // The locale-aware order of names.
  type NameOrder = (string, string) -> bool

  function Lookup<T>(m: map<string, T>, key: string, missing: T): T {
    if key in m then m[key] else missing
  }

  function Concat<T>(parts: seq<seq<T>>): seq<T> {
    if parts == [] then [] else parts[0] + Concat(parts[1..])
  }

  lemma {:induction false} ConcatSplits<T>(a: seq<seq<T>>, b: seq<seq<T>>)
    ensures Concat(a + b) == Concat(a) + Concat(b)
    decreases |a|
  {
    if a == [] {
      assert a + b == b;
    } else {
      assert (a + b)[1..] == a[1..] + b;
      ConcatSplits(a[1..], b);
    }
  }

  lemma SliceAt<T>(s: seq<T>, i: nat, j: nat, k: nat)
    requires i + k < j <= |s|
    ensures s[i..j][k] == s[i + k]
  {
  }

  lemma SliceOfSlice<T>(s: seq<T>, i: nat, j: nat, a: nat, b: nat)
    requires a <= b && i + b <= j <= |s|
    ensures s[i..j][a..b] == s[i + a..i + b]
  {
    var x, y := s[i..j][a..b], s[i + a..i + b];
    assert |x| == |y| && forall k :: 0 <= k < |x| ==> x[k] == y[k];
  }

  // ----- choosing elements in order

  function Filter<T>(s: seq<T>, keep: T -> bool): seq<T> {
    if s == [] then []
    else
      var last := |s| - 1;
      Filter(s[..last], keep) + (if keep(s[last]) then [s[last]] else [])
  }

  ghost predicate Increasing(at: seq<nat>) {
    forall i, j :: 0 <= i < j < |at| ==> at[i] < at[j]
  }

  // `at` lists the indices of the elements to keep, in order.
  ghost predicate Picks<T>(s: seq<T>, keep: T -> bool, at: seq<nat>) {
    Increasing(at) && forall k: nat :: k in at <==> k < |s| && keep(s[k])
  }

  lemma PicksMore<T>(s: seq<T>, x: T, keep: T -> bool, at: seq<nat>)
    requires Picks(s, keep, at)
    ensures keep(x) ==> Picks(s + [x], keep, at + [|s|])
    ensures !keep(x) ==> Picks(s + [x], keep, at)
  {
    var more := s + [x];
    forall i | 0 <= i < |at| ensures at[i] < |s| && more[at[i]] == s[at[i]] {
      assert at[i] in at;
    }
    forall k: nat ensures (k < |more| && keep(more[k])) <==> k in at || (k == |s| && keep(x)) {
      assert k < |s| ==> more[k] == s[k];
    }
  }

  /** A filter keeps exactly the elements it should, each at its turn. */
  lemma {:induction false} FilterPicks<T>(s: seq<T>, keep: T -> bool) returns (at: seq<nat>)
    ensures Picks(s, keep, at) && |Filter(s, keep)| == |at|
    ensures forall i :: 0 <= i < |at| ==> at[i] < |s| && Filter(s, keep)[i] == s[at[i]]
    decreases |s|
  {
    at := [];
    if s == [] {
    } else {
      var last := |s| - 1;
      var before := FilterPicks(s[..last], keep);
      assert s == s[..last] + [s[last]];
      PicksMore(s[..last], s[last], keep, before);
      at := if keep(s[last]) then before + [last] else before;
    }
  }

  lemma SomeElement(a: seq<nat>) returns (k: nat)
    requires a != []
    ensures k in a && k == a[|a| - 1]
  {
    k := a[|a| - 1];
  }

  lemma AtMostLast(a: seq<nat>, k: nat)
    requires Increasing(a) && k in a
    ensures k <= a[|a| - 1]
  {
  }

  // Two increasing lists of the same numbers are the same.
  lemma {:induction false} IncreasingUnique(a: seq<nat>, b: seq<nat>)
    requires Increasing(a) && Increasing(b) && forall k: nat :: k in a <==> k in b
    ensures a == b
    decreases |a|
  {
    if a == [] {
      if b != [] {
        var k := SomeElement(b);
      }
    } else {
      var k := SomeElement(a);
      var l := SomeElement(b);
      AtMostLast(a, l);
      AtMostLast(b, k);
      var front, other := a[..|a| - 1], b[..|b| - 1];
      forall m: nat ensures m in front <==> m in other {
        InFront(a, m);
        InFront(b, m);
      }
      IncreasingUnique(front, other);
      assert a == front + [k] && b == other + [l];
    }
  }

  lemma InFront(a: seq<nat>, k: nat)
    requires Increasing(a) && a != []
    ensures k in a[..|a| - 1] <==> k in a && k != a[|a| - 1]
  {
    assert a == a[..|a| - 1] + [a[|a| - 1]];
  }

  /** And nothing else does: the elements at those indices are the filter. */
  lemma FilterUnique<T>(s: seq<T>, keep: T -> bool, at: seq<nat>, r: seq<T>)
    requires Picks(s, keep, at) && |r| == |at|
    requires forall i :: 0 <= i < |at| ==> at[i] < |s| && r[i] == s[at[i]]
    ensures r == Filter(s, keep)
  {
    hide Filter, Picks;
    var other := FilterPicks(s, keep);
    PicksUnique(s, keep, at, other);
  }

  lemma PicksUnique<T>(s: seq<T>, keep: T -> bool, a: seq<nat>, b: seq<nat>)
    requires Picks(s, keep, a) && Picks(s, keep, b)
    ensures a == b
  {
    hide Increasing;
    forall k: nat ensures k in a <==> k in b {
      assert k in a <==> k < |s| && keep(s[k]);
      assert k in b <==> k < |s| && keep(s[k]);
    }
    IncreasingUnique(a, b);
  }

  lemma {:induction false} FilterSplits<T>(a: seq<T>, b: seq<T>, keep: T -> bool)
    ensures Filter(a + b, keep) == Filter(a, keep) + Filter(b, keep)
    decreases |b|
  {
    if b == [] {
      assert a + b == a && Filter(a, keep) + [] == Filter(a, keep);
    } else {
      var last := |b| - 1;
      FilterSplits(a, b[..last], keep);
      assert (a + b)[..|a + b| - 1] == a + b[..last];
    }
  }

  // ----- replaceAll with a string pattern: leftmost matches, never overlapping

  predicate StartsWith(s: string, p: string) {
    |p| <= |s| && s[..|p|] == p
  }

  function ReplaceAll(s: string, p: string, r: string): string
    requires p != ""
    decreases |s|
  {
    if s == "" then ""
    else if StartsWith(s, p) then r + ReplaceAll(s[|p|..], p, r)
    else [s[0]] + ReplaceAll(s[1..], p, r)
  }

  // One match at the front is replaced.
  lemma ReplaceHit(p: string, rest: string, r: string)
    requires p != ""
    ensures ReplaceAll(p + rest, p, r) == r + ReplaceAll(rest, p, r)
  {
    assert (p + rest)[..|p|] == p && (p + rest)[|p|..] == rest;
  }

  // Without a match at the front one character is copied.
  lemma ReplaceMiss(c: char, rest: string, p: string, r: string)
    requires p != "" && !StartsWith([c] + rest, p)
    ensures ReplaceAll([c] + rest, p, r) == [c] + ReplaceAll(rest, p, r)
  {
    assert ([c] + rest)[1..] == rest;
  }

  // A stretch without the pattern's first character is copied.
  lemma {:induction false} ReplaceSkip(a: string, rest: string, p: string, r: string)
    requires p != "" && p[0] !in a
    ensures ReplaceAll(a + rest, p, r) == a + ReplaceAll(rest, p, r)
    decreases |a|
  {
    if a == "" {
      assert a + rest == rest;
    } else {
      assert a + rest == [a[0]] + (a[1..] + rest);
      ReplaceMiss(a[0], a[1..] + rest, p, r);
      ReplaceSkip(a[1..], rest, p, r);
    }
  }

  // A pass over one character splits over concatenation.
  lemma {:induction false} PassSplits(s: string, t: string, c: char, r: string)
    ensures ReplaceAll(s + t, [c], r) == ReplaceAll(s, [c], r) + ReplaceAll(t, [c], r)
    decreases |s|
  {
    if s == "" {
      assert s + t == t;
    } else {
      assert s + t == [s[0]] + (s[1..] + t) && s == [s[0]] + s[1..];
      PassSplits(s[1..], t, c, r);
      if s[0] == c {
        ReplaceHit([c], s[1..] + t, r);
        ReplaceHit([c], s[1..], r);
      } else {
        ReplaceMiss(s[0], s[1..] + t, [c], r);
        ReplaceMiss(s[0], s[1..], [c], r);
      }
    }
  }

  lemma Untouched(s: string, c: char, r: string)
    requires c !in s
    ensures ReplaceAll(s, [c], r) == s
  {
    ReplaceSkip(s, "", [c], r);
    assert s + "" == s;
  }

  lemma OnlyChar(c: char, r: string)
    ensures ReplaceAll([c], [c], r) == r
  {
    ReplaceHit([c], "", r);
    assert [c] + "" == [c] && r + "" == r;
  }

  // ----- a chain of passes, each over one character

  function Passes(s: string, pairs: seq<(char, string)>): string
    decreases |pairs|
  {
    if pairs == [] then s else Passes(ReplaceAll(s, [pairs[0].0], pairs[0].1), pairs[1..])
  }

  lemma PassesFrom(s: string, pairs: seq<(char, string)>, k: nat)
    requires k < |pairs|
    ensures Passes(s, pairs[k..]) == Passes(ReplaceAll(s, [pairs[k].0], pairs[k].1), pairs[k + 1..])
  {
    assert pairs[k..][1..] == pairs[k + 1..];
  }

  lemma {:induction false} PassesSplit(s: string, t: string, pairs: seq<(char, string)>)
    ensures Passes(s + t, pairs) == Passes(s, pairs) + Passes(t, pairs)
    decreases |pairs|
  {
    if pairs == [] {
    } else {
      var (c, r) := pairs[0];
      PassSplits(s, t, c, r);
      PassesSplit(ReplaceAll(s, [c], r), ReplaceAll(t, [c], r), pairs[1..]);
    }
  }

  lemma {:induction false} PassesSkip(s: string, pairs: seq<(char, string)>)
    requires forall i :: 0 <= i < |pairs| ==> pairs[i].0 !in s
    ensures Passes(s, pairs) == s
    decreases |pairs|
  {
    if pairs == [] {
    } else {
      Untouched(s, pairs[0].0, pairs[0].1);
      PassesSkip(s, pairs[1..]);
    }
  }

  // Each character has one pass, and no later pass changes its replacement.
  ghost predicate Settled(pairs: seq<(char, string)>) {
    forall i, j :: 0 <= i < j < |pairs| ==> pairs[i].0 != pairs[j].0 && pairs[j].0 !in pairs[i].1
  }

  lemma {:induction false} PassesChar(c: char, pairs: seq<(char, string)>, k: nat)
    requires Settled(pairs) && k < |pairs| && pairs[k].0 == c
    ensures Passes([c], pairs) == pairs[k].1
    decreases k
  {
    if k == 0 {
      OnlyChar(c, pairs[0].1);
      PassesSkip(pairs[0].1, pairs[1..]);
    } else {
      Untouched([c], pairs[0].0, pairs[0].1);
      PassesChar(c, pairs[1..], k - 1);
    }
  }

  // ----- quoted strings

  // A backslash takes the next character with it; the quote itself ends the string.
  predicate IsQuotedBody(quote: char, body: string)
    decreases |body|
  {
    if body == "" then true
    else if body[0] == '\\' then |body| >= 2 && IsQuotedBody(quote, body[2..])
    else body[0] != quote && IsQuotedBody(quote, body[1..])
  }

  // ----- decimal numerals

  predicate IsDigit(c: char) { '0' <= c <= '9' }

  const CAPITALS := "ABCDEFGHIJKLMNOPQRSTUVWXYZ"
  const SMALL := "abcdefghijklmnopqrstuvwxyz"
  const DIGITS := "0123456789"

  lemma CapitalsListed(c: char)
    ensures 'A' <= c <= 'Z' <==> c in CAPITALS
  {
    if 'A' <= c <= 'Z' {
      assert CAPITALS[c as int - 'A' as int] == c;
    }
  }

  lemma SmallListed(c: char)
    ensures 'a' <= c <= 'z' <==> c in SMALL
  {
    if 'a' <= c <= 'z' {
      assert SMALL[c as int - 'a' as int] == c;
    }
  }

  lemma DigitsListed(c: char)
    ensures IsDigit(c) <==> c in DIGITS
  {
    if IsDigit(c) {
      assert DIGITS[c as int - '0' as int] == c;
    }
  }

  lemma CharactersListed(c: char)
    ensures 'A' <= c <= 'Z' <==> c in CAPITALS
    ensures 'a' <= c <= 'z' <==> c in SMALL
    ensures IsDigit(c) <==> c in DIGITS
  {
    hide *;
    CapitalsListed(c);
    SmallListed(c);
    DigitsListed(c);
  }

  function Digit(d: nat): char
    requires d < 10
  {
    ('0' as int + d) as char
  }

  function DigitValue(c: char): nat
    requires IsDigit(c)
  {
    c as int - '0' as int
  }

  function Decimal(n: nat): (s: string)
    ensures |s| > 0 && forall c :: c in s ==> IsDigit(c)
  {
    if n < 10 then [Digit(n)] else Decimal(n / 10) + [Digit(n % 10)]
  }

  function Number(s: string): nat
    requires forall c :: c in s ==> IsDigit(c)
  {
    if s == "" then 0 else Number(s[..|s| - 1]) * 10 + DigitValue(s[|s| - 1])
  }

  lemma {:induction false} NumberOfDecimal(n: nat)
    ensures Number(Decimal(n)) == n
  {
    var s := Decimal(n);
    if n >= 10 {
      NumberOfDecimal(n / 10);
      assert s[..|s| - 1] == Decimal(n / 10);
    } else {
      assert s[..|s| - 1] == "";
    }
  }

  // ----- trim, over the white space and line terminators of ECMAScript

  predicate IsSpace(c: char) {
    || c == '\t' || c == '\n' || c == '\r' || c == ' '
    || c == 0x0B as char || c == 0x0C as char || c == 0xA0 as char || c == 0x1680 as char
    || 0x2000 as char <= c <= 0x200A as char
    || c == 0x2028 as char || c == 0x2029 as char || c == 0x202F as char
    || c == 0x205F as char || c == 0x3000 as char || c == 0xFEFF as char
  }

  function TrimStart(s: string): string {
    if s != "" && IsSpace(s[0]) then TrimStart(s[1..]) else s
  }

  function TrimEnd(s: string): string {
    if s != "" && IsSpace(s[|s| - 1]) then TrimEnd(s[..|s| - 1]) else s
  }

  // What is trimmed off is white space, and what is left does not start with any.
  lemma {:induction false} TrimStartSpec(s: string)
    ensures var r := TrimStart(s);
      && |r| <= |s| && r == s[|s| - |r|..] && (r != "" ==> !IsSpace(r[0]))
      && forall k :: 0 <= k < |s| - |r| ==> IsSpace(s[k])
    decreases |s|
  {
    if s != "" && IsSpace(s[0]) {
      TrimStartSpec(s[1..]);
      var r := TrimStart(s);
      forall k | 0 <= k < |s| - |r| ensures IsSpace(s[k]) {
        assert k > 0 ==> IsSpace(s[1..][k - 1]);
      }
    }
  }

  lemma {:induction false} TrimEndSpec(s: string)
    ensures var r := TrimEnd(s);
      && |r| <= |s| && r == s[..|r|] && (r != "" ==> !IsSpace(r[|r| - 1]))
      && forall k :: |r| <= k < |s| ==> IsSpace(s[k])
    decreases |s|
  {
    if s != "" && IsSpace(s[|s| - 1]) {
      var front := s[..|s| - 1];
      TrimEndSpec(front);
      var r := TrimEnd(s);
      forall k | |r| <= k < |s| ensures IsSpace(s[k]) {
        assert k < |front| ==> IsSpace(front[k]);
      }
    }
  }

  function Trim(s: string): string { TrimEnd(TrimStart(s)) }

  lemma TrimFixed(s: string)
    requires s != "" ==> !IsSpace(s[0]) && !IsSpace(s[|s| - 1])
    ensures Trim(s) == s
  {
  }

  lemma {:induction false} TrimStartPasses(a: string, b: string)
    requires forall c :: c in a ==> IsSpace(c)
    ensures TrimStart(a + b) == TrimStart(b)
    decreases |a|
  {
    hide IsSpace;
    if a == "" {
      assert a + b == b;
    } else {
      assert a[0] in a && (a + b)[1..] == a[1..] + b;
      TrimStartPasses(a[1..], b);
    }
  }

  lemma {:induction false} TrimEndPasses(a: string, b: string)
    requires forall c :: c in b ==> IsSpace(c)
    ensures TrimEnd(a + b) == TrimEnd(a)
    decreases |b|
  {
    hide IsSpace;
    if b == "" {
      assert a + b == a;
    } else {
      var last := |b| - 1;
      assert b[last] in b && (a + b)[..|a + b| - 1] == a + b[..last];
      TrimEndPasses(a, b[..last]);
    }
  }

  // White space around a text is trimmed off.
  lemma TrimAround(before: string, s: string, after: string)
    requires (forall c :: c in before ==> IsSpace(c)) && forall c :: c in after ==> IsSpace(c)
    requires s != "" && !IsSpace(s[0]) && !IsSpace(s[|s| - 1])
    ensures Trim(before + s + after) == s
  {
    hide IsSpace;
    assert before + s + after == before + (s + after);
    TrimStartPasses(before, s + after);
    assert (s + after)[0] == s[0];
    TrimEndPasses(s, after);
  }

  lemma TrimSpace(s: string)
    requires forall c :: c in s ==> IsSpace(c)
    ensures Trim(s) == ""
  {
    TrimStartPasses(s, "");
    assert s + "" == s;
  }

  // ----- dotted paths

  // `split(".")`: always at least one part.
  function SplitDots(s: string): (parts: seq<string>)
    ensures parts != []
  {
    if s == "" then [""]
    else
      var rest := SplitDots(s[1..]);
      if s[0] == '.' then [""] + rest else [[s[0]] + rest[0]] + rest[1..]
  }

  function JoinDots(parts: seq<string>): string
    requires parts != []
  {
    if |parts| == 1 then parts[0] else parts[0] + "." + JoinDots(parts[1..])
  }

  lemma {:induction false} SplitJoins(s: string)
    ensures JoinDots(SplitDots(s)) == s
    decreases |s|
  {
    if s == "" {
    } else {
      var rest := SplitDots(s[1..]);
      SplitJoins(s[1..]);
      if s[0] == '.' {
        assert ([""] + rest)[1..] == rest;
        assert "" + "." + s[1..] == s;
      } else {
        var parts := [[s[0]] + rest[0]] + rest[1..];
        assert parts[1..] == rest[1..];
        if |rest| > 1 {
          assert [s[0]] + rest[0] + "." + JoinDots(rest[1..]) == [s[0]] + (rest[0] + "." + JoinDots(rest[1..]));
        }
        assert s == [s[0]] + s[1..];
      }
    }
  }

  lemma {:induction false} JoinSplits(parts: seq<string>)
    requires parts != [] && forall p :: p in parts ==> '.' !in p
    ensures SplitDots(JoinDots(parts)) == parts
    decreases |parts|
  {
    if |parts| == 1 {
      SplitWithoutDot(parts[0], "");
      assert parts[0] + "" == parts[0] && parts == [parts[0]];
    } else {
      JoinSplits(parts[1..]);
      SplitWithoutDot(parts[0], "." + JoinDots(parts[1..]));
      assert ("." + JoinDots(parts[1..]))[1..] == JoinDots(parts[1..]);
      assert JoinDots(parts) == parts[0] + ("." + JoinDots(parts[1..]));
      var tail := SplitDots("." + JoinDots(parts[1..]));
      assert tail == [""] + parts[1..] && tail[1..] == parts[1..];
      assert parts[0] + "" == parts[0] && parts == [parts[0]] + parts[1..];
    }
  }

  lemma {:induction false} SplitPartsNoDots(s: string)
    ensures forall p :: p in SplitDots(s) ==> '.' !in p
    decreases |s|
  {
    if s == "" {
    } else {
      SplitPartsNoDots(s[1..]);
    }
  }

  lemma {:induction false} SplitCounts(a: string, b: string)
    ensures |SplitDots(a + "." + b)| == |SplitDots(a)| + |SplitDots(b)|
    decreases |a|
  {
    if a == "" {
      assert a + "." + b == "." + b && ("." + b)[1..] == b;
    } else {
      assert (a + "." + b)[1..] == a[1..] + "." + b;
      SplitCounts(a[1..], b);
    }
  }

  // A dot-free start belongs to the first part.
  lemma {:induction false} SplitWithoutDot(a: string, rest: string)
    requires '.' !in a
    ensures var parts := SplitDots(rest); SplitDots(a + rest) == [a + parts[0]] + parts[1..]
    decreases |a|
  {
    if a == "" {
      var parts := SplitDots(rest);
      assert a + rest == rest && a + parts[0] == parts[0] && parts == [parts[0]] + parts[1..];
    } else {
      SplitWithoutDot(a[1..], rest);
      assert (a + rest)[1..] == a[1..] + rest;
      assert a == [a[0]] + a[1..] && a[0] in a;
      var parts := SplitDots(rest);
      var shorter := [a[1..] + parts[0]] + parts[1..];
      assert shorter[0] == a[1..] + parts[0] && shorter[1..] == parts[1..];
      assert [a[0]] + (a[1..] + parts[0]) == a + parts[0];
    }
  }

  // ----- the order of code units, as `<` compares strings

  predicate TextLe(a: string, b: string)
    decreases |a|
  {
    if a == "" then true
    else if b == "" then false
    else if a[0] != b[0] then a[0] < b[0]
    else TextLe(a[1..], b[1..])
  }

  // The texts agree before `k`, where the first ends or has the smaller code unit.
  ghost predicate LessAt(a: string, b: string, k: nat) {
    k <= |a| && k <= |b| && a[..k] == b[..k] && (k == |a| || (k < |b| && a[k] < b[k]))
  }

  lemma {:induction false} TextLeIff(a: string, b: string)
    ensures TextLe(a, b) <==> exists k: nat :: LessAt(a, b, k)
    decreases |a|
  {
    if a == "" {
      assert LessAt(a, b, 0);
    } else if b == "" {
    } else if a[0] != b[0] {
      assert a[0] < b[0] ==> LessAt(a, b, 0);
      if k: nat :| LessAt(a, b, k) {
        LessAtFirst(a, b, k);
      }
    } else {
      TextLeIff(a[1..], b[1..]);
      if k: nat :| LessAt(a[1..], b[1..], k) {
        LessBehind(a, b, k);
      }
      if k: nat :| LessAt(a, b, k) {
        LessInTail(a, b, k);
      }
    }
  }

  lemma LessAtFirst(a: string, b: string, k: nat)
    requires a != "" && b != "" && LessAt(a, b, k)
    ensures k == 0 || a[0] == b[0]
  {
    assert k == 0 || (a[..k][0] == a[0] && b[..k][0] == b[0]);
  }

  lemma LessBehind(a: string, b: string, k: nat)
    requires a != "" && b != "" && a[0] == b[0] && LessAt(a[1..], b[1..], k)
    ensures LessAt(a, b, k + 1)
  {
    assert a[..k + 1] == [a[0]] + a[1..][..k];
    assert b[..k + 1] == [b[0]] + b[1..][..k];
  }

  lemma LessInTail(a: string, b: string, k: nat)
    requires a != "" && b != "" && a[0] == b[0] && LessAt(a, b, k)
    ensures k > 0 && LessAt(a[1..], b[1..], k - 1)
  {
    assert a[1..][..k - 1] == a[..k][1..];
    assert b[1..][..k - 1] == b[..k][1..];
  }

  lemma {:induction false} TextLeTotal(a: string, b: string)
    ensures TextLe(a, b) || TextLe(b, a)
    decreases |a|
  {
    if a != "" && b != "" && a[0] == b[0] {
      TextLeTotal(a[1..], b[1..]);
    }
  }

  lemma {:induction false} TextLeAntisymmetric(a: string, b: string)
    requires TextLe(a, b) && TextLe(b, a)
    ensures a == b
    decreases |a|
  {
    if a == "" {
    } else {
      TextLeAntisymmetric(a[1..], b[1..]);
      assert a == [a[0]] + a[1..] && b == [b[0]] + b[1..];
    }
  }

  lemma {:induction false} TextLeTransitive(a: string, b: string, c: string)
    requires TextLe(a, b) && TextLe(b, c)
    ensures TextLe(a, c)
    decreases |a|
  {
    if a != "" && a[0] == b[0] == c[0] {
      TextLeTransitive(a[1..], b[1..], c[1..]);
    }
  }
}
