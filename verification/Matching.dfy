/** Maximum bipartite matching of elements to matchers, as used by UnorderedElementsAre. */
module Matching {

  /** Connectivity of elements (left) and matchers (right), one row for each element. */
  datatype Matrix = Matrix(rhsSize: nat, rows: seq<seq<bool>>) {
    function LhsSize(): nat { |rows| }

    predicate HasEdge(l: int, r: int) {
      0 <= l < |rows| && 0 <= r < |rows[l]| && rows[l][r]
    }
  }

  type MatchMatrix = g: Matrix | forall l :: 0 <= l < |g.rows| ==> |g.rows[l]| == g.rhsSize
    witness Matrix(0, [])

  type Pairs = seq<(int, int)>

  const UNUSED := -1

  // ----- what a matching is -----

  /** Edges of the graph, no element and no matcher used twice. */
  ghost predicate IsMatching(g: MatchMatrix, m: Pairs) {
    && (forall i :: 0 <= i < |m| ==> g.HasEdge(m[i].0, m[i].1))
    && (forall i, j :: 0 <= i < j < |m| ==> m[i].0 != m[j].0 && m[i].1 != m[j].1)
  }

  ghost predicate IsMaximumMatching(g: MatchMatrix, m: Pairs) {
    IsMatching(g, m) && forall other: Pairs :: IsMatching(g, other) ==> |other| <= |m|
  }

  // ----- the state of the search, on values -----

  /** `left` and `right` are mutually referent along edges, except that right node `stale`
      may still name a left node that has moved on. */
  ghost predicate Consistent(g: MatchMatrix, left: seq<int>, right: seq<int>, stale: int) {
    && |left| == g.LhsSize() && |right| == g.rhsSize
    && (forall l :: 0 <= l < |left| && left[l] != UNUSED ==> g.HasEdge(l, left[l]) && right[left[l]] == l)
    && (forall r :: 0 <= r < |right| && right[r] != UNUSED ==> 0 <= right[r] < |left|)
    && (forall r :: 0 <= r < |right| && right[r] != UNUSED && r != stale ==> left[right[r]] == r)
  }

  /** All neighbours of `l` are in `s`. */
  ghost predicate Within(g: MatchMatrix, l: int, s: set<int>) {
    forall r :: g.HasEdge(l, r) ==> r in s
  }

  /** Right nodes from which no free right node can be reached: each is matched, and the
      neighbours of its partner are again in the set. */
  ghost predicate DeadEnd(g: MatchMatrix, right: seq<int>, dead: set<int>) {
    forall r :: r in dead ==> 0 <= r < |right| && right[r] != UNUSED && Within(g, right[r], dead)
  }

  ghost function Seen(seen: seq<bool>): set<int> {
    set r | 0 <= r < |seen| && seen[r]
  }

  ghost function Unseen(seen: seq<bool>): set<int> {
    set r | 0 <= r < |seen| && !seen[r]
  }

  ghost function Used(left: seq<int>): set<int> {
    set l | 0 <= l < |left| && left[l] != UNUSED
  }

  /** What one search may change: `ilhs` gains a partner, every other left node keeps its
      status, and nothing moves on right nodes that were seen before or are dead ends. */
  ghost predicate Augmented(left0: seq<int>, right0: seq<int>, seen0: seq<bool>, dead: set<int>, ilhs: int,
                            left: seq<int>, right: seq<int>)
  {
    && |left| == |left0| && |right| == |right0| == |seen0| && 0 <= ilhs < |left|
    && 0 <= left[ilhs] < |seen0| && !seen0[left[ilhs]] && left[ilhs] !in dead
    && (forall l :: 0 <= l < |left| && l != ilhs ==> (left[l] == UNUSED <==> left0[l] == UNUSED))
    && (forall l :: 0 <= l < |left| && l != ilhs && 0 <= left0[l] < |seen0| && seen0[left0[l]] ==> left[l] == left0[l])
    && (forall r :: 0 <= r < |right| && (seen0[r] || r in dead) ==> right[r] == right0[r])
  }

  /** What a failed search has shown: it ran out of the right nodes it saw, all matched. */
  ghost predicate Exhausted(g: MatchMatrix, right: seq<int>, seen0: seq<bool>, seen: seq<bool>) {
    && |seen| == |seen0| == |right|
    && forall r :: 0 <= r < |right| && seen[r] && !seen0[r] ==> right[r] != UNUSED && Within(g, right[r], Seen(seen))
  }

  // ----- one step of the search -----

  /** Linking `ilhs` to an available right node: either a free one, or one whose partner
      `right0[irhs]` has just been moved elsewhere. */
  lemma LinkConsistent(g: MatchMatrix, left0: seq<int>, right0: seq<int>, seen0: seq<bool>, seen1: seq<bool>,
                       dead: set<int>,
                       ilhs: int, irhs: int, left1: seq<int>, right1: seq<int>)
    requires Consistent(g, left0, right0, UNUSED)
    requires g.HasEdge(ilhs, irhs)
    requires |seen0| == |seen1| == |right0| && !seen0[irhs] && seen1[irhs] && irhs !in dead
    requires forall r :: 0 <= r < |seen0| && seen0[r] ==> seen1[r]
    requires left0[ilhs] != UNUSED ==> seen0[left0[ilhs]]
    requires if right0[irhs] == UNUSED then left1 == left0 && right1 == right0
      else Consistent(g, left1, right1, irhs) && Augmented(left0, right0, seen1, dead, right0[irhs], left1, right1)
    ensures Consistent(g, left1[ilhs := irhs], right1[irhs := ilhs], left0[ilhs])
    ensures Augmented(left0, right0, seen0, dead, ilhs, left1[ilhs := irhs], right1[irhs := ilhs])
  {
  }

  /** The partner of `irhs` got stuck as well, so `irhs` joins the exhausted nodes. */
  lemma ExhaustedStep(g: MatchMatrix, right: seq<int>, seen0: seq<bool>, seen1: seq<bool>, irhs: int, seen2: seq<bool>)
    requires Exhausted(g, right, seen0, seen1)
    requires 0 <= irhs < |seen1| && right[irhs] != UNUSED
    requires Exhausted(g, right, seen1[irhs := true], seen2)
    requires Within(g, right[irhs], Seen(seen2))
    requires forall r :: 0 <= r < |seen1| && seen1[r] ==> seen2[r]
    ensures Exhausted(g, right, seen0, seen2)
  {
  }

  /** Left nodes below `n` have been tried: those without a partner lead only to dead ends. */
  ghost predicate Tried(g: MatchMatrix, left: seq<int>, right: seq<int>, dead: set<int>, n: int) {
    && 0 <= n <= |left|
    && Consistent(g, left, right, UNUSED)
    && DeadEnd(g, right, dead)
    && (forall l :: 0 <= l < n && left[l] == UNUSED ==> Within(g, l, dead))
    && (forall l :: n <= l < |left| ==> left[l] == UNUSED)
  }

  /** A successful search leaves the dead ends alone, so no earlier node need be tried again. */
  lemma TriedAfterSuccess(g: MatchMatrix, left0: seq<int>, right0: seq<int>, seen0: seq<bool>, dead: set<int>,
                          n: int, left: seq<int>, right: seq<int>)
    requires Tried(g, left0, right0, dead, n) && n < |left0|
    requires Consistent(g, left, right, UNUSED)
    requires Augmented(left0, right0, seen0, dead, n, left, right)
    ensures Tried(g, left, right, dead, n + 1)
  {
  }

  lemma TriedAfterFailure(g: MatchMatrix, left: seq<int>, right: seq<int>, seen0: seq<bool>, seen: seq<bool>,
                          dead: set<int>, n: int)
    requires Tried(g, left, right, dead, n) && n < |left|
    requires forall r :: 0 <= r < |seen0| ==> !seen0[r]
    requires Exhausted(g, right, seen0, seen) && Within(g, n, Seen(seen))
    ensures Tried(g, left, right, dead + Seen(seen), n + 1)
  {
  }

  // ----- maximality -----

  lemma DistinctInSet(s: seq<int>, u: set<int>)
    requires forall i :: 0 <= i < |s| ==> s[i] in u
    requires forall i, j :: 0 <= i < j < |s| ==> s[i] != s[j]
    ensures |s| <= |u|
    decreases |s|
  {
    if s != [] {
      var n := |s| - 1;
      DistinctInSet(s[..n], u - {s[n]});
    }
  }

  /** The used left node that pays for pair `p` of another matching. */
  ghost function Charge(right: seq<int>, dead: set<int>, p: (int, int)): int {
    if p.1 in dead && 0 <= p.1 < |right| then right[p.1] else p.0
  }

  /** The dead ends cover every edge that leaves an unmatched left node or the partner of a
      dead end, so any matching can be charged injectively to used left nodes. */
  lemma NoLargerMatching(g: MatchMatrix, left: seq<int>, right: seq<int>, dead: set<int>, m: Pairs)
    requires Tried(g, left, right, dead, |left|)
    requires IsMatching(g, m)
    ensures |m| <= |Used(left)|
  {
    var charges := seq(|m|, i requires 0 <= i < |m| => Charge(right, dead, m[i]));
    forall i | 0 <= i < |m|
      ensures charges[i] in Used(left)
      ensures m[i].1 in dead <==> left[charges[i]] in dead
    {
      assert g.HasEdge(m[i].0, m[i].1);
    }
    DistinctInSet(charges, Used(left));
  }

  /** The edges in use among the first `n` left nodes. */
  ghost function UsedPairs(left: seq<int>, n: nat): Pairs
    requires n <= |left|
  {
    if n == 0 then []
    else if left[n - 1] == UNUSED then UsedPairs(left, n - 1)
    else UsedPairs(left, n - 1) + [(n - 1, left[n - 1])]
  }

  lemma {:induction false} UsedPairsOrdered(left: seq<int>, n: nat)
    requires n <= |left|
    ensures var m := UsedPairs(left, n);
      && |m| == |Used(left[..n])|
      && (forall i :: 0 <= i < |m| ==> 0 <= m[i].0 < n && left[m[i].0] == m[i].1 != UNUSED)
      && (forall i, j :: 0 <= i < j < |m| ==> m[i].0 < m[j].0)
  {
    if n != 0 {
      UsedPairsOrdered(left, n - 1);
      if left[n - 1] == UNUSED {
        assert Used(left[..n]) == Used(left[..n - 1]);
      } else {
        assert Used(left[..n]) == Used(left[..n - 1]) + {n - 1};
      }
    }
  }

  lemma MaximumWhenTried(g: MatchMatrix, left: seq<int>, right: seq<int>, dead: set<int>)
    requires Tried(g, left, right, dead, |left|)
    ensures IsMaximumMatching(g, UsedPairs(left, |left|))
  {
    var m := UsedPairs(left, |left|);
    UsedPairsOrdered(left, |left|);
    assert left[..|left|] == left;
    forall other: Pairs | IsMatching(g, other)
      ensures |other| <= |m|
    {
      NoLargerMatching(g, left, right, dead, other);
    }
  }

  // ----- the algorithm -----

  class MaxBipartiteMatchState {
    const graph: MatchMatrix
    const left: array<int>
    const right: array<int>

    constructor (g: MatchMatrix)
      ensures graph == g && fresh(left) && fresh(right) && left != right
      ensures left.Length == g.LhsSize() && right.Length == g.rhsSize
      ensures forall l :: 0 <= l < left.Length ==> left[l] == UNUSED
      ensures forall r :: 0 <= r < right.Length ==> right[r] == UNUSED
    {
      graph := g;
      left := new int[g.LhsSize()](_ => UNUSED);
      right := new int[g.rhsSize](_ => UNUSED);
    }

    /** Depth-first search from `ilhs` for a free right node. `dead` only appears in the
        specification: dead ends found by earlier searches. */
    method TryAugment(ilhs: int, seen: array<bool>, ghost dead: set<int>) returns (found: bool)
      requires left != right && seen.Length == right.Length
      requires Consistent(graph, left[..], right[..], UNUSED)
      requires 0 <= ilhs < left.Length
      requires left[ilhs] != UNUSED ==> seen[left[ilhs]]
      requires DeadEnd(graph, right[..], dead)
      modifies left, right, seen
      ensures forall r :: 0 <= r < seen.Length && old(seen[r]) ==> seen[r]
      ensures found ==> Consistent(graph, left[..], right[..], old(left[ilhs]))
      ensures found ==> Augmented(old(left[..]), old(right[..]), old(seen[..]), dead, ilhs, left[..], right[..])
      ensures !found ==> left[..] == old(left[..]) && right[..] == old(right[..])
      ensures !found ==> Exhausted(graph, right[..], old(seen[..]), seen[..]) && Within(graph, ilhs, Seen(seen[..]))
      ensures Within(graph, ilhs, dead) ==> !found
      decreases Unseen(seen[..])
    {
      ghost var left0, right0, seen0 := left[..], right[..], seen[..];
      for irhs := 0 to right.Length
        invariant left[..] == left0 && right[..] == right0
        invariant forall r :: 0 <= r < seen.Length && seen0[r] ==> seen[r]
        invariant Exhausted(graph, right[..], seen0, seen[..])
        invariant forall r :: 0 <= r < irhs && graph.HasEdge(ilhs, r) ==> seen[r]
      {
        if seen[irhs] { continue; }
        if !graph.HasEdge(ilhs, irhs) { continue; }
        ghost var seen1 := seen[..];
        seen[irhs] := true;
        ghost var seen2 := seen[..];
        var available := right[irhs] == UNUSED;
        if !available {
          assert irhs in Unseen(seen0) && irhs !in Unseen(seen2);
          available := TryAugment(right[irhs], seen, dead);
        }
        if available {
          LinkConsistent(graph, left0, right0, seen0, seen2, dead, ilhs, irhs, left[..], right[..]);
          left[ilhs] := irhs;
          right[irhs] := ilhs;
          return true;
        }
        ExhaustedStep(graph, right[..], seen0, seen1, irhs, seen[..]);
      }
      return false;
    }

    /** Pairs of a matching with the most edges, by increasing left node. */
    method Compute() returns (result: Pairs)
      requires left != right && left.Length == graph.LhsSize() && right.Length == graph.rhsSize
      requires forall l :: 0 <= l < left.Length ==> left[l] == UNUSED
      requires forall r :: 0 <= r < right.Length ==> right[r] == UNUSED
      modifies left, right
      ensures IsMaximumMatching(graph, result)
      ensures forall i, j :: 0 <= i < j < |result| ==> result[i].0 < result[j].0
    {
      ghost var dead: set<int> := {};
      for ilhs := 0 to left.Length
        invariant Tried(graph, left[..], right[..], dead, ilhs)
      {
        assert left[ilhs] == UNUSED;  // so the check in Compute never fires
        ghost var left0, right0 := left[..], right[..];
        var seen := new bool[right.Length](_ => false);
        ghost var seen0 := seen[..];
        var found := TryAugment(ilhs, seen, dead);
        if found {
          TriedAfterSuccess(graph, left0, right0, seen0, dead, ilhs, left[..], right[..]);
        } else {
          TriedAfterFailure(graph, left[..], right[..], seen0, seen[..], dead, ilhs);
          dead := dead + Seen(seen[..]);
        }
      }
      result := [];
      for ilhs := 0 to left.Length
        invariant result == UsedPairs(left[..], ilhs)
      {
        var irhs := left[ilhs];
        if irhs == UNUSED { continue; }
        result := result + [(ilhs, irhs)];
      }
      UsedPairsOrdered(left[..], left.Length);
      MaximumWhenTried(graph, left[..], right[..], dead);
    }
  }

  method FindMaxBipartiteMatching(g: MatchMatrix) returns (pairs: Pairs)
    ensures IsMaximumMatching(g, pairs)
  {
    var state := new MaxBipartiteMatchState(g);
    pairs := state.Compute();
  }

  // ----- UnorderedElementsAre -----

  /** The match flags: Superset demands a partner for every matcher, Subset one for every
      element, ExactMatch both. */
  datatype Require = Require(superset: bool, subset: bool)

  ghost function Elements(m: Pairs): seq<int> { seq(|m|, i requires 0 <= i < |m| => m[i].0) }

  ghost function Matchers(m: Pairs): seq<int> { seq(|m|, i requires 0 <= i < |m| => m[i].1) }

  ghost predicate Saturates(g: MatchMatrix, flags: Require, m: Pairs) {
    && (flags.superset ==> forall r :: 0 <= r < g.rhsSize ==> r in Matchers(m))
    && (flags.subset ==> forall l :: 0 <= l < g.LhsSize() ==> l in Elements(m))
  }

  /** The success criterion: one matching saturates every side that the flags demand. */
  ghost predicate Pairable(g: MatchMatrix, flags: Require) {
    exists m: Pairs :: IsMatching(g, m) && Saturates(g, flags, m)
  }

  ghost predicate ElementHasEdge(g: MatchMatrix, l: int, below: nat) {
    exists r :: r < below && g.HasEdge(l, r)
  }

  ghost predicate MatcherHasEdge(g: MatchMatrix, r: int, below: nat) {
    exists l :: l < below && g.HasEdge(l, r)
  }

  ghost predicate EveryoneHasAnEdge(g: MatchMatrix, flags: Require) {
    && (flags.superset ==> forall r :: 0 <= r < g.rhsSize ==> MatcherHasEdge(g, r, g.LhsSize()))
    && (flags.subset ==> forall l :: 0 <= l < g.LhsSize() ==> ElementHasEdge(g, l, g.rhsSize))
  }

  method VerifyMatchMatrix(g: MatchMatrix, flags: Require) returns (result: bool)
    ensures result <==> EveryoneHasAnEdge(g, flags)
  {
    result := true;
    var elementMatched := new bool[g.LhsSize()](_ => false);
    var matcherMatched := new bool[g.rhsSize](_ => false);
    for ilhs := 0 to g.LhsSize()
      invariant forall l :: 0 <= l < g.LhsSize() ==>
        (elementMatched[l] <==> l < ilhs && ElementHasEdge(g, l, g.rhsSize))
      invariant forall r :: 0 <= r < g.rhsSize ==> (matcherMatched[r] <==> MatcherHasEdge(g, r, ilhs))
    {
      for irhs := 0 to g.rhsSize
        invariant forall l :: 0 <= l < g.LhsSize() && l != ilhs ==>
          (elementMatched[l] <==> l < ilhs && ElementHasEdge(g, l, g.rhsSize))
        invariant elementMatched[ilhs] <==> ElementHasEdge(g, ilhs, irhs)
        invariant forall r :: 0 <= r < g.rhsSize ==>
          (matcherMatched[r] <==> MatcherHasEdge(g, r, if r < irhs then ilhs + 1 else ilhs))
      {
        var matched := g.HasEdge(ilhs, irhs);
        elementMatched[ilhs] := elementMatched[ilhs] || matched;
        matcherMatched[irhs] := matcherMatched[irhs] || matched;
      }
    }
    if flags.superset {
      for mi := 0 to g.rhsSize
        invariant result <==> forall r :: 0 <= r < mi ==> matcherMatched[r]
      {
        if matcherMatched[mi] { continue; }
        result := false;
      }
    }
    if flags.subset {
      ghost var supersetOk := result;
      for ei := 0 to g.LhsSize()
        invariant result <==> supersetOk && forall l :: 0 <= l < ei ==> elementMatched[l]
      {
        if elementMatched[ei] { continue; }
        result := false;
      }
    }
  }

  ghost function Range(n: nat): (s: set<int>)
    ensures |s| == n
    ensures forall v :: v in s <==> 0 <= v < n
  {
    if n == 0 then {} else Range(n - 1) + {n - 1}
  }

  lemma {:induction false} DistinctCardinality(s: seq<int>)
    requires forall i, j :: 0 <= i < j < |s| ==> s[i] != s[j]
    ensures |set v | v in s| == |s|
  {
    if s != [] {
      var n := |s| - 1;
      DistinctCardinality(s[..n]);
      assert (set v | v in s) == (set v | v in s[..n]) + {s[n]};
    }
  }

  /** Distinct values below `n` cover everything below `n` exactly when there are `n` of them. */
  lemma CoversIffLong(s: seq<int>, n: nat)
    requires forall i, j :: 0 <= i < j < |s| ==> s[i] != s[j]
    requires forall i :: 0 <= i < |s| ==> 0 <= s[i] < n
    ensures (forall v :: 0 <= v < n ==> v in s) <==> |s| >= n
  {
    var values := set v | v in s;
    DistinctCardinality(s);
    assert values <= Range(n);
    assert |Range(n) - values| == n - |s|;
    if |s| >= n {
      assert Range(n) - values == {};
      forall v | 0 <= v < n ensures v in s {
        assert v in Range(n);
        assert v !in Range(n) - values;
      }
    }
    assert (forall v :: 0 <= v < n ==> v in s) ==> Range(n) - values == {};
  }

  /** A matching saturates a side exactly when it has as many pairs as that side has nodes. */
  lemma SaturatesIffLong(g: MatchMatrix, flags: Require, m: Pairs)
    requires IsMatching(g, m)
    ensures Saturates(g, flags, m) <==>
      (flags.superset ==> |m| >= g.rhsSize) && (flags.subset ==> |m| >= g.LhsSize())
  {
    assert forall i :: 0 <= i < |m| ==> g.HasEdge(m[i].0, m[i].1);
    CoversIffLong(Elements(m), g.LhsSize());
    CoversIffLong(Matchers(m), g.rhsSize);
  }

  method FindPairing(g: MatchMatrix, flags: Require) returns (ok: bool)
    ensures ok <==> Pairable(g, flags)
  {
    var matches := FindMaxBipartiteMatching(g);
    forall m: Pairs | IsMatching(g, m)
      ensures Saturates(g, flags, m) ==>
        (flags.superset ==> |matches| >= g.rhsSize) && (flags.subset ==> |matches| >= g.LhsSize())
    {
      SaturatesIffLong(g, flags, m);
    }
    if flags.superset && |matches| < g.rhsSize {
      return false;
    }
    if flags.subset && |matches| < g.LhsSize() {
      return false;
    }
    SaturatesIffLong(g, flags, matches);
    return true;
  }

  /** Checking the edges first never rejects a graph that a pairing would accept. */
  lemma PairableHasEdges(g: MatchMatrix, flags: Require)
    requires Pairable(g, flags)
    ensures EveryoneHasAnEdge(g, flags)
  {
    var m: Pairs :| IsMatching(g, m) && Saturates(g, flags, m);
    if flags.superset {
      forall r | 0 <= r < g.rhsSize ensures MatcherHasEdge(g, r, g.LhsSize()) {
        var i := IndexOf(Matchers(m), r);
        assert m[i].1 == r;
        assert g.HasEdge(m[i].0, r);
      }
    }
    if flags.subset {
      forall l | 0 <= l < g.LhsSize() ensures ElementHasEdge(g, l, g.rhsSize) {
        var i := IndexOf(Elements(m), l);
        assert m[i].0 == l;
        assert g.HasEdge(l, m[i].1);
      }
    }
  }

  const EXACT_MATCH := Require(true, true)

  lemma NothingToPair(g: MatchMatrix, flags: Require)
    requires g.LhsSize() == 0 && g.rhsSize == 0
    ensures Pairable(g, flags)
  {
    assert IsMatching(g, []) && Saturates(g, flags, []);
  }

  /** The whole verdict: compare the sizes if it matters, check the edges, then look for a pairing. */
  method MatchAndExplain(g: MatchMatrix, flags: Require) returns (ok: bool)
    ensures ok <==> Pairable(g, flags)
  {
    if g.LhsSize() == 0 && g.rhsSize == 0 {
      NothingToPair(g, flags);
      return true;
    }
    if flags == EXACT_MATCH {
      ExactMatchIsPermutation(g);
      if g.LhsSize() != g.rhsSize {
        return false;
      }
    }
    if Pairable(g, flags) { PairableHasEdges(g, flags); }
    ok := VerifyMatchMatrix(g, flags);
    if ok {
      ok := FindPairing(g, flags);
    }
  }

  ghost predicate IsPermutation(p: seq<int>) {
    && (forall i :: 0 <= i < |p| ==> 0 <= p[i] < |p|)
    && (forall i, j :: 0 <= i < j < |p| ==> p[i] != p[j])
  }

  ghost predicate IsExactPairing(g: MatchMatrix, p: seq<int>) {
    |p| == g.rhsSize && IsPermutation(p) && forall l :: 0 <= l < |p| ==> g.HasEdge(l, p[l])
  }

  /** Under ExactMatch a pairing is a permutation that sends each element to one of its matchers. */
  lemma ExactMatchIsPermutation(g: MatchMatrix)
    ensures Pairable(g, EXACT_MATCH) <==>
      g.LhsSize() == g.rhsSize && exists p: seq<int> :: IsExactPairing(g, p)
  {
    if Pairable(g, EXACT_MATCH) { PairingToPermutation(g); }
    if p: seq<int> :| g.LhsSize() == g.rhsSize && IsExactPairing(g, p) {
      var m: Pairs := seq(|p|, l requires 0 <= l < |p| => (l, p[l]));
      assert IsMatching(g, m);
      SaturatesIffLong(g, EXACT_MATCH, m);
    }
  }

  lemma PairingToPermutation(g: MatchMatrix)
    requires Pairable(g, EXACT_MATCH)
    ensures g.LhsSize() == g.rhsSize && exists p: seq<int> :: IsExactPairing(g, p)
  {
    var m: Pairs :| IsMatching(g, m) && Saturates(g, EXACT_MATCH, m);
    SaturatesIffLong(g, EXACT_MATCH, m);
    MatchingFitsBothSides(g, m);
    var p := seq(g.LhsSize(), l requires 0 <= l < g.LhsSize() => m[IndexOf(Elements(m), l)].1);
    forall l | 0 <= l < |p| ensures g.HasEdge(l, p[l]) {
      var i := IndexOf(Elements(m), l);
      assert m[i].0 == l;
    }
    forall j, k | 0 <= j < k < |p| ensures p[j] != p[k] {
      var i, i' := IndexOf(Elements(m), j), IndexOf(Elements(m), k);
      assert m[i].0 == j && m[i'].0 == k;
    }
    assert IsExactPairing(g, p);
  }

  ghost function IndexOf(s: seq<int>, v: int): (i: int)
    requires v in s
    ensures 0 <= i < |s| && s[i] == v
  {
    var i :| 0 <= i < |s| && s[i] == v;
    i
  }

  lemma MatchingFitsBothSides(g: MatchMatrix, m: Pairs)
    requires IsMatching(g, m)
    ensures |m| <= g.LhsSize() && |m| <= g.rhsSize
  {
    assert forall i :: 0 <= i < |m| ==> g.HasEdge(m[i].0, m[i].1);
    DistinctInSet(Elements(m), Range(g.LhsSize()));
    DistinctInSet(Matchers(m), Range(g.rhsSize));
  }
}
