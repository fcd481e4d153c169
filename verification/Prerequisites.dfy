/** Prerequisite graphs between mock expectations: `g[a]` holds the immediate prerequisites of `a`. */
module Prerequisites {
  import opened Wrappers

  // ----- reachability -----

  ghost predicate IsGraph<T>(g: map<T, set<T>>) {
    forall a :: a in g ==> g[a] <= g.Keys
  }

  /** A chain of `n` prerequisite steps leads from `a` to `b`. */
  ghost predicate Chain<T>(g: map<T, set<T>>, a: T, b: T, n: nat)
    requires IsGraph(g) && a in g
    decreases n
  {
    if n == 0 then a == b else exists c :: c in g[a] && Chain(g, c, b, n - 1)
  }

  ghost predicate Reaches<T>(g: map<T, set<T>>, a: T, b: T)
    requires IsGraph(g) && a in g
  {
    exists n: nat :: n > 0 && Chain(g, a, b, n)
  }

  /** The prerequisites of `a`, theirs, and so on. */
  ghost function Transitive<T>(g: map<T, set<T>>, a: T): (t: set<T>)
    requires IsGraph(g) && a in g
    ensures t <= g.Keys
  {
    set b | b in g.Keys && Reaches(g, a, b)
  }

  ghost predicate Acyclic<T>(g: map<T, set<T>>)
    requires IsGraph(g)
  {
    forall a :: a in g ==> a !in Transitive(g, a)
  }

  ghost predicate ClosedUnder<T>(g: map<T, set<T>>, s: set<T>) {
    forall a :: a in g && a in s ==> g[a] <= s
  }

  lemma {:induction false} ChainExtends<T>(g: map<T, set<T>>, a: T, b: T, c: T, n: nat)
    requires IsGraph(g) && a in g && b in g && c in g[b] && Chain(g, a, b, n)
    ensures Chain(g, a, c, n + 1)
    decreases n
  {
    if n == 0 {
      assert Chain(g, c, c, 0);
    } else {
      var d :| d in g[a] && Chain(g, d, b, n - 1);
      ChainExtends(g, d, b, c, n - 1);
    }
  }

  lemma {:induction false} ChainStaysInside<T>(g: map<T, set<T>>, s: set<T>, a: T, b: T, n: nat)
    requires IsGraph(g) && ClosedUnder(g, s) && a in g && a in s && Chain(g, a, b, n)
    ensures b in s
    decreases n
  {
    if n > 0 {
      var c :| c in g[a] && Chain(g, c, b, n - 1);
      ChainStaysInside(g, s, c, b, n - 1);
    }
  }

  /** The transitive prerequisites are the least closed set around the immediate ones. */
  lemma TransitiveIsLeast<T>(g: map<T, set<T>>, a: T, s: set<T>)
    requires IsGraph(g) && a in g && ClosedUnder(g, s) && g[a] <= s
    ensures Transitive(g, a) <= s
  {
    forall b | b in Transitive(g, a)
      ensures b in s
    {
      var n: nat :| n > 0 && Chain(g, a, b, n);
      var c :| c in g[a] && Chain(g, c, b, n - 1);
      ChainStaysInside(g, s, c, b, n - 1);
    }
  }

  lemma TransitiveIsClosed<T>(g: map<T, set<T>>, a: T)
    requires IsGraph(g) && a in g
    ensures g[a] <= Transitive(g, a) && ClosedUnder(g, Transitive(g, a))
  {
    forall b | b in g[a]
      ensures b in Transitive(g, a)
    {
      assert Chain(g, b, b, 0);
      assert Chain(g, a, b, 1);
    }
    forall b, c | b in g && b in Transitive(g, a) && c in g[b]
      ensures c in Transitive(g, a)
    {
      var n: nat :| n > 0 && Chain(g, a, b, n);
      ChainExtends(g, a, b, c, n);
    }
  }

  lemma TransitiveOfMember<T>(g: map<T, set<T>>, a: T, b: T)
    requires IsGraph(g) && a in g && (b in g[a] || b in Transitive(g, a))
    ensures b in g && b in Transitive(g, a) && Transitive(g, b) <= Transitive(g, a)
  {
    TransitiveIsClosed(g, a);
    TransitiveIsLeast(g, b, Transitive(g, a));
  }

  lemma TransitiveStep<T>(g: map<T, set<T>>, a: T, b: T)
    requires IsGraph(g) && a in g
    ensures b in Transitive(g, a) <==> b in g[a] || exists c :: c in g[a] && b in Transitive(g, c)
  {
    TransitiveIsClosed(g, a);
    forall c | c in g[a]
      ensures Transitive(g, c) <= Transitive(g, a)
    {
      TransitiveOfMember(g, a, c);
    }
    if b in Transitive(g, a) && b !in g[a] {
      var n: nat :| n > 0 && Chain(g, a, b, n);
      var c :| c in g[a] && Chain(g, c, b, n - 1);
      assert n - 1 > 0;
      assert Reaches(g, c, b);
    }
  }

  // ----- adding a prerequisite -----

  function WithPrerequisite<T(==)>(g: map<T, set<T>>, a: T, p: T): map<T, set<T>>
    requires a in g
  {
    g[a := g[a] + {p}]
  }

  lemma AddKeepsClosedIff<T>(g: map<T, set<T>>, a: T, p: T, s: set<T>)
    requires IsGraph(g) && a in g && p in g && ClosedUnder(g, s)
    ensures ClosedUnder(WithPrerequisite(g, a, p), s) <==> (a in s ==> p in s)
  {
    var h := WithPrerequisite(g, a, p);
    assert p in h[a];
  }

  /** A new prerequisite can be reached from wherever `a` can be, and brings its own along. */
  lemma TransitiveAfterAdd<T>(g: map<T, set<T>>, a: T, p: T, x: T)
    requires IsGraph(g) && a in g && p in g && x in g
    ensures IsGraph(WithPrerequisite(g, a, p))
    ensures Transitive(WithPrerequisite(g, a, p), x) ==
      if x == a || a in Transitive(g, x) then Transitive(g, x) + {p} + Transitive(g, p) else Transitive(g, x)
  {
    var h := WithPrerequisite(g, a, p);
    assert IsGraph(h);
    AtMostAfterAdd(g, a, p, x);
    AtLeastAfterAdd(g, a, p, x);
  }

  lemma AtMostAfterAdd<T>(g: map<T, set<T>>, a: T, p: T, x: T)
    requires IsGraph(g) && a in g && p in g && x in g && IsGraph(WithPrerequisite(g, a, p))
    ensures Transitive(WithPrerequisite(g, a, p), x) <=
      if x == a || a in Transitive(g, x) then Transitive(g, x) + {p} + Transitive(g, p) else Transitive(g, x)
  {
    hide Transitive;
    var h := WithPrerequisite(g, a, p);
    TransitiveIsClosed(g, x);
    TransitiveIsClosed(g, p);
    if x == a || a in Transitive(g, x) {
      TransitiveIsLeast(h, x, Transitive(g, x) + {p} + Transitive(g, p));
    } else {
      TransitiveIsLeast(h, x, Transitive(g, x));
    }
  }

  lemma AtLeastAfterAdd<T>(g: map<T, set<T>>, a: T, p: T, x: T)
    requires IsGraph(g) && a in g && p in g && x in g && IsGraph(WithPrerequisite(g, a, p))
    ensures Transitive(g, x) <= Transitive(WithPrerequisite(g, a, p), x)
    ensures x == a || a in Transitive(g, x) ==> {p} + Transitive(g, p) <= Transitive(WithPrerequisite(g, a, p), x)
  {
    hide Transitive;
    var h := WithPrerequisite(g, a, p);
    TransitiveIsClosed(h, x);
    assert forall y :: y in g ==> g[y] <= h[y];
    TransitiveIsLeast(g, x, Transitive(h, x));
    if x == a || a in Transitive(g, x) {
      assert p in h[a];
      TransitiveIsLeast(g, p, Transitive(h, x));
    }
  }

  lemma AddKeepsAcyclicIff<T>(g: map<T, set<T>>, a: T, p: T)
    requires IsGraph(g) && Acyclic(g) && a in g && p in g
    ensures IsGraph(WithPrerequisite(g, a, p))
    ensures Acyclic(WithPrerequisite(g, a, p)) <==> a != p && a !in Transitive(g, p)
  {
    var h := WithPrerequisite(g, a, p);
    TransitiveAfterAdd(g, a, p, a);
    forall x | x in g && x in Transitive(h, x)
      ensures a == p || a in Transitive(g, p)
    {
      TransitiveAfterAdd(g, a, p, x);
      if x in Transitive(g, p) {
        TransitiveOfMember(g, p, x);
      }
    }
  }

  // ----- setting expectations up -----

  /** `a` is added behind the expectation that was added last to the same sequence, if that is another one. */
  function AfterAdd<T(==)>(g: map<T, set<T>>, last: Option<T>, a: T): map<T, set<T>>
    requires a in g
  {
    if last == None || last == Some(a) then g else WithPrerequisite(g, a, last.value)
  }

  /** Expectations are numbered in the order they are set; the newest one may enter sequences. */
  datatype SetupStep = NewExpectation | EnterSequence(s: nat)

  datatype Setup = Setup(count: nat, g: map<nat, set<nat>>, last: map<nat, nat>)

  function LastOf(u: Setup, s: nat): Option<nat> { if s in u.last then Some(u.last[s]) else None }

  /** Prerequisites come from earlier expectations only. */
  ghost predicate Ordered(u: Setup) {
    && (forall a: nat :: a in u.g <==> a < u.count)
    && (forall a: nat, p: nat :: a in u.g && p in u.g[a] ==> p < a)
    && (forall s: nat :: s in u.last ==> u.last[s] < u.count)
  }

  function AfterStep(u: Setup, step: SetupStep): Setup {
    match step
    case NewExpectation => u.(count := u.count + 1, g := u.g[u.count := {}])
    case EnterSequence(s) =>
      if u.count == 0 || u.count - 1 !in u.g then u
      else u.(g := AfterAdd(u.g, LastOf(u, s), u.count - 1), last := u.last[s := u.count - 1])
  }

  function SetUp(steps: seq<SetupStep>): Setup {
    if steps == [] then Setup(0, map[], map[]) else AfterStep(SetUp(steps[..|steps| - 1]), steps[|steps| - 1])
  }

  lemma StepKeepsOrdered(u: Setup, step: SetupStep)
    requires Ordered(u)
    ensures Ordered(AfterStep(u, step))
  {
  }

  lemma OrderedIsAcyclic(u: Setup)
    requires Ordered(u)
    ensures IsGraph(u.g) && Acyclic(u.g)
  {
    assert IsGraph(u.g);
    forall a | a in u.g
      ensures a !in Transitive(u.g, a)
    {
      TransitiveIsLeast(u.g, a, set p | p in u.g.Keys && p < a);
    }
  }

  /** However expectations enter sequences while they are the newest, the graph stays acyclic. */
  lemma {:induction false} SetUpIsAcyclic(steps: seq<SetupStep>)
    ensures Ordered(SetUp(steps)) && IsGraph(SetUp(steps).g) && Acyclic(SetUp(steps).g)
    decreases |steps|
  {
    if steps != [] {
      SetUpIsAcyclic(steps[..|steps| - 1]);
      StepKeepsOrdered(SetUp(steps[..|steps| - 1]), steps[|steps| - 1]);
    }
    OrderedIsAcyclic(SetUp(steps));
  }

  // ----- what setting up amounts to, read off the steps -----

  function CountOf(steps: seq<SetupStep>): nat {
    if steps == [] then 0
    else CountOf(steps[..|steps| - 1]) + if steps[|steps| - 1] == NewExpectation then 1 else 0
  }

  /** Expectation `a` entered sequence `s`: it was the newest one at such a step. */
  predicate Entered(steps: seq<SetupStep>, s: nat, a: nat) {
    steps != [] &&
    var before := steps[..|steps| - 1];
    (steps[|steps| - 1] == EnterSequence(s) && CountOf(before) == a + 1) || Entered(before, s, a)
  }

  /** `p` is the last expectation before `a` that entered the sequence. */
  ghost predicate EnteredLastBefore(steps: seq<SetupStep>, s: nat, p: nat, a: nat) {
    p < a && Entered(steps, s, p) && forall q: nat :: p < q < a ==> !Entered(steps, s, q)
  }

  ghost predicate Precedes(steps: seq<SetupStep>, p: nat, a: nat) {
    exists s: nat :: Entered(steps, s, a) && EnteredLastBefore(steps, s, p, a)
  }

  /** The graph and the ends of the sequences are what the steps say. */
  ghost predicate Reflects(u: Setup, steps: seq<SetupStep>) {
    && u.count == CountOf(steps) && Ordered(u)
    && (forall s: nat, a: nat :: Entered(steps, s, a) ==> a < u.count && s in u.last && a <= u.last[s])
    && (forall s: nat :: s in u.last ==> Entered(steps, s, u.last[s]))
    && (forall a: nat, p: nat :: a < u.count ==> (p in u.g[a] <==> Precedes(steps, p, a)))
  }

  lemma EnteredMore(steps: seq<SetupStep>, step: SetupStep, s: nat, a: nat)
    ensures CountOf(steps + [step]) == CountOf(steps) + if step == NewExpectation then 1 else 0
    ensures Entered(steps + [step], s, a) <==>
      Entered(steps, s, a) || (step == EnterSequence(s) && CountOf(steps) == a + 1)
  {
    assert (steps + [step])[..|steps|] == steps;
  }

  lemma NewReflects(u: Setup, steps: seq<SetupStep>)
    requires Reflects(u, steps)
    ensures Reflects(AfterStep(u, NewExpectation), steps + [NewExpectation])
  {
    var more, v := steps + [NewExpectation], AfterStep(u, NewExpectation);
    StepKeepsOrdered(u, NewExpectation);
    forall s: nat, a: nat
      ensures CountOf(more) == CountOf(steps) + 1 && (Entered(more, s, a) <==> Entered(steps, s, a))
    {
      EnteredMore(steps, NewExpectation, s, a);
    }
    EnteredMore(steps, NewExpectation, 0, 0);
    hide Entered, CountOf, Ordered;
    forall a: nat, p: nat
      ensures Precedes(more, p, a) <==> Precedes(steps, p, a)
    {
      SamePrecedes(steps, more, p, a);
    }
    assert !exists p: nat :: Precedes(steps, p, u.count) by {
      forall p: nat ensures !Precedes(steps, p, u.count) {
        assert forall s: nat :: !Entered(steps, s, u.count);
      }
    }
  }

  lemma SamePrecedes(steps: seq<SetupStep>, more: seq<SetupStep>, p: nat, a: nat)
    requires forall s: nat, q: nat :: q <= a ==> (Entered(more, s, q) <==> Entered(steps, s, q))
    ensures Precedes(more, p, a) <==> Precedes(steps, p, a)
  {
    hide Entered;
    if s: nat :| Entered(more, s, a) && EnteredLastBefore(more, s, p, a) {
      assert EnteredLastBefore(steps, s, p, a);
    }
    if s: nat :| Entered(steps, s, a) && EnteredLastBefore(steps, s, p, a) {
      assert EnteredLastBefore(more, s, p, a);
    }
  }

  /** With sequence `s0` the newest expectation `b` gets the last one before it, and nothing else changes. */
  lemma PrecedesMore(steps: seq<SetupStep>, more: seq<SetupStep>, s0: nat, b: nat, p: nat)
    requires forall s: nat, q: nat :: Entered(more, s, q) <==> Entered(steps, s, q) || (s == s0 && q == b)
    ensures Precedes(more, p, b) <==> Precedes(steps, p, b) || EnteredLastBefore(steps, s0, p, b)
  {
    hide Entered;
    if s: nat :| Entered(more, s, b) && EnteredLastBefore(more, s, p, b) {
      assert EnteredLastBefore(steps, s, p, b);
    }
    if s: nat :| Entered(steps, s, b) && EnteredLastBefore(steps, s, p, b) {
      assert EnteredLastBefore(more, s, p, b);
    }
    if EnteredLastBefore(steps, s0, p, b) {
      assert Entered(more, s0, b) && EnteredLastBefore(more, s0, p, b);
    }
  }

  lemma EnterReflects(u: Setup, steps: seq<SetupStep>, s0: nat)
    requires Reflects(u, steps)
    ensures Reflects(AfterStep(u, EnterSequence(s0)), steps + [EnterSequence(s0)])
  {
    var more, v := steps + [EnterSequence(s0)], AfterStep(u, EnterSequence(s0));
    StepKeepsOrdered(u, EnterSequence(s0));
    forall s: nat, a: nat
      ensures CountOf(more) == CountOf(steps)
      ensures Entered(more, s, a) <==> Entered(steps, s, a) || (s == s0 && u.count == a + 1)
    {
      EnteredMore(steps, EnterSequence(s0), s, a);
    }
    EnteredMore(steps, EnterSequence(s0), 0, 0);
    hide Entered, CountOf;
    if u.count > 0 {
      EnterPrerequisites(u, steps, more, s0, u.count - 1);
    } else {
      forall a: nat, p: nat
        ensures Precedes(more, p, a) <==> Precedes(steps, p, a)
      {
        SamePrecedes(steps, more, p, a);
      }
    }
  }

  lemma EnterPrerequisites(u: Setup, steps: seq<SetupStep>, more: seq<SetupStep>, s0: nat, b: nat)
    requires Reflects(u, steps) && u.count == b + 1 && b in u.g
    requires forall s: nat, q: nat :: Entered(more, s, q) <==> Entered(steps, s, q) || (s == s0 && q == b)
    ensures forall a: nat, p: nat :: a < u.count ==> (p in AfterAdd(u.g, LastOf(u, s0), b)[a] <==> Precedes(more, p, a))
  {
    hide Entered, Precedes;
    var g := AfterAdd(u.g, LastOf(u, s0), b);
    forall a: nat, p: nat | a < u.count
      ensures p in g[a] <==> Precedes(more, p, a)
    {
      if a < b {
        SamePrecedes(steps, more, p, a);
      } else {
        PrecedesMore(steps, more, s0, b, p);
        LastIsLast(u, steps, s0, b, p);
      }
    }
  }

  lemma LastIsLast(u: Setup, steps: seq<SetupStep>, s0: nat, b: nat, p: nat)
    requires Reflects(u, steps) && u.count == b + 1
    ensures if Entered(steps, s0, b)
      then LastOf(u, s0) == Some(b) && (EnteredLastBefore(steps, s0, p, b) ==> Precedes(steps, p, b))
      else EnteredLastBefore(steps, s0, p, b) <==> LastOf(u, s0) == Some(p)
  {
    hide Entered;
  }

  lemma {:induction false} SetUpReflects(steps: seq<SetupStep>)
    ensures Reflects(SetUp(steps), steps)
    decreases |steps|
  {
    if steps == [] {
      assert forall a: nat, p: nat :: !Precedes(steps, p, a);
    } else {
      var before, step := steps[..|steps| - 1], steps[|steps| - 1];
      SetUpReflects(before);
      hide Reflects;
      assert before + [step] == steps;
      match step
      case NewExpectation => NewReflects(SetUp(before), before);
      case EnterSequence(s) => EnterReflects(SetUp(before), before, s);
    }
  }

  /** Immediate prerequisites are exactly the last predecessors in the sequences that were entered. */
  lemma PrerequisitesAreLastPredecessors(steps: seq<SetupStep>, p: nat, a: nat)
    requires a < CountOf(steps)
    ensures a in SetUp(steps).g && (p in SetUp(steps).g[a] <==> Precedes(steps, p, a))
  {
    SetUpReflects(steps);
    hide Precedes;
  }

  /** Within a sequence, each expectation comes after all that entered it earlier. */
  lemma {:induction false} SequenceIsInOrder(steps: seq<SetupStep>, s: nat, a: nat, b: nat)
    requires Entered(steps, s, a) && Entered(steps, s, b) && a < b
    ensures IsGraph(SetUp(steps).g) && b in SetUp(steps).g && a in Transitive(SetUp(steps).g, b)
    decreases b
  {
    SetUpIsAcyclic(steps);
    SetUpReflects(steps);
    hide Entered, SetUp, Transitive;
    var g := SetUp(steps).g;
    var p := LastEntered(steps, s, a, b);
    assert Precedes(steps, p, b);
    TransitiveIsClosed(g, b);
    if a < p {
      SequenceIsInOrder(steps, s, a, p);
      TransitiveOfMember(g, b, p);
    }
  }

  /** The last expectation before `b` that entered the sequence. */
  lemma LastEntered(steps: seq<SetupStep>, s: nat, a: nat, b: nat) returns (p: nat)
    requires Entered(steps, s, a) && a < b
    ensures a <= p && EnteredLastBefore(steps, s, p, b)
  {
    hide Entered;
    p := b - 1;
    while !Entered(steps, s, p)
      invariant a <= p < b && forall q: nat :: p < q < b ==> !Entered(steps, s, q)
      decreases p
    {
      p := p - 1;
    }
  }

  // ----- calls over time -----

  datatype Cardinality = Between(min: int, max: int) {
    predicate IsSatisfiedByCallCount(callCount: int) { min <= callCount && callCount <= max }

    predicate IsSaturatedByCallCount(callCount: int) { callCount >= max }
  }

  /** What does not change once an expectation has been set. */
  datatype Clauses = Clauses(cardinality: Cardinality, retiresOnSaturation: bool)

  datatype Status<T> = Status(retired: set<T>, callCount: map<T, int>)

  ghost predicate Covers<T>(g: map<T, set<T>>, clauses: map<T, Clauses>, s: Status<T>) {
    IsGraph(g) && clauses.Keys == g.Keys && s.callCount.Keys == g.Keys && s.retired <= g.Keys
  }

  predicate Satisfied<T>(clauses: map<T, Clauses>, s: Status<T>, a: T)
    requires a in clauses && a in s.callCount
  {
    clauses[a].cardinality.IsSatisfiedByCallCount(s.callCount[a])
  }

  predicate Saturated<T>(clauses: map<T, Clauses>, s: Status<T>, a: T)
    requires a in clauses && a in s.callCount
  {
    clauses[a].cardinality.IsSaturatedByCallCount(s.callCount[a])
  }

  /** `a` may take a call: it is not retired and everything it comes after has been satisfied. */
  ghost predicate MayHandle<T>(g: map<T, set<T>>, clauses: map<T, Clauses>, s: Status<T>, a: T)
    requires Covers(g, clauses, s) && a in g
  {
    a !in s.retired && forall p :: p in Transitive(g, a) ==> Satisfied(clauses, s, p)
  }

  /** Counts the call, and unless it is excessive retires what `a` comes after and perhaps `a` itself. */
  ghost function Handled<T>(g: map<T, set<T>>, clauses: map<T, Clauses>, s: Status<T>, a: T): Status<T>
    requires Covers(g, clauses, s) && a in g
  {
    var counted := s.(callCount := s.callCount[a := s.callCount[a] + 1]);
    if Saturated(clauses, s, a) then counted
    else if clauses[a].retiresOnSaturation && Saturated(clauses, counted, a) then
      counted.(retired := s.retired + Transitive(g, a) + {a})
    else
      counted.(retired := s.retired + Transitive(g, a))
  }

  lemma HandledCases<T>(g: map<T, set<T>>, clauses: map<T, Clauses>, s: Status<T>, a: T)
    requires Covers(g, clauses, s) && a in g
    ensures var counts := s.callCount[a := s.callCount[a] + 1];
      Handled(g, clauses, s, a) ==
        if Saturated(clauses, s, a) then Status(s.retired, counts)
        else if clauses[a].retiresOnSaturation && Saturated(clauses, s.(callCount := counts), a) then
          Status(s.retired + Transitive(g, a) + {a}, counts)
        else Status(s.retired + Transitive(g, a), counts)
  {
    hide Transitive;
  }

  lemma SaturatedByCount<T>(clauses: map<T, Clauses>, s: Status<T>, t: Status<T>, a: T)
    requires a in clauses && a in s.callCount && t.callCount == s.callCount
    ensures Saturated(clauses, s, a) == Saturated(clauses, t, a)
  {
  }

  lemma HandledKeepsClosed<T>(g: map<T, set<T>>, clauses: map<T, Clauses>, s: Status<T>, a: T)
    requires Covers(g, clauses, s) && a in g && ClosedUnder(g, s.retired)
    ensures Covers(g, clauses, Handled(g, clauses, s, a)) && ClosedUnder(g, Handled(g, clauses, s, a).retired)
    ensures s.retired <= Handled(g, clauses, s, a).retired
  {
    TransitiveIsClosed(g, a);
  }

  ghost function StatusAfter<T>(g: map<T, set<T>>, clauses: map<T, Clauses>, s: Status<T>, calls: seq<T>): Status<T>
    requires Covers(g, clauses, s) && ClosedUnder(g, s.retired) && forall a :: a in calls ==> a in g
    ensures Covers(g, clauses, StatusAfter(g, clauses, s, calls))
    ensures ClosedUnder(g, StatusAfter(g, clauses, s, calls).retired)
    decreases |calls|
  {
    if calls == [] then s
    else
      HandledKeepsClosed(g, clauses, s, calls[0]);
      StatusAfter(g, clauses, Handled(g, clauses, s, calls[0]), calls[1..])
  }

  /** Every call of the run went to an expectation that could take it. */
  ghost predicate IsRun<T>(g: map<T, set<T>>, clauses: map<T, Clauses>, s: Status<T>, calls: seq<T>)
    requires Covers(g, clauses, s) && ClosedUnder(g, s.retired)
    decreases |calls|
  {
    (forall a :: a in calls ==> a in g)
    && (calls == [] ||
        (MayHandle(g, clauses, s, calls[0])
         && (HandledKeepsClosed(g, clauses, s, calls[0]);
             IsRun(g, clauses, Handled(g, clauses, s, calls[0]), calls[1..]))))
  }

  lemma {:induction false} RetiredTakesNoCalls<T>(g: map<T, set<T>>, clauses: map<T, Clauses>, s: Status<T>,
                                                  calls: seq<T>, a: T)
    requires Covers(g, clauses, s) && ClosedUnder(g, s.retired) && IsRun(g, clauses, s, calls)
    requires a in s.retired
    ensures a !in calls
    decreases |calls|
  {
    if calls != [] {
      HandledKeepsClosed(g, clauses, s, calls[0]);
      RetiredTakesNoCalls(g, clauses, Handled(g, clauses, s, calls[0]), calls[1..], a);
    }
  }

  /**
   * Calls respect the order: when `calls[i]` is taken, all it comes after is satisfied, and once it was
   * taken without being saturated already, nothing it comes after takes a call any more.
   */
  lemma {:induction false} CallsInOrder<T>(g: map<T, set<T>>, clauses: map<T, Clauses>, s: Status<T>, calls: seq<T>,
                                           i: nat, j: nat)
    requires Covers(g, clauses, s) && ClosedUnder(g, s.retired) && IsRun(g, clauses, s, calls)
    requires i < j < |calls|
    ensures var before := StatusAfter(g, clauses, s, calls[..i]);
      MayHandle(g, clauses, before, calls[i])
      && (calls[j] in Transitive(g, calls[i]) ==> Saturated(clauses, before, calls[i]))
    decreases |calls|
  {
    HandledKeepsClosed(g, clauses, s, calls[0]);
    var next := Handled(g, clauses, s, calls[0]);
    if i == 0 {
      assert calls[j] == calls[1..][j - 1];
      if calls[j] in next.retired {
        RetiredTakesNoCalls(g, clauses, next, calls[1..], calls[j]);
      }
    } else {
      assert calls[..i][1..] == calls[1..][..i - 1];
      CallsInOrder(g, clauses, next, calls[1..], i - 1, j - 1);
    }
  }

  // ----- runs that start with nothing called, in numbers of calls -----

  /** No expectation is retired and none has been called. */
  ghost predicate Fresh<T>(s: Status<T>) {
    s.retired == {} && forall a :: a in s.callCount ==> s.callCount[a] == 0
  }

  lemma {:induction false} StatusAppend<T>(g: map<T, set<T>>, clauses: map<T, Clauses>, s: Status<T>, calls: seq<T>,
                                           a: T)
    requires Covers(g, clauses, s) && ClosedUnder(g, s.retired) && forall x :: x in calls + [a] ==> x in g
    ensures forall x :: x in calls ==> x in g
    ensures a in g
    ensures StatusAfter(g, clauses, s, calls + [a]) == Handled(g, clauses, StatusAfter(g, clauses, s, calls), a)
    decreases |calls|
  {
    assert a in calls + [a] && forall x :: x in calls ==> x in calls + [a];
    if calls == [] {
      assert [] + [a] == [a] && [a][1..] == [];
    } else {
      assert (calls + [a])[1..] == calls[1..] + [a];
      HandledKeepsClosed(g, clauses, s, calls[0]);
      StatusAppend(g, clauses, Handled(g, clauses, s, calls[0]), calls[1..], a);
    }
  }

  /** The call count is the number of calls. */
  lemma {:induction false} CountsCalls<T>(g: map<T, set<T>>, clauses: map<T, Clauses>, s: Status<T>, calls: seq<T>,
                                          a: T)
    requires Covers(g, clauses, s) && Fresh(s) && (forall x :: x in calls ==> x in g) && a in g
    ensures StatusAfter(g, clauses, s, calls).callCount[a] == multiset(calls)[a]
    decreases |calls|
  {
    if calls != [] {
      var before, last := calls[..|calls| - 1], calls[|calls| - 1];
      assert calls == before + [last];
      CountsCalls(g, clauses, s, before, a);
      StatusAppend(g, clauses, s, before, last);
      hide Transitive;
    }
  }

  /** Satisfied from the minimum to the maximum number of calls, saturated from the maximum on. */
  lemma SatisfiedAndSaturatedIff<T>(g: map<T, set<T>>, clauses: map<T, Clauses>, s: Status<T>, calls: seq<T>, a: T)
    requires Covers(g, clauses, s) && Fresh(s) && (forall x :: x in calls ==> x in g) && a in g
    ensures var after, c := StatusAfter(g, clauses, s, calls), clauses[a].cardinality;
      && (Satisfied(clauses, after, a) <==> c.min <= multiset(calls)[a] <= c.max)
      && (Saturated(clauses, after, a) <==> c.max <= multiset(calls)[a])
  {
    CountsCalls(g, clauses, s, calls, a);
    hide StatusAfter;
  }

  /** Call `i` is not excessive: fewer than the maximum came before it. */
  predicate Expected<T>(clauses: map<T, Clauses>, calls: seq<T>, i: nat)
    requires i < |calls| && calls[i] in clauses
  {
    multiset(calls[..i])[calls[i]] < clauses[calls[i]].cardinality.max
  }

  /** Call `i` retires `x`: as something it comes after, or itself when it reaches its maximum and is to retire then. */
  ghost predicate Retires<T>(g: map<T, set<T>>, clauses: map<T, Clauses>, calls: seq<T>, i: nat, x: T)
    requires IsGraph(g) && clauses.Keys == g.Keys && forall a :: a in calls ==> a in g
  {
    && i < |calls| && Expected(clauses, calls, i)
    && (x in Transitive(g, calls[i])
        || (x == calls[i] && clauses[x].retiresOnSaturation
            && multiset(calls[..i])[x] + 1 >= clauses[x].cardinality.max))
  }

  lemma RetiresEarlier<T>(g: map<T, set<T>>, clauses: map<T, Clauses>, calls: seq<T>, a: T, i: nat, x: T)
    requires IsGraph(g) && clauses.Keys == g.Keys && forall b :: b in calls + [a] ==> b in g
    requires i < |calls|
    ensures forall b :: b in calls ==> b in g
    ensures Retires(g, clauses, calls + [a], i, x) <==> Retires(g, clauses, calls, i, x)
  {
    assert forall b :: b in calls ==> b in calls + [a];
    assert (calls + [a])[..i] == calls[..i];
    hide Transitive;
  }

  lemma RetiresLast<T>(g: map<T, set<T>>, clauses: map<T, Clauses>, s: Status<T>, calls: seq<T>, a: T, x: T)
    requires Covers(g, clauses, s) && Fresh(s) && forall b :: b in calls + [a] ==> b in g
    ensures forall b :: b in calls ==> b in g
    ensures a in g
    ensures var before := StatusAfter(g, clauses, s, calls);
      x in Handled(g, clauses, before, a).retired <==>
        x in before.retired || Retires(g, clauses, calls + [a], |calls|, x)
  {
    assert a in calls + [a] && forall b :: b in calls ==> b in calls + [a];
    assert (calls + [a])[..|calls|] == calls;
    CountsCalls(g, clauses, s, calls, a);
    HandledCases(g, clauses, StatusAfter(g, clauses, s, calls), a);
    hide Transitive, StatusAfter, Handled;
  }

  /** What is retired after a run, in numbers of calls. */
  lemma {:induction false} RetiredIff<T>(g: map<T, set<T>>, clauses: map<T, Clauses>, s: Status<T>, calls: seq<T>,
                                         x: T)
    requires Covers(g, clauses, s) && Fresh(s) && forall a :: a in calls ==> a in g
    ensures x in StatusAfter(g, clauses, s, calls).retired <==> exists i: nat :: Retires(g, clauses, calls, i, x)
    decreases |calls|
  {
    if calls != [] {
      var before, last := calls[..|calls| - 1], calls[|calls| - 1];
      assert calls == before + [last];
      RetiredIff(g, clauses, s, before, x);
      StatusAppend(g, clauses, s, before, last);
      RetiresLast(g, clauses, s, before, last, x);
      hide StatusAfter, Handled, Retires;
      if i: nat :| Retires(g, clauses, before, i, x) {
        BoundOfRetires(g, clauses, before, i, x);
        RetiresEarlier(g, clauses, before, last, i, x);
      }
      if i: nat :| Retires(g, clauses, calls, i, x) {
        BoundOfRetires(g, clauses, calls, i, x);
        if i < |before| { RetiresEarlier(g, clauses, before, last, i, x); }
      }
    }
  }

  lemma BoundOfRetires<T>(g: map<T, set<T>>, clauses: map<T, Clauses>, calls: seq<T>, i: nat, x: T)
    requires IsGraph(g) && clauses.Keys == g.Keys && forall a :: a in calls ==> a in g
    requires Retires(g, clauses, calls, i, x)
    ensures i < |calls|
  {
  }

  /** An expectation may take the next call exactly if all it comes after was called as often as asked for,
      and no call so far retired it. */
  lemma MayHandleIff<T>(g: map<T, set<T>>, clauses: map<T, Clauses>, s: Status<T>, calls: seq<T>, a: T)
    requires Covers(g, clauses, s) && Fresh(s) && (forall x :: x in calls ==> x in g) && a in g
    ensures MayHandle(g, clauses, StatusAfter(g, clauses, s, calls), a) <==>
      (forall p :: p in Transitive(g, a) ==>
         clauses[p].cardinality.min <= multiset(calls)[p] <= clauses[p].cardinality.max)
      && !exists i: nat :: Retires(g, clauses, calls, i, a)
  {
    RetiredIff(g, clauses, s, calls, a);
    forall p | p in Transitive(g, a)
      ensures Satisfied(clauses, StatusAfter(g, clauses, s, calls), p) <==>
        clauses[p].cardinality.min <= multiset(calls)[p] <= clauses[p].cardinality.max
    {
      SatisfiedAndSaturatedIff(g, clauses, s, calls, p);
    }
    hide StatusAfter, Transitive, Retires, Satisfied;
  }

  // ----- the termination measure of the traversal -----

  function Power(base: nat, n: nat): (p: nat)
    ensures base > 0 ==> p > 0
  {
    if n == 0 then 1 else base * Power(base, n - 1)
  }

  lemma {:induction false} PowerGrows(base: nat, m: nat, n: nat)
    requires base > 0 && m <= n
    ensures Power(base, m) <= Power(base, n)
    decreases n
  {
    if m < n {
      PowerGrows(base, m, n - 1);
      assert base * Power(base, n - 1) >= Power(base, n - 1);
    }
  }

  /** Expectations weigh more than all their immediate prerequisites together. */
  ghost function Weight<T>(g: map<T, set<T>>, a: T): nat
    requires IsGraph(g) && a in g
  {
    Power(|g| + 1, |Transitive(g, a)|)
  }

  ghost function TotalWeight<T>(g: map<T, set<T>>, worklist: seq<T>): nat
    requires IsGraph(g) && forall a :: a in worklist ==> a in g
  {
    if worklist == [] then 0
    else TotalWeight(g, worklist[..|worklist| - 1]) + Weight(g, worklist[|worklist| - 1])
  }

  lemma SmallerSet<T>(s: set<T>, t: set<T>)
    requires s < t
    ensures |s| < |t|
  {
    assert t == s + (t - s);
  }

  lemma SubsetSize<T>(s: set<T>, t: set<T>)
    requires s <= t
    ensures |s| <= |t|
  {
    if s != t { SmallerSet(s, t); }
  }

  lemma PrerequisiteWeighsLess<T>(g: map<T, set<T>>, a: T, p: T)
    requires IsGraph(g) && Acyclic(g) && a in g && p in g[a]
    ensures (|g| + 1) * Weight(g, p) <= Weight(g, a)
  {
    TransitiveOfMember(g, a, p);
    SmallerSet(Transitive(g, p), Transitive(g, a));
    PowerGrows(|g| + 1, |Transitive(g, p)| + 1, |Transitive(g, a)|);
  }

  // ----- retiring -----

  /** What retiring from `a` on has reached: only `rest` and the prerequisites of the worklist are open. */
  ghost predicate Retiring<T>(g: map<T, set<T>>, a: T, before: set<T>, now: set<T>, worklist: seq<T>, rest: set<T>)
    requires IsGraph(g) && a in g
  {
    && before <= now <= before + Transitive(g, a)
    && rest <= Transitive(g, a)
    && (forall e :: e in worklist ==> e == a || e in Transitive(g, a))
    && (forall e :: e in g && e in {a} + (now - before) ==> e in worklist || g[e] <= now + rest)
  }

  lemma RetiringStarts<T>(g: map<T, set<T>>, a: T, before: set<T>)
    requires IsGraph(g) && a in g
    ensures Retiring(g, a, before, before, [a], {})
  {
  }

  lemma RetiringPops<T>(g: map<T, set<T>>, a: T, before: set<T>, now: set<T>, worklist: seq<T>, e: T)
    requires IsGraph(g) && a in g && e in g && Retiring(g, a, before, now, worklist + [e], {})
    ensures Retiring(g, a, before, now, worklist, g[e])
  {
    assert e in worklist + [e];
    TransitiveIsClosed(g, a);
    forall x | x in g && x in {a} + (now - before)
      ensures x in worklist || g[x] <= now + g[e]
    {
      assert x in worklist + [e] ==> x in worklist || x == e;
    }
  }

  lemma RetiringSteps<T>(g: map<T, set<T>>, a: T, before: set<T>, now: set<T>, worklist: seq<T>, rest: set<T>, e: T)
    requires IsGraph(g) && a in g && e in rest && Retiring(g, a, before, now, worklist, rest)
    ensures Retiring(g, a, before, now + {e}, worklist + [e], rest - {e})
    ensures e in now ==> Retiring(g, a, before, now, worklist, rest - {e})
  {
    assert e in worklist + [e];
  }

  lemma RetiringEnds<T>(g: map<T, set<T>>, a: T, before: set<T>, now: set<T>)
    requires IsGraph(g) && a in g && Retiring(g, a, before, now, [], {})
    ensures before <= now <= before + Transitive(g, a)
    ensures ClosedUnder(g, before) ==> now == before + Transitive(g, a) && ClosedUnder(g, now)
  {
    if ClosedUnder(g, before) {
      TransitiveIsLeast(g, a, now);
    }
  }

  lemma RetiredIsDone<T>(g: map<T, set<T>>, a: T, retired: set<T>)
    requires IsGraph(g) && a in g
    ensures ClosedUnder(g, retired) && a in retired ==> retired + Transitive(g, a) == retired
  {
    if ClosedUnder(g, retired) && a in retired {
      TransitiveIsLeast(g, a, retired);
    }
  }

  // ----- checking -----

  /** `b` is still to be looked at: behind the worklist, among `rest`, or behind that. */
  ghost predicate Ahead<T>(g: map<T, set<T>>, worklist: seq<T>, rest: set<T>, b: T)
    requires IsGraph(g) && rest <= g.Keys && forall e :: e in worklist ==> e in g
  {
    || (exists e :: e in worklist && b in Transitive(g, e))
    || b in rest
    || (exists e :: e in rest && b in Transitive(g, e))
  }

  /** All of `a`'s transitive prerequisites are known to be `good`, or still ahead; nothing else is. */
  ghost predicate Checking<T>(g: map<T, set<T>>, a: T, good: set<T>, worklist: seq<T>, rest: set<T>)
    requires IsGraph(g) && a in g
  {
    && rest <= Transitive(g, a)
    && (forall e :: e in worklist ==> e == a || e in Transitive(g, a))
    && (forall b :: b in Transitive(g, a) ==> b in good || Ahead(g, worklist, rest, b))
  }

  lemma CheckingStarts<T>(g: map<T, set<T>>, a: T, good: set<T>)
    requires IsGraph(g) && a in g
    ensures Checking(g, a, good, [a], {})
  {
    assert a in [a];
  }

  lemma CheckingPops<T>(g: map<T, set<T>>, a: T, good: set<T>, worklist: seq<T>, e: T)
    requires IsGraph(g) && a in g && e in g && Checking(g, a, good, worklist + [e], {})
    ensures Checking(g, a, good, worklist, g[e])
  {
    hide Transitive;
    assert e in worklist + [e];
    TransitiveIsClosed(g, a);
    forall x | x in worklist
      ensures x == a || x in Transitive(g, a)
    {
      assert x in worklist + [e];
    }
    forall b | b in Transitive(g, a) && b !in good
      ensures Ahead(g, worklist, g[e], b)
    {
      assert Ahead(g, worklist + [e], {}, b);
      var w :| w in worklist + [e] && b in Transitive(g, w);
      if w !in worklist {
        assert w == e;
        TransitiveStep(g, e, b);
      }
    }
  }

  lemma CheckingSteps<T>(g: map<T, set<T>>, a: T, good: set<T>, worklist: seq<T>, rest: set<T>, e: T)
    requires IsGraph(g) && a in g && e in rest && e in good && Checking(g, a, good, worklist, rest)
    ensures Checking(g, a, good, worklist + [e], rest - {e})
  {
    hide Transitive;
    assert e in worklist + [e];
    forall b | b in Transitive(g, a) && b !in good
      ensures Ahead(g, worklist + [e], rest - {e}, b)
    {
      assert Ahead(g, worklist, rest, b);
      if w :| w in worklist && b in Transitive(g, w) {
        assert w in worklist + [e];
      } else if w :| w in rest && b in Transitive(g, w) {
        assert w == e || w in rest - {e};
      }
    }
  }

  lemma CheckingRest<T>(g: map<T, set<T>>, a: T, good: set<T>, worklist: seq<T>, rest: set<T>, e: T)
    requires IsGraph(g) && a in g && e in rest && Checking(g, a, good, worklist, rest)
    ensures e in Transitive(g, a)
  {
  }

  lemma CheckingEnds<T>(g: map<T, set<T>>, a: T, good: set<T>)
    requires IsGraph(g) && a in g && Checking(g, a, good, [], {})
    ensures Transitive(g, a) <= good
  {
    forall b | b in Transitive(g, a)
      ensures b in good
    {
      assert !Ahead(g, [], {}, b);
    }
  }

  lemma WeightAppend<T>(g: map<T, set<T>>, worklist: seq<T>, e: T)
    requires IsGraph(g) && e in g && forall x :: x in worklist ==> x in g
    ensures forall x :: x in worklist + [e] ==> x in g
    ensures TotalWeight(g, worklist + [e]) == TotalWeight(g, worklist) + Weight(g, e)
  {
    assert (worklist + [e])[..|worklist|] == worklist;
  }

  /** After `done` of the immediate prerequisites of `e`, the worklist has grown by at most their share. */
  ghost predicate WithinShare<T>(g: map<T, set<T>>, popped: seq<T>, worklist: seq<T>, e: T, done: nat)
    requires IsGraph(g) && e in g
  {
    && (forall x :: x in popped ==> x in g) && (forall x :: x in worklist ==> x in g)
    && (|g| + 1) * (TotalWeight(g, worklist) - TotalWeight(g, popped)) <= done * Weight(g, e)
  }

  lemma ShareStarts<T>(g: map<T, set<T>>, worklist: seq<T>, e: T)
    requires IsGraph(g) && e in g && forall x :: x in worklist ==> x in g
    ensures WithinShare(g, worklist, worklist, e, 0)
  {
  }

  lemma ShareSteps<T>(g: map<T, set<T>>, popped: seq<T>, worklist: seq<T>, e: T, done: nat, p: T)
    requires IsGraph(g) && Acyclic(g) && e in g && p in g[e] && WithinShare(g, popped, worklist, e, done)
    ensures WithinShare(g, popped, worklist + [p], e, done + 1)
  {
    PrerequisiteWeighsLess(g, e, p);
    WeightAppend(g, worklist, p);
    hide TotalWeight, Weight;
    var n, grown, w := |g| + 1, TotalWeight(g, worklist) - TotalWeight(g, popped), Weight(g, p);
    assert n * (grown + w) == n * grown + n * w;
    assert (done + 1) * Weight(g, e) == done * Weight(g, e) + Weight(g, e);
  }

  lemma ShareEnds<T>(g: map<T, set<T>>, popped: seq<T>, worklist: seq<T>, e: T, done: nat)
    requires IsGraph(g) && e in g && done <= |g[e]| && WithinShare(g, popped, worklist, e, done)
    ensures forall x :: x in popped + [e] ==> x in g
    ensures TotalWeight(g, worklist) < TotalWeight(g, popped + [e])
  {
    WeightAppend(g, popped, e);
    SubsetSize(g[e], g.Keys);
    assert |g.Keys| == |g|;
    assert Weight(g, e) > 0;
    hide TotalWeight, Weight;
    LessThanAll(|g|, done, TotalWeight(g, worklist) - TotalWeight(g, popped), Weight(g, e));
  }

  lemma LessThanAll(n: nat, done: nat, grown: int, w: nat)
    requires done <= n && w > 0 && (n + 1) * grown <= done * w
    ensures grown < w
  {
    assert done * w <= n * w;
    assert (n + 1) * (grown - w) == (n + 1) * grown - n * w - w;
    assert grown >= w ==> (n + 1) * (grown - w) >= 0;
  }

  // ----- expectations -----

  class Expectation {
    const clauses: Clauses
    var retired: bool
    var callCount: int
    var immediatePrerequisites: set<Expectation>

    constructor (clauses: Clauses)
      ensures this.clauses == clauses && !retired && callCount == 0 && immediatePrerequisites == {}
    {
      this.clauses := clauses;
      retired, callCount, immediatePrerequisites := false, 0, {};
    }

    predicate IsSatisfied()
      reads this
    {
      clauses.cardinality.IsSatisfiedByCallCount(callCount)
    }

    predicate IsSaturated()
      reads this
    {
      clauses.cardinality.IsSaturatedByCallCount(callCount)
    }

    method Retire(ghost all: set<Expectation>)
      requires this in all
      modifies this`retired
      ensures Retired(all) == old(Retired(all)) + {this}
    {
      retired := true;
    }

    method AllPrerequisitesAreSatisfied(ghost all: set<Expectation>) returns (satisfied: bool)
      requires this in all && IsGraph(GraphOf(all)) && Acyclic(GraphOf(all))
      ensures satisfied <==> forall e :: e in Transitive(GraphOf(all), this) ==> e.IsSatisfied()
    {
      hide Checking, Transitive, IsGraph, Acyclic, TotalWeight, Good;
      ghost var g: map<Expectation, set<Expectation>> := GraphOf(all);
      var expectations := [this];
      CheckingStarts(g, this, Good(all));
      while expectations != []
        invariant AllIn(all, expectations) && Checking(g, this, Good(all), expectations, {})
        decreases TotalWeight(g, expectations)
      {
        var exp := expectations[|expectations| - 1];
        ghost var popped := expectations[..|expectations| - 1];
        assert expectations == popped + [exp];
        PopKeepsIn(all, popped, exp);
        CheckingPops(g, this, Good(all), popped, exp);
        expectations := expectations[..|expectations| - 1];
        satisfied, expectations := exp.CheckImmediate(all, this, expectations);
        if !satisfied {
          GoodHolds(all);
          return false;
        }
        ShareEnds(g, popped, expectations, exp, |g[exp]|);
      }
      CheckingEnds(g, this, Good(all));
      GoodHolds(all);
      return true;
    }

    /** Puts the immediate prerequisites on the worklist, up to the first that is not satisfied. */
    method CheckImmediate(ghost all: set<Expectation>, ghost root: Expectation, worklist: seq<Expectation>)
      returns (satisfied: bool, expectations: seq<Expectation>)
      requires this in all && root in all && IsGraph(GraphOf(all)) && Acyclic(GraphOf(all)) && AllIn(all, worklist)
      requires Checking(GraphOf(all), root, Good(all), worklist, GraphOf(all)[this])
      ensures !satisfied ==> exists e :: e in Transitive(GraphOf(all), root) && e !in Good(all)
      ensures satisfied ==> AllIn(all, expectations)
      ensures satisfied ==> Checking(GraphOf(all), root, Good(all), expectations, {})
      ensures satisfied ==> WithinShare(GraphOf(all), worklist, expectations, this, |GraphOf(all)[this]|)
    {
      ghost var g: map<Expectation, set<Expectation>> := GraphOf(all);
      hide Checking, Transitive, IsGraph, Acyclic, TotalWeight, WithinShare, Good;
      expectations := worklist;
      var rest := immediatePrerequisites;
      assert rest <= all by { PrerequisitesWithin(all, this); }
      ShareStarts(g, worklist, this);
      ghost var done: nat := 0;
      while rest != {}
        invariant AllIn(all, expectations) && rest <= g[this] && Checking(g, root, Good(all), expectations, rest)
        invariant done + |rest| == |g[this]| && WithinShare(g, worklist, expectations, this, done)
        decreases rest
      {
        var next :| next in rest;
        CheckingRest(g, root, Good(all), expectations, rest, next);
        GoodHolds(all);
        if !next.IsSatisfied() {
          return false, expectations;
        }
        CheckingSteps(g, root, Good(all), expectations, rest, next);
        ShareSteps(g, worklist, expectations, this, done, next);
        rest, done := rest - {next}, done + 1;
        PushKeepsIn(all, expectations, next);
        expectations := expectations + [next];
      }
      return true, expectations;
    }

    method RetireAllPreRequisites(ghost all: set<Expectation>)
      requires this in all && IsGraph(GraphOf(all))
      modifies all`retired
      ensures old(Retired(all)) <= Retired(all) <= old(Retired(all)) + Transitive(GraphOf(all), this)
      ensures ClosedUnder(GraphOf(all), old(Retired(all))) ==>
        Retired(all) == old(Retired(all)) + Transitive(GraphOf(all), this)
        && ClosedUnder(GraphOf(all), Retired(all))
    {
      hide Retiring, Transitive, IsGraph, ClosedUnder, Retired;
      ghost var g, before := GraphOf(all), Retired(all);
      RetiredIsDone(g, this, before);
      assert retired ==> this in before by { RetiredHolds(all, this); }
      if retired {
        return;
      }
      var expectations := [this];
      RetiringStarts(g, this, before);
      while expectations != []
        invariant GraphOf(all) == g && AllIn(all, expectations)
        invariant Retiring(g, this, before, Retired(all), expectations, {})
        decreases |all - Retired(all)|, |expectations|
      {
        var exp := expectations[|expectations| - 1];
        ghost var popped, earlier := expectations[..|expectations| - 1], Retired(all);
        assert expectations == popped + [exp];
        PopKeepsIn(all, popped, exp);
        RetiringPops(g, this, before, earlier, popped, exp);
        expectations := expectations[..|expectations| - 1];
        expectations := exp.RetireImmediate(all, this, before, expectations);
        if earlier < Retired(all) {
          RetiredWithin(all);
          SmallerSet(all - Retired(all), all - earlier);
        }
      }
      RetiringEnds(g, this, before, Retired(all));
    }

    /** `matches` is the verdict of the argument matchers. */
    method ShouldHandleArguments(ghost all: set<Expectation>, matches: bool) returns (should: bool)
      requires this in all && IsGraph(GraphOf(all)) && Acyclic(GraphOf(all))
      ensures should <==> matches && MayHandle(GraphOf(all), ClausesOf(all), StatusOf(all), this)
    {
      hide Transitive, Acyclic, IsGraph;
      StatusCovers(all);
      if retired {
        return false;
      }
      var satisfied := AllPrerequisitesAreSatisfied(all);
      return satisfied && matches;
    }

    /** Whether the call was excessive, so that the default action is due. */
    method GetActionForArguments(ghost all: set<Expectation>) returns (excessive: bool)
      requires this in all && IsGraph(GraphOf(all)) && ClosedUnder(GraphOf(all), Retired(all))
      modifies all`retired, this`callCount
      ensures excessive <==> old(callCount) >= clauses.cardinality.max
      ensures callCount == old(callCount) + 1
      ensures Covers(GraphOf(all), ClausesOf(all), old(StatusOf(all)))
      ensures StatusOf(all) == Handled(GraphOf(all), ClausesOf(all), old(StatusOf(all)), this)
      ensures ClosedUnder(GraphOf(all), Retired(all))
    {
      hide Transitive, IsGraph, ClosedUnder, Retired, CallCounts, GraphOf, ClausesOf, Saturated, Covers,
        Handled;
      ghost var g: map<Expectation, set<Expectation>> := GraphOf(all);
      ghost var clausesOf: map<Expectation, Clauses>, s: Status<Expectation> := ClausesOf(all), StatusOf(all);
      StatusCovers(all);
      HandledKeepsClosed(g, clausesOf, s, this);
      HandledCases(g, clausesOf, s, this);
      SaturatedStatus(all, this);
      excessive := IsSaturated();
      IncrementCallCount(all);
      if excessive {
        return;
      }
      RetireAllPreRequisites(all);
      SaturatedStatus(all, this);
      SaturatedByCount(clausesOf, StatusOf(all), s.(callCount := CallCounts(all)), this);
      if clauses.retiresOnSaturation && IsSaturated() {
        Retire(all);
      }
    }

    method IncrementCallCount(ghost all: set<Expectation>)
      requires this in all
      modifies this`callCount
      ensures CallCounts(all) == old(CallCounts(all))[this := old(CallCounts(all))[this] + 1]
      ensures callCount == old(callCount) + 1
    {
      callCount := callCount + 1;
    }

    /** Retires the immediate prerequisites that are not, and puts them on the worklist. */
    method RetireImmediate(ghost all: set<Expectation>, ghost root: Expectation, ghost before: set<Expectation>,
                           worklist: seq<Expectation>) returns (expectations: seq<Expectation>)
      requires this in all && root in all && IsGraph(GraphOf(all)) && AllIn(all, worklist)
      requires Retiring(GraphOf(all), root, before, Retired(all), worklist, GraphOf(all)[this])
      modifies all`retired
      ensures AllIn(all, expectations)
      ensures Retiring(GraphOf(all), root, before, Retired(all), expectations, {})
      ensures if Retired(all) == old(Retired(all)) then expectations == worklist else old(Retired(all)) < Retired(all)
    {
      hide Retiring, Transitive, IsGraph;
      ghost var g, earlier := GraphOf(all), Retired(all);
      expectations := worklist;
      var rest := immediatePrerequisites;
      assert rest <= all by { PrerequisitesWithin(all, this); }
      while rest != {}
        invariant GraphOf(all) == g && AllIn(all, expectations) && rest <= all && earlier <= Retired(all)
        invariant Retiring(g, root, before, Retired(all), expectations, rest)
        invariant if Retired(all) == earlier then expectations == worklist else earlier < Retired(all)
        decreases rest
      {
        var next :| next in rest;
        ghost var now := Retired(all);
        RetiringSteps(g, root, before, now, expectations, rest, next);
        rest := rest - {next};
        if !next.retired {
          next.Retire(all);
          PushKeepsIn(all, expectations, next);
          expectations := expectations + [next];
        }
      }
    }
  }

  ghost function ClausesOf(all: set<Expectation>): (clauses: map<Expectation, Clauses>)
    ensures clauses.Keys == all
  {
    map e | e in all :: e.clauses
  }

  ghost function StatusOf(all: set<Expectation>): Status<Expectation>
    reads all`retired, all`callCount
  {
    Status(Retired(all), CallCounts(all))
  }

  ghost function CallCounts(all: set<Expectation>): (counts: map<Expectation, int>)
    reads all`callCount
    ensures counts.Keys == all
  {
    map e | e in all :: e.callCount
  }

  lemma SaturatedStatus(all: set<Expectation>, e: Expectation)
    requires e in all
    ensures e.IsSaturated() == Saturated(ClausesOf(all), StatusOf(all), e)
    ensures ClausesOf(all)[e] == e.clauses
  {
  }

  lemma StatusCovers(all: set<Expectation>)
    requires IsGraph(GraphOf(all))
    ensures Covers(GraphOf(all), ClausesOf(all), StatusOf(all))
  {
    hide IsGraph;
  }

  ghost function Good(all: set<Expectation>): set<Expectation>
    reads all
  {
    set e | e in all && e.IsSatisfied()
  }

  lemma GoodHolds(all: set<Expectation>)
    ensures forall e :: e in all ==> (e in Good(all) <==> e.IsSatisfied())
  {
  }

  lemma RetiredHolds(all: set<Expectation>, e: Expectation)
    requires e in all
    ensures e in Retired(all) <==> e.retired
  {
  }

  lemma RetiredWithin(all: set<Expectation>)
    ensures Retired(all) <= all
  {
  }

  lemma PrerequisitesWithin(all: set<Expectation>, e: Expectation)
    requires e in all && IsGraph(GraphOf(all))
    ensures e.immediatePrerequisites <= all
  {
    assert GraphOf(all)[e] <= GraphOf(all).Keys;
  }

  lemma PopKeepsIn(all: set<Expectation>, worklist: seq<Expectation>, e: Expectation)
    requires AllIn(all, worklist + [e])
    ensures AllIn(all, worklist) && e in all
  {
    assert (worklist + [e])[|worklist|] == e;
    forall x | x in worklist
      ensures x in all
    {
      assert x in worklist + [e];
    }
  }

  lemma PushKeepsIn(all: set<Expectation>, worklist: seq<Expectation>, e: Expectation)
    requires AllIn(all, worklist) && e in all
    ensures AllIn(all, worklist + [e])
  {
  }

  ghost predicate AllIn(all: set<Expectation>, worklist: seq<Expectation>) {
    forall e :: e in worklist ==> e in all
  }

  ghost function GraphOf(all: set<Expectation>): (g: map<Expectation, set<Expectation>>)
    reads all`immediatePrerequisites
    ensures g.Keys == all
  {
    map e | e in all :: e.immediatePrerequisites
  }

  ghost function Retired(all: set<Expectation>): set<Expectation>
    reads all`retired
  {
    set e | e in all && e.retired
  }

  /** A sequence remembers the expectation added last. */
  class Sequence {
    var lastExpectation: Expectation?

    constructor ()
      ensures lastExpectation == null
    {
      lastExpectation := null;
    }

    function Last(): Option<Expectation>
      reads this
    {
      if lastExpectation == null then None else Some(lastExpectation)
    }

    method AddExpectation(ghost all: set<Expectation>, expectation: Expectation)
      requires expectation in all && (lastExpectation != null ==> lastExpectation in all)
      requires IsGraph(GraphOf(all))
      modifies this, expectation`immediatePrerequisites
      ensures lastExpectation == expectation
      ensures GraphOf(all) == AfterAdd(old(GraphOf(all)), old(Last()), expectation)
      ensures expectation.immediatePrerequisites == old(expectation.immediatePrerequisites)
        + if old(lastExpectation) == null || old(lastExpectation) == expectation then {} else {old(lastExpectation)}
    {
      hide IsGraph;
      if lastExpectation != expectation {
        if lastExpectation != null {
          expectation.immediatePrerequisites := expectation.immediatePrerequisites + {lastExpectation};
        }
        lastExpectation := expectation;
      }
    }
  }
}
