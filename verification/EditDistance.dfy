/**
 * The edit script behind a failed string comparison. Indices `i` and `j` stand
 * for the first `i` elements of the left and the first `j` of the right sequence.
 */
module EditDistance {
  import opened Wrappers

  datatype EditType = Match | Add | Remove | Replace

  const REPLACE_COST: real := 1.00001

  function MoveCost(move: EditType): real {
    match move
    case Match => 0.0
    case Add => 1.0
    case Remove => 1.0
    case Replace => REPLACE_COST
  }

  function ScriptCost(path: seq<EditType>): real {
    if path == [] then 0.0 else ScriptCost(path[..|path| - 1]) + MoveCost(path[|path| - 1])
  }

  lemma CostStep(path: seq<EditType>, move: EditType)
    ensures ScriptCost(path + [move]) == ScriptCost(path) + MoveCost(move)
  {
    assert (path + [move])[..|path|] == path;
  }

  // ----- what a script does -----

  predicate CanMove(move: EditType, i: int, j: int) {
    (move != Add ==> i > 0) && (move != Remove ==> j > 0)
  }

  function BeforeLeft(move: EditType, i: int): int { if move != Add then i - 1 else i }

  function BeforeRight(move: EditType, j: int): int { if move != Remove then j - 1 else j }

  /**
   * The sequence a script makes from the first `i` elements of `left`: a match keeps an element,
   * a removal drops one, and a replacement or addition takes the next of the first `j` of `right`.
   * None when the script leaves elements over on either side, or runs out of them.
   */
  function Edited(path: seq<EditType>, left: seq<nat>, i: nat, right: seq<nat>, j: nat): Option<seq<nat>>
    requires i <= |left| && j <= |right|
    decreases |path|
  {
    if path == [] then if i == 0 && j == 0 then Some([]) else None
    else
      var move := path[|path| - 1];
      if !CanMove(move, i, j) then None
      else
        match Edited(path[..|path| - 1], left, BeforeLeft(move, i), right, BeforeRight(move, j))
        case None => None
        case Some(made) =>
          match move
          case Match => Some(made + [left[i - 1]])
          case Remove => Some(made)
          case _ => Some(made + [right[j - 1]])
  }

  ghost predicate IsScript(path: seq<EditType>, left: seq<nat>, i: nat, right: seq<nat>, j: nat)
    requires i <= |left| && j <= |right|
  {
    Edited(path, left, i, right, j) == Some(right[..j])
  }

  /** A script may end in any move its two sides allow, except that a match needs equal elements. */
  lemma LastMove(path: seq<EditType>, move: EditType, left: seq<nat>, i: nat, right: seq<nat>, j: nat)
    requires i <= |left| && j <= |right|
    ensures IsScript(path + [move], left, i, right, j) <==>
      CanMove(move, i, j) && (move == Match ==> left[i - 1] == right[j - 1])
      && IsScript(path, left, BeforeLeft(move, i), right, BeforeRight(move, j))
  {
    assert (path + [move])[..|path|] == path;
    if CanMove(move, i, j) {
      var before := Edited(path, left, BeforeLeft(move, i), right, BeforeRight(move, j));
      if j > 0 {
        assert right[..j] == right[..j - 1] + [right[j - 1]];
      }
      if before.Some? && j > 0 && move != Remove {
        var made, x := before.value, if move == Match then left[i - 1] else right[j - 1];
        assert (made + [x])[..|made|] == made && (made + [x])[|made|] == x;
        assert made + [x] == right[..j] ==> made == right[..j][..j - 1];
      }
    }
  }

  // ----- the least cost of any script -----

  function Cheaper(a: real, b: real): real { if a <= b then a else b }

  function Least(left: seq<nat>, i: nat, right: seq<nat>, j: nat): real
    requires i <= |left| && j <= |right|
  {
    if i == 0 then j as real
    else if j == 0 then i as real
    else
      Cheaper(Cheaper(Least(left, i, right, j - 1) + 1.0, Least(left, i - 1, right, j) + 1.0),
              Least(left, i - 1, right, j - 1) + if left[i - 1] == right[j - 1] then 0.0 else REPLACE_COST)
  }

  lemma {:induction false} LeastIsLowerBound(path: seq<EditType>, left: seq<nat>, i: nat, right: seq<nat>, j: nat)
    requires i <= |left| && j <= |right|
    requires IsScript(path, left, i, right, j)
    ensures ScriptCost(path) >= Least(left, i, right, j)
    decreases |path|
  {
    if path != [] {
      var init, move := path[..|path| - 1], path[|path| - 1];
      assert path == init + [move];
      LastMove(init, move, left, i, right, j);
      LeastIsLowerBound(init, left, BeforeLeft(move, i), right, BeforeRight(move, j));
    }
  }

  lemma {:induction false} LeastIsReached(left: seq<nat>, i: nat, right: seq<nat>, j: nat) returns (path: seq<EditType>)
    requires i <= |left| && j <= |right|
    ensures IsScript(path, left, i, right, j) && ScriptCost(path) == Least(left, i, right, j)
    decreases i + j
  {
    if i == 0 && j == 0 {
      return [];
    }
    var move :=
      if i == 0 || (j > 0 && Least(left, i, right, j) == Least(left, i, right, j - 1) + 1.0) then Add
      else if j == 0 || Least(left, i, right, j) == Least(left, i - 1, right, j) + 1.0 then Remove
      else if left[i - 1] == right[j - 1] then Match
      else Replace;
    var init := LeastIsReached(left, BeforeLeft(move, i), right, BeforeRight(move, j));
    LastMove(init, move, left, i, right, j);
    path := init + [move];
    assert path[..|init|] == init;
  }

  /** One element more or less on either side changes the least cost by at most one. */
  lemma {:induction false} LeastNeighbours(left: seq<nat>, i: nat, right: seq<nat>, j: nat)
    requires i <= |left| && j <= |right|
    ensures i > 0 ==> -1.0 <= Least(left, i, right, j) - Least(left, i - 1, right, j) <= 1.0
    ensures j > 0 ==> -1.0 <= Least(left, i, right, j) - Least(left, i, right, j - 1) <= 1.0
    decreases i + j
  {
    if i > 0 && j > 0 {
      LeastNeighbours(left, i - 1, right, j);
      LeastNeighbours(left, i, right, j - 1);
      LeastStep(left, i, right, j);
      hide Least;
    }
  }

  lemma LeastStep(left: seq<nat>, i: nat, right: seq<nat>, j: nat)
    requires 0 < i <= |left| && 0 < j <= |right|
    ensures Least(left, i, right, j) <= Least(left, i, right, j - 1) + 1.0
    ensures Least(left, i, right, j) <= Least(left, i - 1, right, j) + 1.0
    ensures Least(left, i, right, j) == Least(left, i, right, j - 1) + 1.0
      || Least(left, i, right, j) == Least(left, i - 1, right, j) + 1.0
      || Least(left, i, right, j) >= Least(left, i - 1, right, j - 1)
  {
  }

  /** Matching equal elements is always among the best moves. */
  lemma MatchIsBest(left: seq<nat>, i: nat, right: seq<nat>, j: nat)
    requires 0 < i <= |left| && 0 < j <= |right| && left[i - 1] == right[j - 1]
    ensures Least(left, i, right, j) == Least(left, i - 1, right, j - 1)
  {
    LeastNeighbours(left, i - 1, right, j);
    LeastNeighbours(left, i, right, j - 1);
  }

  // ----- the table -----

  /** The move noted when the three neighbouring entries are `add`, `remove` and `replace`. */
  function Chosen(add: real, remove: real, replace: real): EditType {
    if add < remove && add < replace then Add
    else if remove < add && remove < replace then Remove
    else Replace
  }

  function Cost(left: seq<nat>, i: nat, right: seq<nat>, j: nat): real
    requires i <= |left| && j <= |right|
  {
    if j == 0 then i as real
    else if i == 0 then j as real
    else if left[i - 1] == right[j - 1] then Cost(left, i - 1, right, j - 1)
    else
      var add, remove, replace :=
        Cost(left, i, right, j - 1), Cost(left, i - 1, right, j), Cost(left, i - 1, right, j - 1);
      match Chosen(add, remove, replace)
      case Add => add + 1.0
      case Remove => remove + 1.0
      case _ => replace + REPLACE_COST
  }

  function BestMove(left: seq<nat>, i: nat, right: seq<nat>, j: nat): EditType
    requires i <= |left| && j <= |right|
  {
    if j == 0 then Remove
    else if i == 0 then Add
    else if left[i - 1] == right[j - 1] then Match
    else Chosen(Cost(left, i, right, j - 1), Cost(left, i - 1, right, j), Cost(left, i - 1, right, j - 1))
  }

  function Trace(left: seq<nat>, i: nat, right: seq<nat>, j: nat): seq<EditType>
    requires i <= |left| && j <= |right|
    decreases i + j
  {
    if i == 0 && j == 0 then []
    else
      var move := BestMove(left, i, right, j);
      Trace(left, BeforeLeft(move, i), right, BeforeRight(move, j)) + [move]
  }

  /** Following the noted moves back gives a script, and its cost is the entry it started from. */
  lemma {:induction false} TraceIsScript(left: seq<nat>, i: nat, right: seq<nat>, j: nat)
    requires i <= |left| && j <= |right|
    ensures IsScript(Trace(left, i, right, j), left, i, right, j)
    ensures ScriptCost(Trace(left, i, right, j)) == Cost(left, i, right, j)
    decreases i + j
  {
    if i != 0 || j != 0 {
      var move := BestMove(left, i, right, j);
      var init := Trace(left, BeforeLeft(move, i), right, BeforeRight(move, j));
      TraceIsScript(left, BeforeLeft(move, i), right, BeforeRight(move, j));
      LastMove(init, move, left, i, right, j);
      assert (init + [move])[..|init|] == init;
    }
  }

  lemma CostIsNotBelowLeast(left: seq<nat>, i: nat, right: seq<nat>, j: nat)
    requires i <= |left| && j <= |right|
    ensures Cost(left, i, right, j) >= Least(left, i, right, j)
  {
    TraceIsScript(left, i, right, j);
    LeastIsLowerBound(Trace(left, i, right, j), left, i, right, j);
  }

  // ----- when the table is optimal -----

  /** Costs in hundred-thousandths are whole numbers. */
  function Units(left: seq<nat>, i: nat, right: seq<nat>, j: nat): (n: int)
    requires i <= |left| && j <= |right|
    ensures n as real == Cost(left, i, right, j) * 100000.0
  {
    if j == 0 then 100000 * i
    else if i == 0 then 100000 * j
    else
      match BestMove(left, i, right, j)
      case Match => Units(left, i - 1, right, j - 1)
      case Add => Units(left, i, right, j - 1) + 100000
      case Remove => Units(left, i - 1, right, j) + 100000
      case Replace => Units(left, i - 1, right, j - 1) + 100001
  }

  /** The least of three entries occurs only once among them. */
  predicate LeastOccursOnce(a: real, b: real, c: real) {
    (a < b && a < c) || (b < a && b < c) || (c < a && c < b)
  }

  /** No tie for the least neighbour where the elements differ. */
  predicate NoTie(left: seq<nat>, i: nat, right: seq<nat>, j: nat)
    requires 0 < i <= |left| && 0 < j <= |right|
  {
    left[i - 1] != right[j - 1] ==>
      LeastOccursOnce(Cost(left, i, right, j - 1), Cost(left, i - 1, right, j), Cost(left, i - 1, right, j - 1))
  }

  ghost predicate NoTies(left: seq<nat>, right: seq<nat>) {
    forall i, j :: 0 < i <= |left| && 0 < j <= |right| ==> NoTie(left, i, right, j)
  }

  ghost predicate IsOptimal(left: seq<nat>, i: nat, right: seq<nat>, j: nat)
    requires i <= |left| && j <= |right|
  {
    forall path :: IsScript(path, left, i, right, j) ==> ScriptCost(Trace(left, i, right, j)) <= ScriptCost(path)
  }

  ghost predicate AlwaysOptimal(left: seq<nat>, right: seq<nat>) {
    forall i, j :: 0 <= i <= |left| && 0 <= j <= |right| ==> IsOptimal(left, i, right, j)
  }

  lemma OptimalIffLeast(left: seq<nat>, i: nat, right: seq<nat>, j: nat)
    requires i <= |left| && j <= |right|
    ensures IsOptimal(left, i, right, j) <==> Cost(left, i, right, j) == Least(left, i, right, j)
  {
    TraceIsScript(left, i, right, j);
    CostIsNotBelowLeast(left, i, right, j);
    var best := LeastIsReached(left, i, right, j);
    forall path | IsScript(path, left, i, right, j)
      ensures ScriptCost(path) >= Least(left, i, right, j)
    {
      LeastIsLowerBound(path, left, i, right, j);
    }
  }

  /** With optimal neighbours an entry is optimal exactly when there is no tie. */
  lemma OptimalStep(left: seq<nat>, i: nat, right: seq<nat>, j: nat)
    requires 0 < i <= |left| && 0 < j <= |right|
    requires Cost(left, i, right, j - 1) == Least(left, i, right, j - 1)
    requires Cost(left, i - 1, right, j) == Least(left, i - 1, right, j)
    requires Cost(left, i - 1, right, j - 1) == Least(left, i - 1, right, j - 1)
    ensures Cost(left, i, right, j) == Least(left, i, right, j) <==> NoTie(left, i, right, j)
  {
    if left[i - 1] == right[j - 1] {
      MatchIsBest(left, i, right, j);
    } else {
      var add, remove := Units(left, i, right, j - 1), Units(left, i - 1, right, j);
      var replace := Units(left, i - 1, right, j - 1);
      assert replace < add ==> (replace + 1) as real <= add as real;
      assert replace < remove ==> (replace + 1) as real <= remove as real;
    }
  }

  lemma BorderIsLeast(left: seq<nat>, i: nat, right: seq<nat>, j: nat)
    requires i <= |left| && j <= |right| && (i == 0 || j == 0)
    ensures Cost(left, i, right, j) == Least(left, i, right, j)
  {
  }

  lemma NoTieAt(left: seq<nat>, i: nat, right: seq<nat>, j: nat)
    requires 0 < i <= |left| && 0 < j <= |right| && NoTies(left, right)
    ensures NoTie(left, i, right, j)
  {
    hide NoTie;
  }

  lemma {:induction false} NoTiesMakesLeast(left: seq<nat>, i: nat, right: seq<nat>, j: nat)
    requires i <= |left| && j <= |right| && NoTies(left, right)
    ensures Cost(left, i, right, j) == Least(left, i, right, j)
    decreases i + j
  {
    hide Cost, Least, NoTie, NoTies;
    if i == 0 || j == 0 {
      BorderIsLeast(left, i, right, j);
    } else {
      NoTieAt(left, i, right, j);
      NoTiesMakesLeast(left, i, right, j - 1);
      NoTiesMakesLeast(left, i - 1, right, j);
      NoTiesMakesLeast(left, i - 1, right, j - 1);
      OptimalStep(left, i, right, j);
    }
  }

  /** Every prefix pair gets a cheapest script iff no entry saw a tie for its least neighbour. */
  lemma OptimalIffNoTies(left: seq<nat>, right: seq<nat>)
    ensures AlwaysOptimal(left, right) <==> NoTies(left, right)
  {
    hide Cost, Least, Trace, NoTie;
    if NoTies(left, right) {
      forall i, j | 0 <= i <= |left| && 0 <= j <= |right|
        ensures IsOptimal(left, i, right, j)
      {
        NoTiesMakesLeast(left, i, right, j);
        OptimalIffLeast(left, i, right, j);
      }
    }
    if AlwaysOptimal(left, right) {
      forall i, j | 0 < i <= |left| && 0 < j <= |right|
        ensures NoTie(left, i, right, j)
      {
        OptimalIffLeast(left, i, right, j);
        OptimalIffLeast(left, i - 1, right, j);
        OptimalIffLeast(left, i, right, j - 1);
        OptimalIffLeast(left, i - 1, right, j - 1);
        OptimalStep(left, i, right, j);
      }
    }
  }

  // ----- when the script is optimal -----

  /** Every entry that the script passes is free of a tie, and equal elements are matched. */
  ghost predicate MeetsNoTie(path: seq<EditType>, left: seq<nat>, i: nat, right: seq<nat>, j: nat)
    requires i <= |left| && j <= |right|
    decreases |path|
  {
    path == [] ||
    var move := path[|path| - 1];
    && CanMove(move, i, j)
    && (i > 0 && j > 0 ==> NoTie(left, i, right, j) && (left[i - 1] == right[j - 1] ==> move == Match))
    && MeetsNoTie(path[..|path| - 1], left, BeforeLeft(move, i), right, BeforeRight(move, j))
  }

  /** Some cheapest script meets no tie. */
  ghost predicate CheapestMeetsNoTie(left: seq<nat>, i: nat, right: seq<nat>, j: nat)
    requires i <= |left| && j <= |right|
  {
    exists path :: IsScript(path, left, i, right, j)
      && ScriptCost(path) == Least(left, i, right, j) && MeetsNoTie(path, left, i, right, j)
  }

  lemma LeastAfter(move: EditType, left: seq<nat>, i: nat, right: seq<nat>, j: nat)
    requires i <= |left| && j <= |right| && CanMove(move, i, j)
    requires move == Match ==> left[i - 1] == right[j - 1]
    ensures Least(left, i, right, j) <= Least(left, BeforeLeft(move, i), right, BeforeRight(move, j)) + MoveCost(move)
  {
    if i > 0 && j > 0 && move == Replace && left[i - 1] == right[j - 1] {
      MatchIsBest(left, i, right, j);
    }
  }

  /** At a tie the code replaces, although adding or removing is cheaper. */
  lemma TieIsNotLeast(left: seq<nat>, i: nat, right: seq<nat>, j: nat)
    requires 0 < i <= |left| && 0 < j <= |right| && !NoTie(left, i, right, j)
    ensures Cost(left, i, right, j) > Least(left, i, right, j)
  {
    hide *;
    TieCost(left, i, right, j);
    CostIsNotBelowLeast(left, i, right, j - 1);
    CostIsNotBelowLeast(left, i - 1, right, j);
    LeastStep(left, i, right, j);
  }

  lemma TieCost(left: seq<nat>, i: nat, right: seq<nat>, j: nat)
    requires 0 < i <= |left| && 0 < j <= |right| && !NoTie(left, i, right, j)
    ensures Cost(left, i, right, j) > Cost(left, i, right, j - 1) + 1.0
      || Cost(left, i, right, j) > Cost(left, i - 1, right, j) + 1.0
  {
  }

  /** An entry without a tie is no dearer than any move onto it. */
  lemma NoTieIsCheapest(move: EditType, left: seq<nat>, i: nat, right: seq<nat>, j: nat)
    requires 0 < i <= |left| && 0 < j <= |right| && left[i - 1] != right[j - 1]
    requires NoTie(left, i, right, j) && move != Match
    ensures Cost(left, i, right, j) <= Cost(left, BeforeLeft(move, i), right, BeforeRight(move, j)) + MoveCost(move)
  {
    var add, remove := Units(left, i, right, j - 1), Units(left, i - 1, right, j);
    var replace := Units(left, i - 1, right, j - 1);
    assert replace < add ==> (replace + 1) as real <= add as real;
    assert replace < remove ==> (replace + 1) as real <= remove as real;
  }

  /** What a move back from an entry costs is what the entry has more than the one it leads to. */
  lemma TableStep(left: seq<nat>, i: nat, right: seq<nat>, j: nat)
    requires i <= |left| && j <= |right| && (i > 0 || j > 0)
    ensures var move := BestMove(left, i, right, j);
      CanMove(move, i, j) && (move == Match ==> left[i - 1] == right[j - 1])
      && Cost(left, i, right, j) == Cost(left, BeforeLeft(move, i), right, BeforeRight(move, j)) + MoveCost(move)
  {
  }

  lemma TraceMeetsNoTie(left: seq<nat>, i: nat, right: seq<nat>, j: nat)
    requires i <= |left| && j <= |right| && (i > 0 || j > 0)
    requires i > 0 && j > 0 ==> NoTie(left, i, right, j)
    ensures var move := BestMove(left, i, right, j);
      CanMove(move, i, j)
      && (MeetsNoTie(Trace(left, i, right, j), left, i, right, j) <==>
          MeetsNoTie(Trace(left, BeforeLeft(move, i), right, BeforeRight(move, j)),
                     left, BeforeLeft(move, i), right, BeforeRight(move, j)))
  {
    hide Cost, NoTie;
    var move := BestMove(left, i, right, j);
    TableStep(left, i, right, j);
    var init := Trace(left, BeforeLeft(move, i), right, BeforeRight(move, j));
    assert (init + [move])[..|init|] == init;
  }

  /** In particular, a script that was found by way of a tie is not a cheapest one. */
  lemma {:induction false} OptimalTraceMeetsNoTie(left: seq<nat>, i: nat, right: seq<nat>, j: nat)
    requires i <= |left| && j <= |right| && Cost(left, i, right, j) == Least(left, i, right, j)
    ensures MeetsNoTie(Trace(left, i, right, j), left, i, right, j)
    decreases i + j
  {
    if i != 0 || j != 0 {
      hide Cost, Least, NoTie, BestMove, MeetsNoTie, Trace;
      var move := BestMove(left, i, right, j);
      TableStep(left, i, right, j);
      if i > 0 && j > 0 && !NoTie(left, i, right, j) { TieIsNotLeast(left, i, right, j); }
      LeastAfter(move, left, i, right, j);
      CostIsNotBelowLeast(left, BeforeLeft(move, i), right, BeforeRight(move, j));
      OptimalTraceMeetsNoTie(left, BeforeLeft(move, i), right, BeforeRight(move, j));
      TraceMeetsNoTie(left, i, right, j);
    }
  }

  lemma {:induction false} TieFreeIsLeast(path: seq<EditType>, left: seq<nat>, i: nat, right: seq<nat>, j: nat)
    requires i <= |left| && j <= |right| && IsScript(path, left, i, right, j)
    requires ScriptCost(path) == Least(left, i, right, j) && MeetsNoTie(path, left, i, right, j)
    ensures Cost(left, i, right, j) == Least(left, i, right, j)
    decreases |path|
  {
    CostIsNotBelowLeast(left, i, right, j);
    if i == 0 || j == 0 {
      BorderIsLeast(left, i, right, j);
    } else {
      assert path != [];
      var init, move := path[..|path| - 1], path[|path| - 1];
      assert path == init + [move];
      LastMove(init, move, left, i, right, j);
      hide Edited, Least, Cost, NoTie;
      LeastIsLowerBound(init, left, BeforeLeft(move, i), right, BeforeRight(move, j));
      LeastAfter(move, left, i, right, j);
      TieFreeIsLeast(init, left, BeforeLeft(move, i), right, BeforeRight(move, j));
      if left[i - 1] == right[j - 1] {
        MatchIsBest(left, i, right, j);
        TableStep(left, i, right, j);
      } else {
        NoTieIsCheapest(move, left, i, right, j);
      }
    }
  }

  /** The script found is a cheapest one iff some cheapest script meets no tie. */
  lemma OptimalIffCheapestMeetsNoTie(left: seq<nat>, i: nat, right: seq<nat>, j: nat)
    requires i <= |left| && j <= |right|
    ensures IsOptimal(left, i, right, j) <==> CheapestMeetsNoTie(left, i, right, j)
  {
    OptimalIffLeast(left, i, right, j);
    TraceIsScript(left, i, right, j);
    hide IsOptimal, Cost, Least, IsScript, MeetsNoTie, Trace;
    if IsOptimal(left, i, right, j) {
      OptimalTraceMeetsNoTie(left, i, right, j);
    }
    if CheapestMeetsNoTie(left, i, right, j) {
      var path :| IsScript(path, left, i, right, j)
        && ScriptCost(path) == Least(left, i, right, j) && MeetsNoTie(path, left, i, right, j);
      TieFreeIsLeast(path, left, i, right, j);
    }
  }

  /** A tie off the path may do no harm: */
  lemma TieWithoutHarm()
    ensures var left, right := [0, 1], [1, 0, 0];
      !NoTie(left, 2, right, 2) && IsOptimal(left, 2, right, 3)
  {
    OptimalIffLeast([0, 1], 2, [1, 0, 0], 3);
    hide IsOptimal;
  }

  /** But it may, even though the script found meets none itself. */
  lemma TieOffThePath()
    ensures var left, right := [0, 1, 0], [1, 0, 0, 2];
      MeetsNoTie(Trace(left, 3, right, 4), left, 3, right, 4) && !IsOptimal(left, 3, right, 4)
  {
    var left, right := [0, 1, 0], [1, 0, 0, 2];
    OptimalIffLeast(left, 3, right, 4);
    hide IsOptimal, MeetsNoTie, Trace;
    TraceMeetsNoTie(left, 0, right, 1);
    TraceMeetsNoTie(left, 1, right, 2);
    TraceMeetsNoTie(left, 2, right, 3);
    TraceMeetsNoTie(left, 3, right, 4);
    NothingToMeet(left, right);
  }

  lemma NothingToMeet(left: seq<nat>, right: seq<nat>)
    ensures MeetsNoTie(Trace(left, 0, right, 0), left, 0, right, 0)
  {
  }

  /** The script found for these two sequences replaces everything; it need not. */
  lemma NotAlwaysOptimal()
    ensures var left, right := [1, 2, 1], [2, 1, 2];
      Cost(left, 3, right, 3) == 3.00003 && !IsOptimal(left, 3, right, 3)
  {
    var better := CheaperScript();
    hide IsScript, ScriptCost, Trace;
    TraceIsScript([1, 2, 1], 3, [2, 1, 2], 3);
  }

  lemma CheaperScript() returns (path: seq<EditType>)
    ensures IsScript(path, [1, 2, 1], 3, [2, 1, 2], 3) && ScriptCost(path) == 2.0
  {
    var left, right := [1, 2, 1], [2, 1, 2];
    path := [Remove] + [Match] + [Match] + [Add];
    CostStep([], Remove);
    CostStep([Remove], Match);
    CostStep([Remove] + [Match], Match);
    CostStep([Remove] + [Match] + [Match], Add);
    assert [] + [Remove] == [Remove];
    hide Edited;
    LastMove([], Remove, left, 1, right, 0);
    LastMove([Remove], Match, left, 2, right, 1);
    LastMove([Remove] + [Match], Match, left, 3, right, 2);
    LastMove([Remove] + [Match] + [Match], Add, left, 3, right, 3);
    EmptyScript(left, right);
  }

  lemma EmptyScript(left: seq<nat>, right: seq<nat>)
    ensures IsScript([], left, 0, right, 0)
  {
  }

  // ----- the algorithm -----

  function Reversed<T>(s: seq<T>): seq<T> {
    if s == [] then [] else Reversed(s[1..]) + [s[0]]
  }

  lemma {:induction false} ReversedAppend<T>(s: seq<T>, x: T)
    ensures Reversed(s + [x]) == [x] + Reversed(s)
  {
    if s != [] {
      ReversedAppend(s[1..], x);
      assert (s + [x])[1..] == s[1..] + [x];
    }
  }

  ghost predicate IsEntry(cost: real, move: EditType, left: seq<nat>, i: nat, right: seq<nat>, j: nat)
    requires i <= |left| && j <= |right|
  {
    cost == Cost(left, i, right, j) && move == BestMove(left, i, right, j)
  }

  method CalculateOptimalEdits(left: seq<nat>, right: seq<nat>) returns (bestPath: seq<EditType>)
    ensures bestPath == Trace(left, |left|, right, |right|)
    ensures Edited(bestPath, left, |left|, right, |right|) == Some(right)
    ensures ScriptCost(bestPath) == Cost(left, |left|, right, |right|)
    ensures IsOptimal(left, |left|, right, |right|) <==> CheapestMeetsNoTie(left, |left|, right, |right|)
  {
    hide Cost, Trace, IsOptimal, CheapestMeetsNoTie;
    var costs := new real[|left| + 1, |right| + 1];
    var bestMove := new EditType[|left| + 1, |right| + 1];
    FillBorders(costs, bestMove, left, right);
    FillTable(costs, bestMove, left, right);
    bestPath := Reconstruct(costs, bestMove, left, right);
    TraceIsScript(left, |left|, right, |right|);
    assert right[..|right|] == right;
    OptimalIffCheapestMeetsNoTie(left, |left|, right, |right|);
  }

  method FillBorders(costs: array2<real>, bestMove: array2<EditType>, left: seq<nat>, right: seq<nat>)
    requires costs.Length0 == bestMove.Length0 == |left| + 1 && costs.Length1 == bestMove.Length1 == |right| + 1
    modifies costs, bestMove
    ensures forall i :: 0 <= i <= |left| ==> IsEntry(costs[i, 0], bestMove[i, 0], left, i, right, 0)
    ensures forall j :: 0 <= j <= |right| ==> IsEntry(costs[0, j], bestMove[0, j], left, 0, right, j)
  {
    for i := 0 to |left| + 1
      invariant forall k :: 0 <= k < i ==> IsEntry(costs[k, 0], bestMove[k, 0], left, k, right, 0)
    {
      costs[i, 0] := i as real;
      bestMove[i, 0] := Remove;
    }
    for j := 1 to |right| + 1
      invariant forall k :: 0 <= k <= |left| ==> IsEntry(costs[k, 0], bestMove[k, 0], left, k, right, 0)
      invariant forall k :: 0 <= k < j ==> IsEntry(costs[0, k], bestMove[0, k], left, 0, right, k)
    {
      costs[0, j] := j as real;
      bestMove[0, j] := Add;
    }
  }

  method FillTable(costs: array2<real>, bestMove: array2<EditType>, left: seq<nat>, right: seq<nat>)
    requires costs.Length0 == bestMove.Length0 == |left| + 1 && costs.Length1 == bestMove.Length1 == |right| + 1
    requires forall i :: 0 <= i <= |left| ==> IsEntry(costs[i, 0], bestMove[i, 0], left, i, right, 0)
    requires forall j :: 0 <= j <= |right| ==> IsEntry(costs[0, j], bestMove[0, j], left, 0, right, j)
    modifies costs, bestMove
    ensures forall i, j :: 0 <= i <= |left| && 0 <= j <= |right| ==>
      IsEntry(costs[i, j], bestMove[i, j], left, i, right, j)
  {
    hide IsEntry;
    for l := 0 to |left|
      invariant forall i, j :: 0 <= i <= |left| && 0 <= j <= |right| && (i <= l || j == 0) ==>
        IsEntry(costs[i, j], bestMove[i, j], left, i, right, j)
    {
      for r := 0 to |right|
        invariant forall i, j ::
          0 <= i <= |left| && 0 <= j <= |right| && (i <= l || j == 0 || (i == l + 1 && j <= r)) ==>
          IsEntry(costs[i, j], bestMove[i, j], left, i, right, j)
      {
        FillEntry(costs, bestMove, left, l, right, r);
      }
    }
  }

  method FillEntry(costs: array2<real>, bestMove: array2<EditType>, left: seq<nat>, l: nat, right: seq<nat>, r: nat)
    requires costs.Length0 == bestMove.Length0 == |left| + 1 && costs.Length1 == bestMove.Length1 == |right| + 1
    requires l < |left| && r < |right|
    requires IsEntry(costs[l, r], bestMove[l, r], left, l, right, r)
    requires IsEntry(costs[l + 1, r], bestMove[l + 1, r], left, l + 1, right, r)
    requires IsEntry(costs[l, r + 1], bestMove[l, r + 1], left, l, right, r + 1)
    modifies costs, bestMove
    ensures IsEntry(costs[l + 1, r + 1], bestMove[l + 1, r + 1], left, l + 1, right, r + 1)
    ensures forall i, j :: 0 <= i <= |left| && 0 <= j <= |right| && (i != l + 1 || j != r + 1) ==>
      costs[i, j] == old(costs[i, j]) && bestMove[i, j] == old(bestMove[i, j])
  {
    if left[l] == right[r] {
      costs[l + 1, r + 1] := costs[l, r];
      bestMove[l + 1, r + 1] := Match;
    } else {
      var add, remove, replace := costs[l + 1, r], costs[l, r + 1], costs[l, r];
      if add < remove && add < replace {
        costs[l + 1, r + 1] := add + 1.0;
        bestMove[l + 1, r + 1] := Add;
      } else if remove < add && remove < replace {
        costs[l + 1, r + 1] := remove + 1.0;
        bestMove[l + 1, r + 1] := Remove;
      } else {
        costs[l + 1, r + 1] := replace + REPLACE_COST;
        bestMove[l + 1, r + 1] := Replace;
      }
    }
  }

  lemma TraceStep(cost: real, move: EditType, left: seq<nat>, i: nat, right: seq<nat>, j: nat)
    requires i <= |left| && j <= |right| && (i > 0 || j > 0) && IsEntry(cost, move, left, i, right, j)
    ensures CanMove(move, i, j)
    ensures Trace(left, i, right, j) == Trace(left, BeforeLeft(move, i), right, BeforeRight(move, j)) + [move]
  {
  }

  lemma TraceEnd(left: seq<nat>, right: seq<nat>)
    ensures Trace(left, 0, right, 0) == []
  {
  }

  lemma ReversedEmpty<T>()
    ensures Reversed<T>([]) == []
  {
  }

  method Reconstruct(costs: array2<real>, bestMove: array2<EditType>, left: seq<nat>, right: seq<nat>)
    returns (bestPath: seq<EditType>)
    requires costs.Length0 == bestMove.Length0 == |left| + 1 && costs.Length1 == bestMove.Length1 == |right| + 1
    requires forall i, j :: 0 <= i <= |left| && 0 <= j <= |right| ==>
      IsEntry(costs[i, j], bestMove[i, j], left, i, right, j)
    ensures bestPath == Trace(left, |left|, right, |right|)
  {
    hide Cost, BestMove, Trace, Reversed, IsEntry;
    bestPath := [];
    ReversedEmpty<EditType>();
    var l, r := |left|, |right|;
    while l > 0 || r > 0
      invariant 0 <= l <= |left| && 0 <= r <= |right|
      invariant Trace(left, |left|, right, |right|) == Trace(left, l, right, r) + Reversed(bestPath)
      decreases l + r
    {
      assert IsEntry(costs[l, r], bestMove[l, r], left, l, right, r);
      var move := bestMove[l, r];
      TraceStep(costs[l, r], move, left, l, right, r);
      ReversedAppend(bestPath, move);
      bestPath := bestPath + [move];
      l := l - if move != Add then 1 else 0;
      r := r - if move != Remove then 1 else 0;
    }
    TraceEnd(left, right);
    bestPath := Reversed(bestPath);
  }
}
