/** The evaluation side of the agents: the parts of a Pacman game state the
    evaluators read, the reflex agent's evaluation of a state-action pair and
    its choice among the best-scoring moves, the evaluation that scores a
    state by its game score, and the hand-written betterEvaluationFunction. */
module Evaluation {
  import opened Games
  import Search

  /** A grid position; positions compare as Python tuples do. */
  datatype Pos = Pos(x: int, y: int)

  /** A ghost: where it is, and for how many more moves it stays scared. */
  datatype Ghost = Ghost(pos: Pos, scaredTimer: int)

  /** What the evaluators read from a game state: Pacman's position, the
      remaining food, the ghosts, the remaining power capsules and the score. */
  datatype Snapshot = Snapshot(pacman: Pos, food: seq<Pos>, ghosts: seq<Ghost>, capsules: seq<Pos>, score: int)

  function Abs(n: int): nat
  {
    if n < 0 then -n else n
  }

  /** The Manhattan (L1) distance between two positions: never negative,
      zero exactly between equal positions, and the same both ways. */
  function Manhattan(p: Pos, q: Pos): (d: int)
    ensures d >= 0
    ensures d == 0 <==> p == q
    ensures d == Abs(q.x - p.x) + Abs(q.y - p.y)
  {
    Abs(p.x - q.x) + Abs(p.y - q.y)
  }

  /** Python's ordering of pairs: by the first coordinate, then the second. */
  predicate LexLe(p: Pos, q: Pos)
  {
    p.x < q.x || (p.x == q.x && p.y <= q.y)
  }

  /** The least position in the order of pairs: one of them, and at most
      every one. */
  function LexMin(ps: seq<Pos>): (m: Pos)
    requires |ps| > 0
    ensures m in ps
    ensures forall k :: 0 <= k < |ps| ==> LexLe(m, ps[k])
  {
    if |ps| == 1 then ps[0]
    else
      var p := LexMin(ps[..|ps| - 1]);
      assert forall k :: 0 <= k < |ps| - 1 ==> ps[..|ps| - 1][k] == ps[k];
      if LexLe(p, ps[|ps| - 1]) then p else ps[|ps| - 1]
  }

  /** The greatest position in the order of pairs: one of them, and at least
      every one. */
  function LexMax(ps: seq<Pos>): (m: Pos)
    requires |ps| > 0
    ensures m in ps
    ensures forall k :: 0 <= k < |ps| ==> LexLe(ps[k], m)
  {
    if |ps| == 1 then ps[0]
    else
      var p := LexMax(ps[..|ps| - 1]);
      assert forall k :: 0 <= k < |ps| - 1 ==> ps[..|ps| - 1][k] == ps[k];
      if LexLe(ps[|ps| - 1], p) then p else ps[|ps| - 1]
  }

  /** The order of pairs is total and antisymmetric, so the least and the
      greatest position of a collection are the only ones with their
      properties. */
  lemma LexExtremesUnique(ps: seq<Pos>, p: Pos)
    requires p in ps
    ensures (forall k :: 0 <= k < |ps| ==> LexLe(p, ps[k])) ==> p == LexMin(ps)
    ensures (forall k :: 0 <= k < |ps| ==> LexLe(ps[k], p)) ==> p == LexMax(ps)
  {
    var i :| 0 <= i < |ps| && ps[i] == LexMin(ps);
    var j :| 0 <= j < |ps| && ps[j] == LexMax(ps);
  }

  /** The positions of the ghosts, in ghost order. */
  function GhostPositions(s: Snapshot): (ps: seq<Pos>)
    ensures |ps| == |s.ghosts|
    ensures forall k :: 0 <= k < |ps| ==> ps[k] == s.ghosts[k].pos
  {
    seq(|s.ghosts|, k requires 0 <= k < |s.ghosts| => s.ghosts[k].pos)
  }

  /** The scared timers of the ghosts, in ghost order. */
  function ScaredTimes(s: Snapshot): (ts: seq<int>)
    ensures |ts| == |s.ghosts|
    ensures forall k :: 0 <= k < |ts| ==> ts[k] == s.ghosts[k].scaredTimer
  {
    seq(|s.ghosts|, k requires 0 <= k < |s.ghosts| => s.ghosts[k].scaredTimer)
  }

  /** The sum of a sequence of integers, added left to right. */
  function SumInts(s: seq<int>): int
  {
    if |s| == 0 then 0 else SumInts(s[..|s| - 1]) + s[|s| - 1]
  }

  /** The distance from `p` to the nearest of `ps`: at most the distance to
      each, and the distance to one of them. */
  function NearestDistance(p: Pos, ps: seq<Pos>): (d: int)
    requires |ps| > 0
    ensures forall k :: 0 <= k < |ps| ==> d <= Manhattan(p, ps[k])
    ensures exists k :: 0 <= k < |ps| && d == Manhattan(p, ps[k])
  {
    if |ps| == 1 then Manhattan(p, ps[0])
    else
      var d0 := NearestDistance(p, ps[..|ps| - 1]);
      assert forall k :: 0 <= k < |ps| - 1 ==> ps[..|ps| - 1][k] == ps[k];
      var last := Manhattan(p, ps[|ps| - 1]);
      if last < d0 then last else d0
  }

  /** The distance from `p` to the farthest of `ps`: at least the distance
      to each, and the distance to one of them. */
  function FarthestDistance(p: Pos, ps: seq<Pos>): (d: int)
    requires |ps| > 0
    ensures forall k :: 0 <= k < |ps| ==> Manhattan(p, ps[k]) <= d
    ensures exists k :: 0 <= k < |ps| && d == Manhattan(p, ps[k])
  {
    if |ps| == 1 then Manhattan(p, ps[0])
    else
      var d0 := FarthestDistance(p, ps[..|ps| - 1]);
      assert forall k :: 0 <= k < |ps| - 1 ==> ps[..|ps| - 1][k] == ps[k];
      var last := Manhattan(p, ps[|ps| - 1]);
      if last > d0 then last else d0
  }

  // ---------------------------------------------------------------------
  // scoreEvaluationFunction

  /** The default evaluation of the search agents: the state's game score. */
  function ScoreEval(s: Snapshot): real
  {
    s.score as real
  }

  /** With the default evaluation, minimax and expectimax value a
      cutoff state at its game score. */
  lemma ScoreAtCutoff<A>(mode: Search.Mode, g: Game<Snapshot, A>, s: Snapshot, depth: nat, agent: nat)
    requires g.Valid() && agent < g.agents
    requires depth == 0 || |g.legal(s, agent)| == 0
    ensures Search.Value(mode, g, ScoreEval, s, depth, agent) == s.score as real
  {
    Search.Cutoff(mode, g, ScoreEval, s, depth, agent);
  }

  // ---------------------------------------------------------------------
  // betterEvaluationFunction

  /** The distance from `p` to the farthest of `ps`, or 0 when there are
      none (the source subtracts it only when there are some). */
  function FarthestOrZero(p: Pos, ps: seq<Pos>): int
  {
    if |ps| > 0 then FarthestDistance(p, ps) else 0
  }

  /** The state's score, plus the distance to the nearest ghost, plus the
      ghosts' scared timers, minus the distance to the farthest food and to
      the farthest capsule when any remain. With no ghost the source's
      `min` has nothing to choose from, so at least one ghost is required. */
  function BetterEval(s: Snapshot): int
    requires |s.ghosts| > 0
  {
    var pos := s.pacman;
    s.score + NearestDistance(pos, GhostPositions(s)) + SumInts(ScaredTimes(s))
      - FarthestOrZero(pos, s.food) - FarthestOrZero(pos, s.capsules)
  }

  /** `d` is the distance from `p` to the nearest of `ps`. */
  predicate IsNearest(p: Pos, ps: seq<Pos>, d: int)
  {
    && (forall k :: 0 <= k < |ps| ==> d <= Manhattan(p, ps[k]))
    && (exists k :: 0 <= k < |ps| && d == Manhattan(p, ps[k]))
  }

  /** `d` is the distance from `p` to the farthest of `ps`, or 0 when `ps`
      is empty. */
  predicate IsFarthestOrZero(p: Pos, ps: seq<Pos>, d: int)
  {
    if |ps| == 0 then d == 0
    else
      && (forall k :: 0 <= k < |ps| ==> Manhattan(p, ps[k]) <= d)
      && (exists k :: 0 <= k < |ps| && d == Manhattan(p, ps[k]))
  }

  /** The nearest distance is the only number with its two properties. */
  lemma NearestUnique(p: Pos, ps: seq<Pos>, d: int)
    requires |ps| > 0 && IsNearest(p, ps, d)
    ensures d == NearestDistance(p, ps)
  {
    var i :| 0 <= i < |ps| && d == Manhattan(p, ps[i]);
    var i' :| 0 <= i' < |ps| && NearestDistance(p, ps) == Manhattan(p, ps[i']);
  }

  /** The farthest distance is the only number with its two properties. */
  lemma FarthestUnique(p: Pos, ps: seq<Pos>, d: int)
    requires IsFarthestOrZero(p, ps, d)
    ensures d == FarthestOrZero(p, ps)
  {
    if |ps| > 0 {
      var j :| 0 <= j < |ps| && d == Manhattan(p, ps[j]);
      var j' :| 0 <= j' < |ps| && FarthestDistance(p, ps) == Manhattan(p, ps[j']);
    }
  }

  /** What BetterEval scores, stated without the distance functions: for
      the distance `dg` to the nearest ghost and the distances `df` and `dc`
      to the farthest food and capsule (0 when none remain), it is the score
      plus `dg` plus the scared timers minus `df` and `dc`. */
  lemma BetterEvalCharacterized(s: Snapshot, dg: int, df: int, dc: int)
    requires |s.ghosts| > 0
    requires IsNearest(s.pacman, GhostPositions(s), dg)
    requires IsFarthestOrZero(s.pacman, s.food, df)
    requires IsFarthestOrZero(s.pacman, s.capsules, dc)
    ensures BetterEval(s) == s.score + dg + SumInts(ScaredTimes(s)) - df - dc
  {
    NearestUnique(s.pacman, GhostPositions(s), dg);
    FarthestUnique(s.pacman, s.food, df);
    FarthestUnique(s.pacman, s.capsules, dc);
  }

  // ---------------------------------------------------------------------
  // ReflexAgent.evaluationFunction and ReflexAgent.getAction

  /** Pacman's move `action` ends on a square where a ghost of the current
      state stands. */
  predicate Collides<A>(g: Game<Snapshot, A>, current: Snapshot, action: A)
  {
    g.succ(current, 0, action).pacman in GhostPositions(current)
  }

  /** The reflex evaluation has a value: either the move collides, or the
      successor has a ghost for the source's `min` to choose. */
  predicate ReflexDefined<A>(g: Game<Snapshot, A>, current: Snapshot, action: A)
  {
    Collides(g, current, action) || |g.succ(current, 0, action).ghosts| > 0
  }

  /** The distance from `p` to the greatest of `ps` in the order of pairs,
      or 0 when there are none. */
  function GreatestOrZero(p: Pos, ps: seq<Pos>): int
  {
    if |ps| > 0 then Manhattan(p, LexMax(ps)) else 0
  }

  /** The reflex agent's evaluation of Pacman taking `action` in `current`:
      -50 when the move runs into a ghost; otherwise the successor's score,
      5 more for a square with food in the current state, plus the distance
      to the least ghost position in the order of pairs and the successor's
      scared timers, minus the distance to the greatest remaining food and
      the greatest remaining capsule in that order, when there are any. */
  function ReflexEval<A>(g: Game<Snapshot, A>, current: Snapshot, action: A): (r: int)
    requires ReflexDefined(g, current, action)
    ensures Collides(g, current, action) ==> r == -50
  {
    var next := g.succ(current, 0, action);
    var pos := next.pacman;
    if pos in GhostPositions(current) then -50
    else
      var base := if pos in current.food then next.score + 5 else next.score;
      base + Manhattan(pos, LexMin(GhostPositions(next))) + SumInts(ScaredTimes(next))
        - GreatestOrZero(pos, next.food) - GreatestOrZero(pos, next.capsules)
  }

  /** `q` is the least of `ps` in the order of pairs. */
  predicate IsLexLeast(q: Pos, ps: seq<Pos>)
  {
    q in ps && forall k :: 0 <= k < |ps| ==> LexLe(q, ps[k])
  }

  /** `d` is the distance from `p` to the greatest of `ps` in the order of
      pairs, or 0 when `ps` is empty. */
  predicate IsLexGreatestOrZero(p: Pos, ps: seq<Pos>, d: int)
  {
    if |ps| == 0 then d == 0
    else exists k :: 0 <= k < |ps| && d == Manhattan(p, ps[k]) && IsLexGreatestAt(ps, k)
  }

  /** `ps[k]` is the greatest of `ps` in the order of pairs. */
  predicate IsLexGreatestAt(ps: seq<Pos>, k: nat)
    requires k < |ps|
  {
    forall j :: 0 <= j < |ps| ==> LexLe(ps[j], ps[k])
  }

  /** What ReflexEval scores away from a ghost, stated without the search
      for extremes: for the least successor ghost `q` and the distances `df`
      and `dc` to the greatest remaining food and capsule (0 when none),
      it is the successor's score, plus 5 when the square had food in the
      current state, plus the distance to `q` and the scared timers, minus
      `df` and `dc`. */
  lemma ReflexEvalCharacterized<A>(g: Game<Snapshot, A>, current: Snapshot, action: A,
                                   q: Pos, df: int, dc: int)
    requires !Collides(g, current, action)
    requires IsLexLeast(q, GhostPositions(g.succ(current, 0, action)))
    requires IsLexGreatestOrZero(g.succ(current, 0, action).pacman, g.succ(current, 0, action).food, df)
    requires IsLexGreatestOrZero(g.succ(current, 0, action).pacman, g.succ(current, 0, action).capsules, dc)
    ensures var next := g.succ(current, 0, action);
      ReflexEval(g, current, action)
        == next.score + (if next.pacman in current.food then 5 else 0)
           + Manhattan(next.pacman, q) + SumInts(ScaredTimes(next)) - df - dc
  {
    var next := g.succ(current, 0, action);
    LexExtremesUnique(GhostPositions(next), q);
    GreatestIsUnique(next.pacman, next.food, df);
    GreatestIsUnique(next.pacman, next.capsules, dc);
  }

  /** The greatest-or-zero distance is the only number with its property. */
  lemma GreatestIsUnique(p: Pos, ps: seq<Pos>, d: int)
    requires IsLexGreatestOrZero(p, ps, d)
    ensures d == GreatestOrZero(p, ps)
  {
    if |ps| > 0 {
      var k :| 0 <= k < |ps| && d == Manhattan(p, ps[k]) && IsLexGreatestAt(ps, k);
      LexExtremesUnique(ps, ps[k]);
    }
  }

  /** The least ghost in the order of pairs is no nearer than the nearest
      ghost, and is the nearest when it is the only one. */
  lemma LeastNoNearer(p: Pos, ps: seq<Pos>)
    requires |ps| > 0
    ensures NearestDistance(p, ps) <= Manhattan(p, LexMin(ps))
    ensures |ps| == 1 ==> NearestDistance(p, ps) == Manhattan(p, LexMin(ps))
  {
    var i :| 0 <= i < |ps| && ps[i] == LexMin(ps);
  }

  /** The greatest position in the order of pairs is no farther than the
      farthest, and is the farthest when there is at most one. */
  lemma GreatestNoFarther(p: Pos, ps: seq<Pos>)
    ensures GreatestOrZero(p, ps) <= FarthestOrZero(p, ps)
    ensures |ps| <= 1 ==> GreatestOrZero(p, ps) == FarthestOrZero(p, ps)
  {
    if |ps| > 0 {
      var i :| 0 <= i < |ps| && ps[i] == LexMax(ps);
    }
  }

  /** Away from a ghost, the reflex evaluation of a move is at least
      betterEvaluationFunction of the successor plus the food bonus: the
      least ghost position is no nearer than the nearest ghost, and the
      greatest food and capsule positions are no farther than the farthest.
      With one ghost and at most one food and one capsule the two agree. */
  lemma ReflexAtLeastBetter<A>(g: Game<Snapshot, A>, current: Snapshot, action: A)
    requires ReflexDefined(g, current, action) && !Collides(g, current, action)
    ensures var next := g.succ(current, 0, action);
      var bonus := if next.pacman in current.food then 5 else 0;
      && ReflexEval(g, current, action) >= BetterEval(next) + bonus
      && (|next.ghosts| == 1 && |next.food| <= 1 && |next.capsules| <= 1 ==>
            ReflexEval(g, current, action) == BetterEval(next) + bonus)
  {
    var next := g.succ(current, 0, action);
    LeastNoNearer(next.pacman, GhostPositions(next));
    GreatestNoFarther(next.pacman, next.food);
    GreatestNoFarther(next.pacman, next.capsules);
  }

  /** The reflex scores of Pacman's legal moves, in move order. */
  function ReflexScores<A>(g: Game<Snapshot, A>, s: Snapshot): (scores: seq<real>)
    requires forall k :: 0 <= k < |g.legal(s, 0)| ==> ReflexDefined(g, s, g.legal(s, 0)[k])
    ensures |scores| == |g.legal(s, 0)|
    ensures forall k :: 0 <= k < |scores| ==> scores[k] == ReflexEval(g, s, g.legal(s, 0)[k]) as real
  {
    var moves := g.legal(s, 0);
    seq(|moves|, k requires 0 <= k < |moves| => ReflexEval(g, s, moves[k]) as real)
  }

  /** The indices of the entries of `s` equal to `x`, in increasing order. */
  function IndicesOf(s: seq<real>, x: real): (r: seq<nat>)
    ensures forall i: nat :: i in r <==> i < |s| && s[i] == x
    ensures forall j, k :: 0 <= j < k < |r| ==> r[j] < r[k]
  {
    if |s| == 0 then []
    else
      var p := IndicesOf(s[..|s| - 1], x);
      assert forall i: nat :: i < |s| - 1 ==> s[..|s| - 1][i] == s[i];
      assert forall j :: 0 <= j < |p| ==> p[j] in p;
      if s[|s| - 1] == x then p + [|s| - 1] else p
  }

  /** The indices of the largest value are those whose value is at least
      every value, and there is at least one. */
  lemma IndicesOfMax(s: seq<real>)
    requires |s| > 0
    ensures |IndicesOf(s, Max(s))| > 0
    ensures forall k: nat :: k in IndicesOf(s, Max(s)) <==> k < |s| && forall j :: 0 <= j < |s| ==> s[j] <= s[k]
  {
    MaxIsMax(s);
    var w :| 0 <= w < |s| && s[w] == Max(s);
    assert w in IndicesOf(s, Max(s));
    forall k: nat | k < |s| && (forall j :: 0 <= j < |s| ==> s[j] <= s[k])
      ensures s[k] == Max(s)
    {
      assert s[w] <= s[k];
    }
  }

  /** Legal move `k` scores at least as well as every legal move. */
  predicate IsBestMove<A>(g: Game<Snapshot, A>, s: Snapshot, k: nat)
    requires k < |g.legal(s, 0)|
    requires forall j :: 0 <= j < |g.legal(s, 0)| ==> ReflexDefined(g, s, g.legal(s, 0)[j])
  {
    forall j :: 0 <= j < |g.legal(s, 0)| ==> ReflexEval(g, s, g.legal(s, 0)[j]) <= ReflexEval(g, s, g.legal(s, 0)[k])
  }

  /** The source's `bestIndices`: the indices of the moves whose score is
      the largest score, in increasing order. There is at least one, and
      the indices are exactly those of the best moves. */
  function BestIndices<A>(g: Game<Snapshot, A>, s: Snapshot): (r: seq<nat>)
    requires |g.legal(s, 0)| > 0
    requires forall k :: 0 <= k < |g.legal(s, 0)| ==> ReflexDefined(g, s, g.legal(s, 0)[k])
    ensures |r| > 0
    ensures forall k: nat :: k in r <==> k < |g.legal(s, 0)| && IsBestMove(g, s, k)
    ensures forall j, k :: 0 <= j < k < |r| ==> r[j] < r[k]
  {
    var scores := ReflexScores(g, s);
    var r := IndicesOf(scores, Max(scores));
    IndicesOfMax(scores);
    assert forall k: nat :: k < |scores| ==> (IsBestMove(g, s, k) <==> forall j :: 0 <= j < |scores| ==> scores[j] <= scores[k]);
    r
  }

  /** ReflexAgent.getAction: score every legal move, keep the indices of the
      moves with the best score, and return the one that `pick` (standing
      for the random choice) selects; there must be a legal move and every
      evaluation must be defined. The move is a legal move that no legal
      move outscores. */
  function ReflexAction<A>(g: Game<Snapshot, A>, s: Snapshot, pick: nat): (move: A)
    requires |g.legal(s, 0)| > 0
    requires forall k :: 0 <= k < |g.legal(s, 0)| ==> ReflexDefined(g, s, g.legal(s, 0)[k])
    ensures exists k: nat :: k < |g.legal(s, 0)| && g.legal(s, 0)[k] == move && IsBestMove(g, s, k)
  {
    var bestIndices := BestIndices(g, s);
    var chosen := bestIndices[pick % |bestIndices|];
    assert chosen in bestIndices;
    g.legal(s, 0)[chosen]
  }

  /** An index below the count is its own remainder. Kept apart from
      ReflexActionCovers, where the same fact stated inline costs the solver
      more than the resource limit allows. */
  lemma SmallRemainder(a: nat, n: nat)
    requires a < n
    ensures a % n == a
  {
  }

  /** Every best-scoring legal move is the one returned for some outcome of
      the random choice. */
  lemma ReflexActionCovers<A>(g: Game<Snapshot, A>, s: Snapshot, k: nat)
    requires k < |g.legal(s, 0)|
    requires forall j :: 0 <= j < |g.legal(s, 0)| ==> ReflexDefined(g, s, g.legal(s, 0)[j])
    requires IsBestMove(g, s, k)
    ensures exists pick: nat :: ReflexAction(g, s, pick) == g.legal(s, 0)[k]
  {
    var bestIndices := BestIndices(g, s);
    assert k in bestIndices;
    var pick :| 0 <= pick < |bestIndices| && bestIndices[pick] == k;
    SmallRemainder(pick, |bestIndices|);
    assert ReflexAction(g, s, pick) == g.legal(s, 0)[k];
  }
}
