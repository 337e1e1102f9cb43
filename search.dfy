/** Minimax and expectimax: the game value of a node as a pure recursive
    function, the facts that define it node by node, and the root loops
    of MinimaxAgent.getAction and ExpectimaxAgent.getAction. */
module Search {
  import opened Games

  /** How adversary nodes combine their children: worst case or uniform mean. */
  datatype Mode = Minimax | Expectimax

  /** The value of a node from the values of its children: the maximizer
      takes the largest; an adversary the smallest (minimax) or the sum of
      each value divided by the number of children (expectimax). */
  function Combine(mode: Mode, agent: nat, vals: seq<real>): real
    requires |vals| > 0
  {
    if agent == 0 then Max(vals)
    else match mode
      case Minimax => Min(vals)
      case Expectimax => ScaledSum(vals, |vals| as real)
  }

  /** Whatever the strategy, a node's value lies between its smallest and its
      largest child; a maximizer node is at least every child, and a minimax
      adversary node at most every child. */
  lemma CombineBetween(mode: Mode, agent: nat, vals: seq<real>)
    requires |vals| > 0
    ensures Min(vals) <= Combine(mode, agent, vals) <= Max(vals)
    ensures agent == 0 ==> forall k :: 0 <= k < |vals| ==> vals[k] <= Combine(mode, agent, vals)
    ensures agent != 0 && mode == Minimax ==> forall k :: 0 <= k < |vals| ==> Combine(mode, agent, vals) <= vals[k]
  {
    if agent != 0 && mode == Expectimax {
      MeanBetween(vals);
    } else {
      MinIsMin(vals);
      MaxIsMax(vals);
    }
  }

  /** The search value of `s` with `depth` rounds left and `agent` to move:
      the evaluation at the cutoff (no depth left, or no legal action for
      the agent to move), otherwise the combination of the children's values. */
  function Value<S, A>(mode: Mode, g: Game<S, A>, eval: S -> real, s: S, depth: nat, agent: nat): real
    requires g.Valid() && agent < g.agents
    decreases depth, g.agents - agent, 1
  {
    if depth == 0 then eval(s)
    else if |g.legal(s, agent)| == 0 then eval(s)
    else Combine(mode, agent, ChildValues(mode, g, eval, s, depth, agent))
  }

  /** The values of the successors of `s`, one per legal action of `agent`
      in enumeration order, each searched at the turn that follows. */
  function ChildValues<S, A>(mode: Mode, g: Game<S, A>, eval: S -> real, s: S, depth: nat, agent: nat): (vals: seq<real>)
    requires g.Valid() && agent < g.agents && depth > 0
    ensures |vals| == |g.legal(s, agent)|
    decreases depth, g.agents - agent, 0
  {
    var acts := g.legal(s, agent);
    var next := Advance(g.agents, Turn(depth, agent));
    seq(|acts|, k requires 0 <= k < |acts| => Value(mode, g, eval, g.succ(s, agent, acts[k]), next.depth, next.agent))
  }

  /** The k-th child value is the value of the k-th successor, searched at
      the turn that follows. */
  lemma ChildValueAt<S, A>(mode: Mode, g: Game<S, A>, eval: S -> real, s: S, depth: nat, agent: nat, k: nat)
    requires g.Valid() && agent < g.agents && depth > 0 && k < |g.legal(s, agent)|
    ensures var next := Advance(g.agents, Turn(depth, agent));
      ChildValues(mode, g, eval, s, depth, agent)[k]
        == Value(mode, g, eval, g.succ(s, agent, g.legal(s, agent)[k]), next.depth, next.agent)
  {
  }

  /** The children of a node that is not a cutoff, as a sequence of values
      together with the facts a search loop needs: one value per legal
      action, each the value of that successor at the next turn, and the
      node's value their combination. */
  lemma NodeChildren<S, A>(mode: Mode, g: Game<S, A>, eval: S -> real, s: S, depth: nat, agent: nat)
      returns (vals: seq<real>)
    requires g.Valid() && agent < g.agents && depth > 0 && |g.legal(s, agent)| > 0
    ensures |vals| == |g.legal(s, agent)|
    ensures var next := Advance(g.agents, Turn(depth, agent));
      forall k :: 0 <= k < |vals| ==> vals[k] == Value(mode, g, eval, g.succ(s, agent, g.legal(s, agent)[k]), next.depth, next.agent)
    ensures Value(mode, g, eval, s, depth, agent) == Combine(mode, agent, vals)
  {
    vals := ChildValues(mode, g, eval, s, depth, agent);
  }

  /** Cutoff: with no depth left, or no legal action for the agent to move,
      both strategies, minimax and expectimax, score the state with the
      evaluation function, whatever depth remains. */
  lemma Cutoff<S, A>(mode: Mode, g: Game<S, A>, eval: S -> real, s: S, depth: nat, agent: nat)
    requires g.Valid() && agent < g.agents
    requires depth == 0 || |g.legal(s, agent)| == 0
    ensures Value(mode, g, eval, s, depth, agent) == eval(s)
  {
  }

  /** A maximizer node is worth the largest of its children, each searched
      at agent 1 with the same depth. */
  lemma MaxNode<S, A>(mode: Mode, g: Game<S, A>, eval: S -> real, s: S, depth: nat)
    requires g.Valid() && depth > 0 && |g.legal(s, 0)| > 0
    ensures var vals := ChildValues(mode, g, eval, s, depth, 0);
      && (forall k :: 0 <= k < |vals| ==> vals[k] == Value(mode, g, eval, g.succ(s, 0, g.legal(s, 0)[k]), depth, 1))
      && Value(mode, g, eval, s, depth, 0) == Max(vals)
  {
  }

  /** A minimax adversary node is worth the smallest of its children; the
      last adversary's children are searched at the maximizer with one round
      less, any other adversary's at the next adversary with the same depth. */
  lemma MinNode<S, A>(g: Game<S, A>, eval: S -> real, s: S, depth: nat, agent: nat)
    requires g.Valid() && 0 < agent < g.agents && depth > 0 && |g.legal(s, agent)| > 0
    ensures var vals := ChildValues(Minimax, g, eval, s, depth, agent);
      var acts := g.legal(s, agent);
      && (agent + 1 == g.agents ==> forall k :: 0 <= k < |vals| ==> vals[k] == Value(Minimax, g, eval, g.succ(s, agent, acts[k]), depth - 1, 0))
      && (agent + 1 < g.agents ==> forall k :: 0 <= k < |vals| ==> vals[k] == Value(Minimax, g, eval, g.succ(s, agent, acts[k]), depth, agent + 1))
      && Value(Minimax, g, eval, s, depth, agent) == Min(vals)
  {
  }

  /** An expectimax adversary node is worth the exact mean of its children:
      their sum divided by the number of legal actions at that node; so it
      lies between its smallest and its largest child. */
  lemma ChanceNode<S, A>(g: Game<S, A>, eval: S -> real, s: S, depth: nat, agent: nat)
    requires g.Valid() && 0 < agent < g.agents && depth > 0 && |g.legal(s, agent)| > 0
    ensures var vals := ChildValues(Expectimax, g, eval, s, depth, agent);
      var v := Value(Expectimax, g, eval, s, depth, agent);
      && v == Sum(vals) / (|g.legal(s, agent)| as real)
      && Min(vals) <= v <= Max(vals)
  {
    var vals := ChildValues(Expectimax, g, eval, s, depth, agent);
    ScaledSumIsSumOver(vals, |vals| as real);
    CombineBetween(Expectimax, agent, vals);
  }

  /** Two children worth 4 and 10 make a chance node worth exactly 7, where
      a minimax adversary would settle for 4. */
  lemma ChanceOfFourAndTen()
    ensures Combine(Expectimax, 1, [4.0, 10.0]) == 7.0
    ensures Combine(Minimax, 1, [4.0, 10.0]) == 4.0
  {
    var s := [4.0, 10.0];
    assert s[..1] == [4.0];
    assert s[..1][..0] == [];
    assert ScaledSum(s[..1], 2.0) == 2.0;
    assert ScaledSum(s, 2.0) == 2.0 + 5.0;
  }

  /** Expectimax never values a node below minimax: the two agree at the
      cutoff and at the maximizer's nodes, and a mean is never below a minimum. */
  lemma {:induction false} MinimaxBelowExpectimax<S, A>(g: Game<S, A>, eval: S -> real, s: S, depth: nat, agent: nat)
    requires g.Valid() && agent < g.agents
    ensures Value(Minimax, g, eval, s, depth, agent) <= Value(Expectimax, g, eval, s, depth, agent)
    decreases depth, g.agents - agent
  {
    if depth > 0 && |g.legal(s, agent)| > 0 {
      var u := ChildValues(Minimax, g, eval, s, depth, agent);
      var w := ChildValues(Expectimax, g, eval, s, depth, agent);
      var acts := g.legal(s, agent);
      var next := Advance(g.agents, Turn(depth, agent));
      forall k | 0 <= k < |u|
        ensures u[k] <= w[k]
      {
        MinimaxBelowExpectimax(g, eval, g.succ(s, agent, acts[k]), next.depth, next.agent);
      }
      if agent == 0 {
        MaxMonotone(u, w);
      } else {
        MinMonotone(u, w);
        MeanBetween(w);
      }
    }
  }

  // ---------------------------------------------------------------------
  // Root action selection.

  /** The values of the root's children: each legal action of the maximizer,
      searched at agent 1 with the full depth. */
  function RootValues<S, A>(mode: Mode, g: Game<S, A>, eval: S -> real, s: S, depth: nat): (vals: seq<real>)
    requires g.Valid()
    ensures |vals| == |g.legal(s, 0)|
  {
    var acts := g.legal(s, 0);
    seq(|acts|, k requires 0 <= k < |acts| => Value(mode, g, eval, g.succ(s, 0, acts[k]), depth, 1))
  }

  /** `k` is the first index holding the largest value. */
  predicate IsFirstMax(vals: seq<real>, k: nat)
  {
    && k < |vals|
    && (forall j :: 0 <= j < |vals| ==> vals[j] <= vals[k])
    && (forall j :: 0 <= j < k ==> vals[j] < vals[k])
  }

  /** At most one index is the first to hold the largest value. */
  lemma FirstMaxUnique(vals: seq<real>, k1: nat, k2: nat)
    requires IsFirstMax(vals, k1) && IsFirstMax(vals, k2)
    ensures k1 == k2
  {
    assert vals[k1] == vals[k2];
  }

  /** The root loop shared by the minimax and expectimax agents: start with
      the first action and move on to a later one only when its value is
      strictly greater, so the move returned is the first one of largest value. */
  method SelectAction<S, A>(mode: Mode, g: Game<S, A>, eval: S -> real, s: S, depth: nat) returns (move: A)
    requires g.Valid() && |g.legal(s, 0)| > 0
    ensures exists k: nat :: IsFirstMax(RootValues(mode, g, eval, s, depth), k) && move == g.legal(s, 0)[k]
  {
    var actions := g.legal(s, 0);
    ghost var vals := RootValues(mode, g, eval, s, depth);
    var firstState := g.succ(s, 0, actions[0]);
    var cost := Value(mode, g, eval, firstState, depth, 1);
    move := actions[0];
    ghost var best := 0;
    var i := 1;
    while i < |actions|
      invariant 1 <= i <= |actions|
      invariant best < i && move == actions[best] && cost == vals[best]
      invariant forall j :: 0 <= j < i ==> vals[j] <= cost
      invariant forall j :: 0 <= j < best ==> vals[j] < cost
    {
      var state := g.succ(s, 0, actions[i]);
      var newCost := Value(mode, g, eval, state, depth, 1);
      if newCost > cost {
        cost := newCost;
        move := actions[i];
        best := i;
      }
      i := i + 1;
    }
    assert IsFirstMax(vals, best);
  }

  /** MinimaxAgent.getAction: the first legal move of largest minimax value. */
  method MinimaxAction<S, A>(g: Game<S, A>, eval: S -> real, s: S, depth: nat) returns (move: A)
    requires g.Valid() && |g.legal(s, 0)| > 0
    ensures exists k: nat :: IsFirstMax(RootValues(Minimax, g, eval, s, depth), k) && move == g.legal(s, 0)[k]
  {
    move := SelectAction(Minimax, g, eval, s, depth);
  }

  /** ExpectimaxAgent.getAction: the first legal move of largest expectimax value. */
  method ExpectimaxAction<S, A>(g: Game<S, A>, eval: S -> real, s: S, depth: nat) returns (move: A)
    requires g.Valid() && |g.legal(s, 0)| > 0
    ensures exists k: nat :: IsFirstMax(RootValues(Expectimax, g, eval, s, depth), k) && move == g.legal(s, 0)[k]
  {
    move := SelectAction(Expectimax, g, eval, s, depth);
  }
}
