/** Minimax with alpha-beta pruning (AlphaBetaAgent): the recursive search
    and its two loops, each proved against the pure minimax value, and the
    root loop that picks the move. */
module AlphaBeta {
  import opened Games
  import opened Search

  datatype Option<T> = None | Some(value: T)

  /** What a search under the window [a, b] may return for a node whose
      minimax value is m: m itself when m lies in the window, and otherwise
      a value on the same side of the window that bounds m from the window's
      side (fail-soft). */
  predicate Sound(a: Ext, b: Ext, m: real, r: real)
  {
    && (Le(a, Fin(m)) && Le(Fin(m), b) ==> r == m)
    && (Lt(Fin(m), a) ==> m <= r && Lt(Fin(r), a))
    && (Lt(b, Fin(m)) ==> r <= m && Lt(b, Fin(r)))
  }

  /** alpha_beta_pr: the evaluation once no depth is left, otherwise the
      maximizer's or an adversary's loop. */
  method SearchNode<S, A>(g: Game<S, A>, eval: S -> real, s: S, a: Ext, b: Ext, depth: nat, agent: nat) returns (r: real)
    requires g.Valid() && agent < g.agents && Le(a, b)
    ensures Sound(a, b, Value(Minimax, g, eval, s, depth, agent), r)
    ensures depth == 0 || |g.legal(s, agent)| == 0 ==> r == eval(s)
    decreases depth, g.agents - agent, 1
  {
    if depth == 0 {
      return eval(s);
    }
    if agent == 0 {
      r := MaxVal(g, eval, s, a, b, depth, agent);
    } else {
      r := MinVal(g, eval, s, a, b, depth, agent);
    }
  }

  /** What maxval keeps true between two children, where `mx` is the largest
      minimax value among the children searched so far (minus infinity before
      the first): no pruning yet, so `mx` is within `b`; the running value `v`
      is exact once `mx` reaches the caller's `a`, and below `a` but at least
      `mx` before that. */
  predicate MaxLoopInv(a: Ext, b: Ext, v: Ext, mx: Ext)
  {
    && Le(mx, b) && Le(v, b)
    && (Le(a, mx) ==> v == mx)
    && (Lt(mx, a) ==> Le(mx, v) && Lt(v, a))
  }

  /** One child of maxval, of minimax value `x`, searched under
      [max(a, v), b] with a sound result `c`, inside a node of minimax value
      `m` at least `x` and `mx`: when the new running value exceeds `b` (a
      prune) it is a sound result for the whole node; otherwise the loop
      invariant carries over to the next child. */
  lemma MaxLoopStep(a: Ext, b: Ext, v: Ext, mx: Ext, x: real, c: real, m: real)
    requires Le(a, b) && MaxLoopInv(a, b, v, mx)
    requires Sound(ExtMax(a, v), b, x, c)
    requires Le(mx, Fin(m)) && x <= m
    ensures var v', mx' := ExtMax(v, Fin(c)), ExtMax(mx, Fin(x));
      && (Lt(b, v') ==> v'.Fin? && Sound(a, b, m, v'.r))
      && (!Lt(b, v') ==> MaxLoopInv(a, b, v', mx'))
  {
  }

  /** Once every child is searched without a prune the running value is a
      sound result for the node. */
  lemma MaxLoopDone(a: Ext, b: Ext, v: Ext, m: real)
    requires Le(a, b) && MaxLoopInv(a, b, v, Fin(m))
    ensures v.Fin? && Sound(a, b, m, v.r)
  {
  }

  /** What minval keeps true between two children; the mirror image of
      MaxLoopInv, with `mn` the least minimax value among the children so far. */
  predicate MinLoopInv(a: Ext, b: Ext, v: Ext, mn: Ext)
  {
    && Le(a, mn) && Le(a, v)
    && (Le(mn, b) ==> v == mn)
    && (Lt(b, mn) ==> Le(v, mn) && Lt(b, v))
  }

  /** One child of minval, searched under [a, min(b, v)]: a prune below `a`
      is a sound result for the node; otherwise the invariant carries over. */
  lemma MinLoopStep(a: Ext, b: Ext, v: Ext, mn: Ext, x: real, c: real, m: real)
    requires Le(a, b) && MinLoopInv(a, b, v, mn)
    requires Sound(a, ExtMin(b, v), x, c)
    requires Le(Fin(m), mn) && m <= x
    ensures var v', mn' := ExtMin(v, Fin(c)), ExtMin(mn, Fin(x));
      && (Lt(v', a) ==> v'.Fin? && Sound(a, b, m, v'.r))
      && (!Lt(v', a) ==> MinLoopInv(a, b, v', mn'))
  {
  }

  /** Once every child is searched without a prune the running value is a
      sound result for the node. */
  lemma MinLoopDone(a: Ext, b: Ext, v: Ext, m: real)
    requires Le(a, b) && MinLoopInv(a, b, v, Fin(m))
    ensures v.Fin? && Sound(a, b, m, v.r)
  {
  }

  /** Where maxval stands before child `i`: the local `alpha` is the caller's
      `a` raised to the running value `v`, the window is still non-empty, and
      MaxLoopInv holds for the largest minimax value among the first `i`
      children. */
  predicate MaxScan(a: Ext, b: Ext, alpha: Ext, v: Ext, vals: seq<real>, i: nat)
    requires i <= |vals|
  {
    alpha == ExtMax(a, v) && Le(alpha, b) && MaxLoopInv(a, b, v, PrefixMax(vals, i))
  }

  /** Child `i` of maxval, searched under [alpha, b] with a sound result `c`:
      a prune gives a sound result for the node of value Max(vals), and
      otherwise the scan moves on to child i + 1. */
  lemma MaxScanStep(a: Ext, b: Ext, alpha: Ext, v: Ext, vals: seq<real>, i: nat, c: real)
    requires Le(a, b) && i < |vals| && MaxScan(a, b, alpha, v, vals, i)
    requires Sound(alpha, b, vals[i], c)
    ensures var v' := ExtMax(v, Fin(c));
      && (Lt(b, v') ==> v'.Fin? && Sound(a, b, Max(vals), v'.r))
      && (!Lt(b, v') ==> MaxScan(a, b, ExtMax(alpha, v'), v', vals, i + 1))
  {
    if i > 0 {
      PrefixMaxIsMax(vals, i);
    }
    MaxIsMax(vals);
    MaxLoopStep(a, b, v, PrefixMax(vals, i), vals[i], c, Max(vals));
  }

  /** A scan of every child without a prune gives a sound result for the node. */
  lemma MaxScanDone(a: Ext, b: Ext, alpha: Ext, v: Ext, vals: seq<real>)
    requires Le(a, b) && |vals| > 0 && MaxScan(a, b, alpha, v, vals, |vals|)
    ensures v.Fin? && Sound(a, b, Max(vals), v.r)
  {
    PrefixMaxIsMax(vals, |vals|);
    assert vals[..|vals|] == vals;
    MaxLoopDone(a, b, v, Max(vals));
  }

  /** maxval: scan the maximizer's actions, keeping the best value so far,
      returning it at once when it exceeds `b`, and raising the local copy of
      `a` to it before the next child. */
  method MaxVal<S, A>(g: Game<S, A>, eval: S -> real, s: S, a: Ext, b: Ext, depth: nat, agent: nat) returns (r: real)
    requires g.Valid() && agent == 0 && depth > 0 && Le(a, b)
    ensures Sound(a, b, Value(Minimax, g, eval, s, depth, agent), r)
    ensures |g.legal(s, agent)| == 0 ==> r == eval(s)
    decreases depth, g.agents - agent, 0
  {
    var actions := g.legal(s, agent);
    if |actions| == 0 {
      return eval(s);
    }
    ghost var vals := ChildValues(Minimax, g, eval, s, depth, agent);
    var alpha := a;
    var v := NegInf;
    var i := 0;
    while i < |actions|
      invariant 0 <= i <= |actions|
      invariant MaxScan(a, b, alpha, v, vals, i)
    {
      var state := g.succ(s, agent, actions[i]);
      var c := SearchNode(g, eval, state, alpha, b, depth, agent + 1);
      ChildValueAt(Minimax, g, eval, s, depth, agent, i);
      MaxScanStep(a, b, alpha, v, vals, i, c);
      v := ExtMax(v, Fin(c));
      if Lt(b, v) {
        return v.r;
      }
      alpha := ExtMax(alpha, v);
      i := i + 1;
    }
    MaxScanDone(a, b, alpha, v, vals);
    return v.r;
  }

  /** Where minval stands before child `i`; the mirror image of MaxScan. */
  predicate MinScan(a: Ext, b: Ext, beta: Ext, v: Ext, vals: seq<real>, i: nat)
    requires i <= |vals|
  {
    beta == ExtMin(b, v) && Le(a, beta) && MinLoopInv(a, b, v, PrefixMin(vals, i))
  }

  /** Child `i` of minval, searched under [a, beta] with a sound result `c`:
      a prune gives a sound result for the node of value Min(vals), and
      otherwise the scan moves on to child i + 1. */
  lemma MinScanStep(a: Ext, b: Ext, beta: Ext, v: Ext, vals: seq<real>, i: nat, c: real)
    requires Le(a, b) && i < |vals| && MinScan(a, b, beta, v, vals, i)
    requires Sound(a, beta, vals[i], c)
    ensures var v' := ExtMin(v, Fin(c));
      && (Lt(v', a) ==> v'.Fin? && Sound(a, b, Min(vals), v'.r))
      && (!Lt(v', a) ==> MinScan(a, b, ExtMin(beta, v'), v', vals, i + 1))
  {
    if i > 0 {
      PrefixMinIsMin(vals, i);
    }
    MinIsMin(vals);
    MinLoopStep(a, b, v, PrefixMin(vals, i), vals[i], c, Min(vals));
  }

  /** A scan of every child without a prune gives a sound result for the node. */
  lemma MinScanDone(a: Ext, b: Ext, beta: Ext, v: Ext, vals: seq<real>)
    requires Le(a, b) && |vals| > 0 && MinScan(a, b, beta, v, vals, |vals|)
    ensures v.Fin? && Sound(a, b, Min(vals), v.r)
  {
    PrefixMinIsMin(vals, |vals|);
    assert vals[..|vals|] == vals;
    MinLoopDone(a, b, v, Min(vals));
  }

  /** minval: scan an adversary's actions, keeping the least value so far,
      returning it at once when it falls below `a`, and lowering the local copy
      of `b` to it before the next child. The last adversary's children are
      searched at the maximizer with one round less. */
  method MinVal<S, A>(g: Game<S, A>, eval: S -> real, s: S, a: Ext, b: Ext, depth: nat, agent: nat) returns (r: real)
    requires g.Valid() && 0 < agent < g.agents && depth > 0 && Le(a, b)
    ensures Sound(a, b, Value(Minimax, g, eval, s, depth, agent), r)
    ensures |g.legal(s, agent)| == 0 ==> r == eval(s)
    decreases depth, g.agents - agent, 0
  {
    var actions := g.legal(s, agent);
    if |actions| == 0 {
      return eval(s);
    }
    ghost var vals := ChildValues(Minimax, g, eval, s, depth, agent);
    var beta := b;
    var v := PosInf;
    var i := 0;
    while i < |actions|
      invariant 0 <= i <= |actions|
      invariant MinScan(a, b, beta, v, vals, i)
    {
      var state := g.succ(s, agent, actions[i]);
      var c: real;
      ChildValueAt(Minimax, g, eval, s, depth, agent, i);
      if agent + 1 == g.agents {
        c := SearchNode(g, eval, state, a, beta, depth - 1, 0);
        assert Sound(a, beta, vals[i], c);
      } else {
        c := SearchNode(g, eval, state, a, beta, depth, agent + 1);
        assert Sound(a, beta, vals[i], c);
      }
      MinScanStep(a, b, beta, v, vals, i, c);
      v := ExtMin(v, Fin(c));
      if Lt(v, a) {
        return v.r;
      }
      beta := ExtMin(beta, v);
      i := i + 1;
    }
    MinScanDone(a, b, beta, v, vals);
    return v.r;
  }

  /** AlphaBetaAgent.getAction: search every root action under the window
      (-inf, +inf), raising `a` to the best value so far, and keep an action
      only when its value strictly beats that best. No legal action gives no
      move; otherwise the move is the first of largest minimax value, the
      same one the unpruned minimax agent returns. */
  method AlphaBetaAction<S, A>(g: Game<S, A>, eval: S -> real, s: S, depth: nat) returns (move: Option<A>)
    requires g.Valid()
    ensures |g.legal(s, 0)| == 0 ==> move == None
    ensures |g.legal(s, 0)| > 0 ==>
      exists k: nat :: IsFirstMax(RootValues(Minimax, g, eval, s, depth), k) && move == Some(g.legal(s, 0)[k])
  {
    var actions := g.legal(s, 0);
    ghost var vals := RootValues(Minimax, g, eval, s, depth);
    move := None;
    var v := NegInf;
    var a := NegInf;
    var b := PosInf;
    ghost var best := 0;
    var i := 0;
    while i < |actions|
      invariant 0 <= i <= |actions|
      invariant a == v && b == PosInf
      invariant i == 0 ==> v == NegInf && move == None
      invariant i > 0 ==> best < i && move == Some(actions[best]) && v == Fin(vals[best])
      invariant i > 0 ==> forall j :: 0 <= j < i ==> vals[j] <= vals[best]
      invariant i > 0 ==> forall j :: 0 <= j < best ==> vals[j] < vals[best]
    {
      var state := g.succ(s, 0, actions[i]);
      var cost := SearchNode(g, eval, state, a, b, depth, 1);
      if Lt(v, Fin(cost)) {
        move := Some(actions[i]);
        v := Fin(cost);
        best := i;
      }
      if Lt(b, v) {
        break;
      }
      a := ExtMax(a, v);
      i := i + 1;
    }
    if |actions| > 0 {
      assert IsFirstMax(vals, best);
    }
  }
}
