/** The vocabulary shared by every search strategy: the game as seen through
    its state interface, the turn order with its depth bookkeeping, the
    extended reals used for the alpha-beta bounds, and the folds (max, min,
    sum, mean) that combine the values of sibling nodes. */
module Games {

  /** A turn-taking game seen through its state interface: the number of
      agents (index 0 is the maximizer, 1 .. agents-1 the adversaries),
      the legal actions of an agent in a state, and the successor state
      reached when that agent takes an action. States are values: a
      transition never changes the state it starts from. */
  datatype Game<!S, !A> = Game(agents: nat, legal: (S, nat) -> seq<A>, succ: (S, nat, A) -> S)
  {
    /** At least one adversary moves between two maximizer turns. */
    predicate Valid() { agents >= 2 }
  }

  /** The remaining depth (counted in full rounds) and the agent to move. */
  datatype Turn = Turn(depth: nat, agent: nat)

  /** The turn after `t.agent` has moved: the maximizer hands over to agent 1,
      an adversary to the next one, and the last adversary wraps round to
      the maximizer while one round of depth is used up. */
  function Advance(n: nat, t: Turn): (r: Turn)
    requires n >= 2 && t.agent < n && t.depth > 0
    ensures r.agent < n && r.agent == (t.agent + 1) % n
    ensures r.depth < t.depth || (r.depth == t.depth && r.agent > t.agent)
    ensures r.depth == t.depth <==> r.agent != 0
    ensures r.depth + 1 >= t.depth
  {
    if t.agent == 0 then Turn(t.depth, 1)
    else if t.agent + 1 == n then Turn(t.depth - 1, 0)
    else Turn(t.depth, t.agent + 1)
  }

  /** The turn after `k` single-agent moves, stopping once no depth is left. */
  function AdvanceN(n: nat, t: Turn, k: nat): Turn
    requires n >= 2 && t.agent < n
    decreases k
  {
    if k == 0 || t.depth == 0 then t else AdvanceN(n, Advance(n, t), k - 1)
  }

  /** From the maximizer's turn, one round is exactly `n` single-agent moves:
      after k < n of them the depth is untouched and agent k is to move, and
      only the n-th move wraps round to the maximizer with one round less. */
  lemma {:induction false} RoundOfMoves(n: nat, d: nat, k: nat)
    requires n >= 2 && d > 0 && k <= n
    ensures k < n ==> AdvanceN(n, Turn(d, 0), k) == Turn(d, k)
    ensures k == n ==> AdvanceN(n, Turn(d, 0), k) == Turn(d - 1, 0)
  {
    if k > 0 {
      AdversaryMoves(n, d, 1, k - 1);
    }
  }

  /** From adversary `j`'s turn, the next `m` moves stay in the same round
      until the last adversary has moved. */
  lemma {:induction false} AdversaryMoves(n: nat, d: nat, j: nat, m: nat)
    requires n >= 2 && d > 0 && 1 <= j < n && j + m <= n
    decreases m
    ensures j + m < n ==> AdvanceN(n, Turn(d, j), m) == Turn(d, j + m)
    ensures j + m == n ==> AdvanceN(n, Turn(d, j), m) == Turn(d - 1, 0)
  {
    if m > 0 {
      if j + 1 < n {
        AdversaryMoves(n, d, j + 1, m - 1);
      } else {
        assert AdvanceN(n, Turn(d, j), m) == AdvanceN(n, Turn(d - 1, 0), m - 1);
      }
    }
  }

  // ---------------------------------------------------------------------
  // Extended reals: the bounds of alpha-beta start at minus and plus infinity.

  datatype Ext = NegInf | Fin(r: real) | PosInf

  predicate Le(x: Ext, y: Ext)
  {
    x == NegInf || y == PosInf || (x.Fin? && y.Fin? && x.r <= y.r)
  }

  predicate Lt(x: Ext, y: Ext)
  {
    !Le(y, x)
  }

  /** The larger of two bounds, the first one when they are equal. */
  function ExtMax(x: Ext, y: Ext): (m: Ext)
    ensures Le(x, m) && Le(y, m)
    ensures m == x || m == y
  {
    if Lt(x, y) then y else x
  }

  /** The smaller of two bounds, the first one when they are equal. */
  function ExtMin(x: Ext, y: Ext): (m: Ext)
    ensures Le(m, x) && Le(m, y)
    ensures m == x || m == y
  {
    if Lt(y, x) then y else x
  }

  // ---------------------------------------------------------------------
  // Folds over the values of sibling nodes, scanning left to right.

  /** The largest value; a later value replaces the current one only when
      strictly larger. */
  function Max(s: seq<real>): real
    requires |s| > 0
  {
    if |s| == 1 then s[0]
    else
      var p := Max(s[..|s| - 1]);
      if s[|s| - 1] > p then s[|s| - 1] else p
  }

  /** The smallest value; a later value replaces the current one only when
      strictly smaller. */
  function Min(s: seq<real>): real
    requires |s| > 0
  {
    if |s| == 1 then s[0]
    else
      var p := Min(s[..|s| - 1]);
      if s[|s| - 1] < p then s[|s| - 1] else p
  }

  /** Max is the largest value: at least every value, and one of them. */
  lemma {:induction false} MaxIsMax(s: seq<real>)
    requires |s| > 0
    ensures forall k :: 0 <= k < |s| ==> s[k] <= Max(s)
    ensures exists k :: 0 <= k < |s| && s[k] == Max(s)
  {
    if |s| > 1 {
      var p := s[..|s| - 1];
      MaxIsMax(p);
      var j :| 0 <= j < |p| && p[j] == Max(p);
      if s[|s| - 1] > Max(p) {
        assert s[|s| - 1] == Max(s);
      } else {
        assert s[j] == Max(s);
      }
      assert forall k :: 0 <= k < |p| ==> s[k] == p[k];
    } else {
      assert s[0] == Max(s);
    }
  }

  /** Min is the smallest value: at most every value, and one of them. */
  lemma {:induction false} MinIsMin(s: seq<real>)
    requires |s| > 0
    ensures forall k :: 0 <= k < |s| ==> Min(s) <= s[k]
    ensures exists k :: 0 <= k < |s| && s[k] == Min(s)
  {
    if |s| > 1 {
      var p := s[..|s| - 1];
      MinIsMin(p);
      var j :| 0 <= j < |p| && p[j] == Min(p);
      if s[|s| - 1] < Min(p) {
        assert s[|s| - 1] == Min(s);
      } else {
        assert s[j] == Min(s);
      }
      assert forall k :: 0 <= k < |p| ==> s[k] == p[k];
    } else {
      assert s[0] == Min(s);
    }
  }

  /** The sum of the values, added left to right from zero. The evaluators
      sum integer scared timers, and keep their own integer copy of this
      fold in Evaluation.SumInts so that their scores stay integers. */
  function Sum(s: seq<real>): real
  {
    if |s| == 0 then 0.0 else Sum(s[..|s| - 1]) + s[|s| - 1]
  }

  /** The sum of every value divided by `n`, added left to right from zero. */
  function ScaledSum(s: seq<real>, n: real): real
    requires n != 0.0
  {
    if |s| == 0 then 0.0 else ScaledSum(s[..|s| - 1], n) + s[|s| - 1] / n
  }

  /** The largest of the first `i` values, minus infinity when there are none. */
  function PrefixMax(s: seq<real>, i: nat): Ext
    requires i <= |s|
  {
    if i == 0 then NegInf else ExtMax(PrefixMax(s, i - 1), Fin(s[i - 1]))
  }

  /** The least of the first `i` values, plus infinity when there are none. */
  function PrefixMin(s: seq<real>, i: nat): Ext
    requires i <= |s|
  {
    if i == 0 then PosInf else ExtMin(PrefixMin(s, i - 1), Fin(s[i - 1]))
  }

  /** Scanning every value with ExtMax gives Max; each prefix stays below it. */
  lemma {:induction false} PrefixMaxIsMax(s: seq<real>, i: nat)
    requires 0 < i <= |s|
    ensures PrefixMax(s, i) == Fin(Max(s[..i]))
    ensures Le(PrefixMax(s, i), Fin(Max(s)))
  {
    if i > 1 {
      PrefixMaxIsMax(s, i - 1);
      MaxStep(s, i - 1);
    } else {
      assert s[..1] == [s[0]];
    }
    MaxIsMax(s[..i]);
    MaxIsMax(s);
    var k :| 0 <= k < i && s[..i][k] == Max(s[..i]);
    assert s[k] <= Max(s);
  }

  /** Scanning every value with ExtMin gives Min; each prefix stays above it. */
  lemma {:induction false} PrefixMinIsMin(s: seq<real>, i: nat)
    requires 0 < i <= |s|
    ensures PrefixMin(s, i) == Fin(Min(s[..i]))
    ensures Le(Fin(Min(s)), PrefixMin(s, i))
  {
    if i > 1 {
      PrefixMinIsMin(s, i - 1);
      MinStep(s, i - 1);
    } else {
      assert s[..1] == [s[0]];
    }
    MinIsMin(s[..i]);
    MinIsMin(s);
    var k :| 0 <= k < i && s[..i][k] == Min(s[..i]);
    assert Min(s) <= s[k];
  }

  /** Extending a prefix by one value extends its maximum the same way. */
  lemma MaxStep(s: seq<real>, i: nat)
    requires 0 < i < |s|
    ensures Max(s[..i + 1]) == if s[i] > Max(s[..i]) then s[i] else Max(s[..i])
  {
    assert s[..i + 1][..i] == s[..i];
  }

  /** Extending a prefix by one value extends its minimum the same way. */
  lemma MinStep(s: seq<real>, i: nat)
    requires 0 < i < |s|
    ensures Min(s[..i + 1]) == if s[i] < Min(s[..i]) then s[i] else Min(s[..i])
  {
    assert s[..i + 1][..i] == s[..i];
  }

  /** Dividing each term by `n` is dividing the sum by `n`. */
  lemma {:induction false} ScaledSumIsSumOver(s: seq<real>, n: real)
    requires n != 0.0
    ensures ScaledSum(s, n) == Sum(s) / n
  {
    if |s| > 0 {
      var p := s[..|s| - 1];
      var x := s[|s| - 1];
      ScaledSumIsSumOver(p, n);
      assert Sum(p) / n + x / n == (Sum(p) + x) / n;
    }
  }

  /** The sum of values all at least `lo` and at most `hi` lies between
      |s| times `lo` and |s| times `hi`. */
  lemma {:induction false} SumBetween(s: seq<real>, lo: real, hi: real)
    requires forall k :: 0 <= k < |s| ==> lo <= s[k] <= hi
    ensures (|s| as real) * lo <= Sum(s) <= (|s| as real) * hi
  {
    if |s| > 0 {
      var p := s[..|s| - 1];
      SumBetween(p, lo, hi);
      assert (|s| as real) * lo == (|p| as real) * lo + lo;
      assert (|s| as real) * hi == (|p| as real) * hi + hi;
    }
  }

  /** The mean lies between the smallest and the largest value. */
  lemma MeanBetween(s: seq<real>)
    requires |s| > 0
    ensures Min(s) <= ScaledSum(s, |s| as real) <= Max(s)
  {
    MinIsMin(s);
    MaxIsMax(s);
    MeanWithin(s, Min(s), Max(s));
  }

  /** The mean of values within [lo, hi] is within [lo, hi]. */
  lemma MeanWithin(s: seq<real>, lo: real, hi: real)
    requires |s| > 0
    requires forall k :: 0 <= k < |s| ==> lo <= s[k] <= hi
    ensures lo <= ScaledSum(s, |s| as real) <= hi
  {
    var n := |s| as real;
    SumBetween(s, lo, hi);
    DivideBounds(Sum(s), n, lo, hi);
    ScaledSumIsSumOver(s, n);
  }

  lemma DivideBounds(x: real, n: real, lo: real, hi: real)
    requires n > 0.0 && n * lo <= x <= n * hi
    ensures lo <= x / n <= hi
  {
    assert x / n * n == x;
  }

  /** Max is monotone: raising every value does not lower the maximum. */
  lemma MaxMonotone(u: seq<real>, w: seq<real>)
    requires |u| == |w| > 0
    requires forall k :: 0 <= k < |u| ==> u[k] <= w[k]
    ensures Max(u) <= Max(w)
  {
    MaxIsMax(u);
    MaxIsMax(w);
    var k :| 0 <= k < |u| && u[k] == Max(u);
    assert w[k] <= Max(w);
  }

  /** Min is monotone: raising every value does not lower the minimum. */
  lemma MinMonotone(u: seq<real>, w: seq<real>)
    requires |u| == |w| > 0
    requires forall k :: 0 <= k < |u| ==> u[k] <= w[k]
    ensures Min(u) <= Min(w)
  {
    MinIsMin(u);
    MinIsMin(w);
    var k :| 0 <= k < |w| && w[k] == Min(w);
    assert Min(u) <= u[k];
  }
}
