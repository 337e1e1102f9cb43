/** A concrete two-agent game of depth one: the maximizer chooses between
    two moves, after each of which the one adversary has a single reply,
    leading to states the evaluation scores 10 and 7. Every agent picks
    the move towards 10. Beside it, a ghost choosing between replies worth
    4 and 10, and a reflex agent beside a ghost. */
module Scenarios {
  import opened Games
  import opened Search
  import opened AlphaBeta
  import opened Evaluation

  /** State 0 is the root; the maximizer's moves 0 and 1 lead to states 1
      and 2; the adversary's only move leads on to states 3 and 4. */
  function TenOrSevenLegal(s: int, agent: nat): seq<int>
  {
    if s == 0 && agent == 0 then [0, 1]
    else if (s == 1 || s == 2) && agent == 1 then [0]
    else []
  }

  function TenOrSevenSucc(s: int, agent: nat, act: int): int
  {
    if s == 0 then 1 + act else s + 2
  }

  function TenOrSevenEval(s: int): real
  {
    if s == 3 then 10.0 else if s == 4 then 7.0 else 0.0
  }

  function TenOrSeven(): Game<int, int>
  {
    Game(2, TenOrSevenLegal, TenOrSevenSucc)
  }

  /** The adversary's reply below a maximizer move is worth what the
      evaluation gives the state it leads to. */
  lemma ReplyValue(s: int)
    requires s == 1 || s == 2
    ensures Value(Minimax, TenOrSeven(), TenOrSevenEval, s, 1, 1) == TenOrSevenEval(s + 2)
  {
    var g := TenOrSeven();
    var vals := NodeChildren(Minimax, g, TenOrSevenEval, s, 1, 1);
    assert vals[0] == Value(Minimax, g, TenOrSevenEval, s + 2, 0, 0);
    assert vals == [vals[0]];
    MinIsMin(vals);
  }

  /** The root's children are worth 10 and 7, and the first is the first
      of largest value. */
  lemma TenOrSevenRoot()
    ensures RootValues(Minimax, TenOrSeven(), TenOrSevenEval, 0, 1) == [10.0, 7.0]
    ensures IsFirstMax(RootValues(Minimax, TenOrSeven(), TenOrSevenEval, 0, 1), 0)
  {
    ReplyValue(1);
    ReplyValue(2);
    var vals := RootValues(Minimax, TenOrSeven(), TenOrSevenEval, 0, 1);
    assert |vals| == 2;
    assert vals[0] == 10.0 && vals[1] == 7.0;
    assert vals == [10.0, 7.0];
  }

  /** The minimax agent and the alpha-beta agent both choose move 0. */
  method TenOrSevenChoice() returns (minimaxMove: int, alphaBetaMove: Option<int>)
    ensures minimaxMove == 0 && alphaBetaMove == Some(0)
  {
    var g := TenOrSeven();
    TenOrSevenRoot();
    minimaxMove := MinimaxAction(g, TenOrSevenEval, 0, 1);
    alphaBetaMove := AlphaBetaAction(g, TenOrSevenEval, 0, 1);
    ghost var vals := RootValues(Minimax, g, TenOrSevenEval, 0, 1);
    ghost var k: nat :| IsFirstMax(vals, k) && minimaxMove == g.legal(0, 0)[k];
    FirstMaxUnique(vals, k, 0);
    ghost var k': nat :| IsFirstMax(vals, k') && alphaBetaMove == Some(g.legal(0, 0)[k']);
    FirstMaxUnique(vals, k', 0);
  }

  /** At state 0 the one ghost has two replies, leading to states 1 and 2,
      which the evaluation scores 4 and 10. */
  function FourOrTenLegal(s: int, agent: nat): seq<int>
  {
    if s == 0 && agent == 1 then [0, 1] else []
  }

  function FourOrTenSucc(s: int, agent: nat, act: int): int
  {
    if s == 0 then 1 + act else s
  }

  function FourOrTenEval(s: int): real
  {
    if s == 1 then 4.0 else if s == 2 then 10.0 else 0.0
  }

  function FourOrTen(): Game<int, int>
  {
    Game(2, FourOrTenLegal, FourOrTenSucc)
  }

  /** The ghost's node is worth exactly 7 under expectimax, the mean of its
      two replies, and 4 under minimax. */
  lemma FourOrTenChance()
    ensures Value(Expectimax, FourOrTen(), FourOrTenEval, 0, 1, 1) == 7.0
    ensures Value(Minimax, FourOrTen(), FourOrTenEval, 0, 1, 1) == 4.0
  {
    var g := FourOrTen();
    var e := NodeChildren(Expectimax, g, FourOrTenEval, 0, 1, 1);
    var m := NodeChildren(Minimax, g, FourOrTenEval, 0, 1, 1);
    assert e[0] == Value(Expectimax, g, FourOrTenEval, 1, 0, 0);
    assert e[1] == Value(Expectimax, g, FourOrTenEval, 2, 0, 0);
    assert m[0] == Value(Minimax, g, FourOrTenEval, 1, 0, 0);
    assert m[1] == Value(Minimax, g, FourOrTenEval, 2, 0, 0);
    assert e == [4.0, 10.0] && m == [4.0, 10.0];
    ChanceOfFourAndTen();
  }

  /** Pacman at (0, 0) with one ghost at (1, 0), no food, no capsule and
      score 0; move 0 steps east onto the ghost, any other move north. */
  function GhostBeside(): Snapshot
  {
    Snapshot(Pos(0, 0), [], [Ghost(Pos(1, 0), 0)], [], 0)
  }

  function StepSucc(s: Snapshot, agent: nat, act: int): Snapshot
  {
    if act == 0 then s.(pacman := Pos(s.pacman.x + 1, s.pacman.y))
    else s.(pacman := Pos(s.pacman.x, s.pacman.y + 1))
  }

  function Steps(): Game<Snapshot, int>
  {
    Game(2, (s: Snapshot, agent: nat) => [0, 1], StepSucc)
  }

  /** Stepping onto the ghost scores the collision value -50; stepping
      beside it scores its distance 2 to the ghost; so whatever the random
      choice, the reflex agent steps beside the ghost. */
  lemma GhostBesideReflex(pick: nat)
    ensures ReflexEval(Steps(), GhostBeside(), 0) == -50
    ensures ReflexEval(Steps(), GhostBeside(), 1) == 2
    ensures ReflexAction(Steps(), GhostBeside(), pick) == 1
  {
    var g, s := Steps(), GhostBeside();
    assert GhostPositions(s) == [Pos(1, 0)];
    assert Collides(g, s, 0);
    var next := g.succ(s, 0, 1);
    assert next.pacman == Pos(0, 1);
    assert GhostPositions(next) == [Pos(1, 0)];
    assert !Collides(g, s, 1);
    assert LexMin(GhostPositions(next)) == Pos(1, 0);
    assert ScaredTimes(next) == [0];
    assert SumInts([0]) == SumInts([]) + 0;
  }
}
