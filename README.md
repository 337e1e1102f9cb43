# Pacman adversarial search agents, modelled in Dafny

This project models the search and evaluation core of the Berkeley Pacman
multi-agent project (`multiAgents.py`):

- the minimax agent, whose game value is the largest child at Pacman's
  turn (agent 0) and the smallest at each ghost's;
- the alpha-beta agent, which computes the same tree with pruning; its
  bounds `a` and `b` are local copies raised or lowered inside each loop;
- the expectimax agent, where each ghost node is the exact mean of its
  children;
- the root loops that pick Pacman's move;
- the reflex agent's evaluation of a state-action pair, and its choice
  among the best-scoring moves;
- `scoreEvaluationFunction` and `betterEvaluationFunction`.

The game is abstract. A `Game` value holds three things:

- the number of agents (at least two);
- the legal actions of an agent in a state;
- the successor function.

The evaluation function and the depth are parameters.

Minimax and expectimax take the next turn from one function, `Advance`.
The alpha-beta loops work out the next turn themselves, as the source
does, and their proofs tie each child to `Advance` through
`Search.ChildValueAt`. Pacman hands over to ghost 1. Each ghost hands over to the next one. The
last ghost wraps round to Pacman and one round of depth is used up.

Search values are exact reals. The bounds `float("-inf")` and
`float("inf")` are the extended reals `NegInf` and `PosInf`.

Minimax and expectimax are one pure function, `Search.Value`, which
differs only in how an adversary combines its children. The alpha-beta
loops (`maxval`, `minval`) and the two root loops (one shared by minimax
and expectimax, one for alpha-beta) are methods with `while` loops. They are proved against `Value`:

- An alpha-beta call under the window [a, b] returns the minimax value
  whenever that value lies in the window. Otherwise it returns a value on
  the same side of the window that bounds the minimax value (fail-soft).
- From this it follows that the alpha-beta root picks exactly the same
  move as the minimax root: the first move of largest minimax value.

The evaluators are functions over a `Snapshot`: Pacman's position, food,
ghosts with their scared timers, capsules and score. Positions are integer
pairs. The distance is Manhattan (L1) distance. Python's `min` and `max` on
position tuples are the least and greatest position in lexicographic order.

Files:

- `games.dfy`: the game, turns, extended reals, and the folds max, min,
  sum and mean.
- `search.dfy`: the game value, the node lemmas, and the minimax and
  expectimax root loops.
- `alphabeta.dfy`: `alpha_beta_pr`, `maxval`, `minval` and the alpha-beta
  root loop.
- `evaluation.dfy`: the three evaluation functions and the reflex agent.
- `scenarios.dfy`: three concrete games.
  - In the first, the maximizer's moves lead to values 10 and 7. Minimax
    and alpha-beta both pick the move towards 10.
  - In the second, a ghost's replies are worth 4 and 10. Expectimax values
    the ghost's node at exactly 7, minimax at 4.
  - In the third, the reflex agent avoids stepping onto a ghost.

The reflex evaluator's terms are not the nearest-ghost / farthest-food
heuristic they look like, and the model follows the code:

- On a collision it returns exactly -50. It does not add a -50 penalty to
  the rest of the score.
- Its ghost term is the distance to the lexicographically least ghost
  position, not to the nearest ghost.
- Its food and capsule terms use the lexicographically greatest position,
  not the farthest one.
- `Evaluation.ReflexAtLeastBetter` states how this differs from
  `betterEvaluationFunction`, which does use the nearest and farthest
  distances.

Pruning on strict inequalities might seem able to change which of several
equally valued moves alpha-beta picks. In this code it cannot:
`AlphaBeta.AlphaBetaAction` is proved to return minimax's first best move.

## Model

| member | source | states |
|---|---|---|
| Games.Advance | multiAgents.py:167-172 | the next agent is `(agent + 1) % N`, so Pacman hands to agent 1 and an adversary to the next one at the same depth; the last adversary hands to agent 0 with one round less (depth kept exactly when the next agent is not 0); every turn strictly progresses |
| Games.RoundOfMoves | multiAgents.py:167-172 | from Pacman's turn, after k < N single-agent moves agent k moves at the same depth, and only the N-th move returns to Pacman with one round less |
| Games.AdversaryMoves | multiAgents.py:169-172 | from adversary j's turn the following moves stay in the same round until the last adversary has moved, then wrap to agent 0 with depth - 1 |
| Games.ExtMax | multiAgents.py:217-221 | Python `max` on bounds: the result is at least both arguments and is one of them |
| Games.ExtMin | multiAgents.py:232-237 | Python `min` on bounds: the result is at most both arguments and is one of them |
| Games.Max | multiAgents.py:168 | definition of Python `max` on a non-empty list of values, as a left-to-right fold; specified by Games.MaxIsMax |
| Games.Min | multiAgents.py:170 | definition of Python `min` on a non-empty list of values; specified by Games.MinIsMin |
| Games.MaxIsMax | multiAgents.py:168 | the `max` of a non-empty list is at least every element and equal to one of them |
| Games.MinIsMin | multiAgents.py:170 | the `min` of a non-empty list is at most every element and equal to one of them |
| Games.PrefixMaxIsMax | multiAgents.py:216-217 | the running `v = max(v, ...)` from minus infinity after i children is the max of the first i values, and never above the max of all |
| Games.PrefixMinIsMin | multiAgents.py:229-234 | the running `v = min(v, ...)` from plus infinity after i children is the min of the first i values, and never below the min of all |
| Games.ScaledSum | multiAgents.py:277 | definition of the expectimax `sum([self.Expectimax(state, depth-1, 0)/len(states) for state in states])`; specified by Games.ScaledSumIsSumOver and Games.MeanBetween |
| Games.ScaledSumIsSumOver | multiAgents.py:277 | adding each child value divided by the number of children gives the sum of the values divided by that number |
| Games.MeanWithin | multiAgents.py:275-280 | the mean of values within [lo, hi] is within [lo, hi] |
| Games.MeanBetween | multiAgents.py:275-280 | the mean lies between the smallest and the largest value |
| Search.Combine | multiAgents.py:168-172 | definition of how a node combines its children (max for Pacman, min for a minimax ghost, the mean for an expectimax ghost, multiAgents.py:274-280); specified by Search.CombineBetween, Search.ChanceNode and Search.ChanceOfFourAndTen |
| Search.Value | multiAgents.py:158-172 | definition of the minimax value, and with the mean at ghost nodes the expectimax value (multiAgents.py:266-280); specified by Search.Cutoff, Search.MaxNode, Search.MinNode, Search.ChanceNode and Search.NodeChildren |
| Search.CombineBetween | multiAgents.py:272-280 | every node combination (max, min or mean) lies between the smallest and largest child; a max node is at least every child and a minimax min node at most every child |
| Search.ChildValues | multiAgents.py:164 | one child value per legal action of the agent to move |
| Search.ChildValueAt | multiAgents.py:168-172 | the k-th child value is the value of the k-th successor at the turn that follows |
| Search.NodeChildren | multiAgents.py:158-172 | at a node with depth left and legal actions, the value is the combination of one value per action, each that successor's value at the next turn |
| Search.Cutoff | multiAgents.py:160-166 | with depth 0, or no legal action for the agent to move, minimax and expectimax both return the evaluation of the state, whatever depth remains |
| Search.MaxNode | multiAgents.py:167-168 | a max node is the max of its children, each searched at agent 1 with the same depth |
| Search.MinNode | multiAgents.py:169-172 | a min node is the min of its children; the last adversary's children are searched at agent 0 with depth - 1, any other adversary's at the next agent with the same depth |
| Search.ChanceNode | multiAgents.py:275-280 | an expectimax adversary node equals the sum of its children divided by the number of legal actions there, and so lies between its smallest and largest child |
| Search.ChanceOfFourAndTen | multiAgents.py:275-277 | children worth 4 and 10 give a chance node worth exactly 7, where minimax gives 4 |
| Search.MinimaxBelowExpectimax | multiAgents.py:266-280 | for every state, depth and agent the minimax value is at most the expectimax value |
| Search.RootValues | multiAgents.py:147-152 | one root child value per legal move of Pacman |
| Search.FirstMaxUnique | multiAgents.py:150-155 | at most one index is the first holding the largest value, so the root choice is determined |
| Search.SelectAction | multiAgents.py:145-156 | the loop shared by both root agents returns the legal move at the first index of largest child value; it updates only on strict `>` |
| Search.MinimaxAction | multiAgents.py:145-156 | MinimaxAgent.getAction returns the first legal move of largest minimax value |
| Search.ExpectimaxAction | multiAgents.py:253-264 | ExpectimaxAgent.getAction returns the first legal move of largest expectimax value |
| AlphaBeta.SearchNode | multiAgents.py:201-209 | alpha_beta_pr under a non-empty window [a, b] returns the minimax value when it lies in the window, and otherwise a value beyond the same window edge that bounds it (fail-soft soundness); at depth 0, or with no legal action, it returns the evaluation of the state exactly, whatever the window (multiAgents.py:203-204) |
| AlphaBeta.MaxLoopStep | multiAgents.py:216-221 | one maxval child: a prune on `v > b` returns a sound result for the node, and otherwise the loop invariant carries to the next child |
| AlphaBeta.MaxLoopDone | multiAgents.py:222 | after all maxval children without a prune, `v` is a sound result for the node |
| AlphaBeta.MaxScanStep | multiAgents.py:216-221 | one maxval child searched under [max(a, v), b] keeps the scan invariant, including the raised local `a` staying within `b`, or gives a sound pruned result |
| AlphaBeta.MaxScanDone | multiAgents.py:222 | a full maxval scan ends with a sound result for the node |
| AlphaBeta.MaxVal | multiAgents.py:211-222 | maxval returns a sound result for the minimax value of a max node, and with no legal action returns the evaluation of the state exactly, whatever the window (multiAgents.py:212-214) |
| AlphaBeta.MinLoopStep | multiAgents.py:229-237 | one minval child: a prune on `v < a` returns a sound result for the node, and otherwise the loop invariant carries to the next child |
| AlphaBeta.MinLoopDone | multiAgents.py:238 | after all minval children without a prune, `v` is a sound result for the node |
| AlphaBeta.MinScanStep | multiAgents.py:229-237 | one minval child searched under [a, min(b, v)] keeps the scan invariant, or gives a sound pruned result |
| AlphaBeta.MinScanDone | multiAgents.py:238 | a full minval scan ends with a sound result for the node |
| AlphaBeta.MinVal | multiAgents.py:224-238 | minval returns a sound result for the minimax value of a min node; the last adversary's children go to agent 0 with depth - 1; with no legal action it returns the evaluation of the state exactly, whatever the window (multiAgents.py:225-227) |
| AlphaBeta.AlphaBetaAction | multiAgents.py:181-199 | with no legal move it returns None; otherwise it returns the first legal move of largest minimax value, the same move as the minimax agent |
| Evaluation.Manhattan | multiAgents.py:84 | the distance is non-negative, zero exactly between equal positions, and symmetric |
| Evaluation.LexMin | multiAgents.py:84 | Python `min` on position tuples: a member of the list, lexicographically at most every member |
| Evaluation.LexMax | multiAgents.py:87 | Python `max` on position tuples: a member of the list, lexicographically at least every member |
| Evaluation.LexExtremesUnique | multiAgents.py:84-89 | any member that is lexicographically least (greatest) is the one `min` (`max`) returns |
| Evaluation.GhostPositions | multiAgents.py:78 | one position per ghost, in ghost order |
| Evaluation.ScaredTimes | multiAgents.py:74 | one scared timer per ghost, in ghost order |
| Evaluation.SumInts | multiAgents.py:85 | definition of `sum(newScaredTimes)` (also multiAgents.py:303) on integers, the integer copy of Games.Sum; used by Evaluation.ReflexEvalCharacterized and Evaluation.BetterEvalCharacterized |
| Evaluation.NearestDistance | multiAgents.py:302 | the min over ghosts of the distance: at most every distance and equal to one |
| Evaluation.FarthestDistance | multiAgents.py:305 | the max over food (or capsules) of the distance: at least every distance and equal to one |
| Evaluation.ScoreEval | multiAgents.py:93-101 | definition of scoreEvaluationFunction: the state's score; specified by Evaluation.ScoreAtCutoff |
| Evaluation.ScoreAtCutoff | multiAgents.py:93-101 | with scoreEvaluationFunction, minimax and expectimax value a cutoff state at its game score |
| Evaluation.NearestUnique | multiAgents.py:302 | any number that bounds every ghost distance from below and is one of them is the nearest distance |
| Evaluation.FarthestUnique | multiAgents.py:304-307 | any number that bounds every distance from above and is one of them (or 0 with none) is the farthest term |
| Evaluation.BetterEval | multiAgents.py:282-309 | definition of betterEvaluationFunction; specified by Evaluation.BetterEvalCharacterized and Evaluation.ReflexAtLeastBetter |
| Evaluation.BetterEvalCharacterized | multiAgents.py:294-309 | betterEvaluationFunction is score + distance to the nearest ghost + sum of scared timers − distance to the farthest food − distance to the farthest capsule, each last term 0 when none remain |
| Evaluation.ReflexEval | multiAgents.py:70-91 | a move onto a square where a current ghost stands scores exactly -50 (the rest of the formula is stated by Evaluation.ReflexEvalCharacterized) |
| Evaluation.ReflexEvalCharacterized | multiAgents.py:70-91 | away from a current ghost, the reflex score is the successor's score, plus 5 when the square has food in the current state, plus the distance to the lexicographically least successor ghost and the sum of the scared timers, minus the distances to the lexicographically greatest food and capsule (0 when none remain) |
| Evaluation.GreatestIsUnique | multiAgents.py:86-89 | any distance to a lexicographically greatest position (or 0 with none) is the reflex food or capsule term |
| Evaluation.LeastNoNearer | multiAgents.py:84 | the lexicographically least ghost is no nearer than the nearest ghost, and is the nearest when it is the only one |
| Evaluation.GreatestNoFarther | multiAgents.py:86-89 | the lexicographically greatest food or capsule is no farther than the farthest, and is the farthest when there is at most one |
| Evaluation.ReflexAtLeastBetter | multiAgents.py:76-91 | away from a ghost, the reflex score is at least betterEvaluationFunction of the successor plus the 5-point food bonus, and equals it with one ghost and at most one food and one capsule |
| Evaluation.ReflexScores | multiAgents.py:45 | one score per legal move, the move's reflex evaluation |
| Evaluation.IndicesOf | multiAgents.py:47 | exactly the indices whose score equals the given one, strictly increasing |
| Evaluation.IndicesOfMax | multiAgents.py:46-47 | the indices of the best score are exactly the indices scoring at least every score, and there is one |
| Evaluation.BestIndices | multiAgents.py:45-47 | `bestIndices` is non-empty, strictly increasing, and contains exactly the moves no legal move outscores |
| Evaluation.ReflexAction | multiAgents.py:42-52 | ReflexAgent.getAction returns a legal move that no legal move outscores |
| Evaluation.ReflexActionCovers | multiAgents.py:48 | every best-scoring legal move is returned for some outcome of the random choice |
| Scenarios.ReplyValue | multiAgents.py:169-170 | in the concrete game, the adversary's single reply is worth the evaluation of the state it leads to |
| Scenarios.TenOrSevenRoot | multiAgents.py:147-152 | in the concrete game the root children are worth [10, 7] and index 0 is the first best |
| Scenarios.TenOrSevenChoice | multiAgents.py:145-156 | in the concrete game both the minimax and the alpha-beta agent choose the move towards 10 |
| Scenarios.FourOrTenChance | multiAgents.py:266-280 | in a concrete game whose ghost has replies worth 4 and 10, expectimax values the ghost's node at exactly 7 and minimax at 4 |
| Scenarios.GhostBesideReflex | multiAgents.py:78-89 | stepping onto the ghost scores -50 and stepping beside it scores 2, so the reflex agent steps beside it whatever the random choice |

## Left out

- `MultiAgentSearchAgent.__init__` (multiAgents.py:118-121) looks the evaluation function up by name and parses the depth from a string. Both are plain parameters here.
- `random.choice` (multiAgents.py:48) is not modelled as randomness. The parameter `pick` selects `bestIndices[pick % |bestIndices|]`.
- The concrete `GameState`, `Directions`, `Agent` and `util.manhattanDistance` are not part of this model.
  - The state interface is the abstract `Game`.
  - The evaluator's view of a state is `Snapshot`.
  - `manhattanDistance` is taken to be L1 distance.
- The number of agents is a constant of the game. It is not read from each state with `getNumAgents()`.
- Search.SelectAction, Search.MinimaxAction and Search.ExpectimaxAction require a legal root move. The source reads `actions[0]` (multiAgents.py:146, 254) and fails without one.
- AlphaBeta.AlphaBetaAction handles the empty case and returns None (multiAgents.py:186).
- Evaluation.ReflexAction requires a legal move, because `max(scores)` fails on an empty list.
- Games.Game.Valid requires at least two agents. With one agent, a max node recurses to agent 1 without a wrap check (multiAgents.py:168, 218).
- AlphaBeta.SearchNode, AlphaBeta.MaxVal and AlphaBeta.MinVal require a non-empty window, a <= b.
  - The source never calls them otherwise. The root window is (-inf, +inf), and each loop raises `a` (or lowers `b`) only to a value that did not cause a prune.
  - MaxVal and MinVal also require depth > 0. Only alpha_beta_pr calls them, and only after its depth-0 cutoff.
- The depth is a `nat`. The source's `int(depth)` (multiAgents.py:121) also accepts a negative depth. Then `not depth` (multiAgents.py:160, 203, 267) never holds, and the search goes on until it reaches states with no legal action. Negative depths are not modelled.
- ScoreAtCutoff: covers minimax and expectimax (Search.Value). For alpha-beta the same fact is AlphaBeta.SearchNode's cutoff clause with `eval` set to ScoreEval.
- Float behaviour is not modelled: values are exact reals, so the expectimax mean has no rounding.
- Scores, scared timers and coordinates are integers. Ghost positions with fractional coordinates, which a ghost has between squares, are not modelled.
- Evaluation.BetterEval requires at least one ghost, for the `min` over ghost distances. Evaluation.ReflexEval requires a ghost in the successor unless the move collides. In both cases the source raises an error on an empty sequence.
- In minimax (multiAgents.py:164), successors are generated before the no-action check. This is not modelled, because it has no observable effect on a value.
- minval's `elif agentIndex + 1 < getNumAgents()` (multiAgents.py:233) has no third case in the model, because an agent index is always below the number of agents.
