# Models of a poker engine's rules, solver and servers

The project models the logic of a heads-up and multi-player poker engine: the betting rules and payoffs of its game
library, its match-state text, the evaluation of showdowns and folds against ranges, the tree walk and regret matching
of its solver, the earth mover's distance of its abstraction, the betting tree and its dense index, and the dealer and
match server around it. Where the original updates objects and arrays in place, a class or a method does so here, and
is proved against a function on values; lemmas then say what those functions mean.

| modules | about |
|---|---|
| Betting, TurnOrder, Hands, Chips, RaiseLimits, MinRaise | the rules as functions on hands; turn order, chips, raises, termination, logs over all runs |
| GameState | the mutable State and its operations, StepBackAction included |
| SidePots, Payoffs, EarlyFold | valueOfState, its zero sum, and the fold that breaks it |
| Numbers, StateText, TextRoundTrip, HiddenCards, TextIO | the match-state text, its printers and readers, and what it hides |
| RankSlots, FoldSums, Cards, TermEval | fast and pairwise evaluation of terminal nodes |
| Sums, WalkValues, BestReplies, Beliefs, CfrWorker, MaskedValue, Regret | the walk against ranges, best response, regret matching |
| Transport, InitialPlan, RusselPlan, Basis, SpanningTree, LoopSearch, Prices, Pivots, Emd, TwoByTwo | the transportation simplex |
| Matches, TimeLimits, Dealer, DealerText, MatchMoney, SeatMoney | the dealer, its clocks, its transaction log, the totals |
| ActionAbs, RaiseList, RoundChips, BettingTree, CheckedThrough, BuiltTrees | the action abstraction and the tree it builds |
| RnbaIndex, RnbaKernel | the dense index over round, node, bucket and action, and the conversion by threads |
| Colex, Suits | colexicographic numbers and suit-canonical forms |
| EditDistance, Flops | the edit distance of betting strings, and flops dealt out to threads |
| Pools, Queue, RunCount, Scheduler | list pools, the state of the match server, its runs, its main loop |

A `Run` is a list of legal actions from a deal, with the hands they lead to; what is said of every `Run` holds of every
hand the rules can reach. A predicate quantified over an unused number (`forall k: nat :: XAt(k, ..)`) is a sealed one:
it is opened by naming one instance.

## Findings

Properties one would expect and that do not hold, with what does:

- Payoffs need not sum to zero. `isValidAction` answers 5, not 0, to a fold without a bet to fold to
  (modules/core/src/game.c:1118-1123), and every caller that tests for 0 accepts it, the reader of the betting
  (modules/core/src/game.c:1496) and the dealer among them. If the player with the largest stake folds that way,
  nobody can take the top of it. `EarlyFold.EarlyFoldLosesChips` is such a hand; `Payoffs.PayoffsSumToZero` is the
  exact condition, and `Payoffs.StrictHandsAreZeroSum` covers all hands without such folds.
- A printed match state need not read back when board cards precede the first betting: hole cards and board are
  separated by nothing, and the last seat takes board cards for its own. `TextRoundTrip.ReadsBackExactly` is the exact
  condition, `TextRoundTrip.EarlyBoardFails` an instance, and `DealerText.AnswersAreTaken` what it means for a match:
  the dealer ignores every answer to such a state.
- The skip-list evaluation of showdowns differs from the pairwise one when masked hands leave a gap in a card's list of
  ranks, because a pointer moves on one slot at a time. `RankSlots.FastIsExact` is the exact condition,
  `RankSlots.MaskedHandLeavesGap` an instance; without masked hands there is no gap (`RankSlots.UnmaskedHasNoGap`).
- The tables of a showdown have 46 rows for every card (modules/engine/src/term_eval_kernel.cpp:90, 256). They hold 46
  ranks of hands with one card, as many as there can be on a board of five, but the walk along the list
  (modules/engine/src/term_eval_kernel.cpp:309-323) looks for an empty row after the last rank, and runs past the table
  when there are 46. `TermEval.WalkStaysInside` is the exact condition, which the constructor of
  `TermEval.TermEvalKernel` asks for; `TermEval.WalkRunsPast` is an instance.
- The fast evaluation of folds differs from the pairwise one on hands whose own weight in the opponent's range is
  negative, and on no others (`FoldSums.FoldEvalsAgree`): the masked ones.
- Russel's first plan of the earth mover's distance need not be feasible: a supply that exceeds a demand by no more than
  the tolerance is shipped whole. `Emd.NearlyHalves` is an instance. The constructor of `Emd.EMD` gives the exact
  condition (no step overshoots, and sums agree), the bounds that hold for all weights, and a condition on the weights
  alone under which no step overshoots. `Emd.EMD.Compute` says what the pivots make of such a plan.
- A limit raise of a player whose stack is below the bet lowers the bet. `Chips.LimitRaiseLowersMax` is the exact
  condition, `Chips.ShortRaiseLowersMax` an instance.
- A raise on top of the last raise ends the program when nobody has raised in the round; the mode that falls back to
  the pot avoids it (`ActionAbs.ExitsInOneMode`). Building a betting tree ends that way exactly if actions on offer lead
  to such a hand (`BettingTree.BuildBettingTree`); `CheckedThrough.CheckingRunsDead` is an instance.
- A value within an epsilon of the mask, before or after it is weighted, is taken for the mask, and `Solve` leaves it
  out. It is always a loss, so the sums of two fixed strategies come to zero exactly if nothing with a weight is taken
  for the mask, and to more otherwise (`CfrWorker.VectorCfrWorker.SolveIsZeroSum`); `MaskedValue.SumsDoNotCancel` is an
  instance.
- The best response passes over an action whose value is exactly that of the mask. What it gives a hand is the best of
  the actions the hand plays exactly unless that one is passed over for a worse one
  (`WalkValues.BestUnlessPassedOver`); where that happens nowhere in the tree, two best responses never lose together
  (`WalkValues.BestResponsesNeverLose`), and where it does they can (`MaskedValue.BestResponsesLose`).

Where comments and code disagree, the code is modelled: in modules/engine/src/emd.cpp:181 the branch marked as that of
a deleted row is that of a deleted column; modules/core/src/game.c:1169-1191 gives a fresh deal on the stacks of
initState, not of the reference, when all actions are taken back; modules/agent/src/dealer.c:333-343 announces a limit on
badly formed answers that it does not enforce; the tests for a negative action type in modules/core/src/game.c:2114-2117
never hold, for the type that stands for no action is 3.

## Model

| member | source | states |
|---|---|---|
| TurnOrder.CalledCountsMatched | modules/core/src/game.c:662-693 | numCalled, which walks the log backwards, counts exactly the players with chips left who have matched the current bet |
| TurnOrder.CurrentPlayerComesNext | modules/core/src/game.c:602-632 | currentPlayer is the next seat, going round the table, of a player who can act and has not acted on the current bet; nobody who can act is passed over |
| TurnOrder.RoundOpener | modules/core/src/game.c:617-632 | when nobody has acted in a round it is the turn of the first player who can act, from the first player of that round on |
| TurnOrder.ActKeepsOrder | modules/core/src/game.c:1193-1303 | a legal action keeps the order of the log, and lowers the number of players still to match the bet by one, or sets it to all others when it raises |
| Hands.RunKeepsTurn | modules/core/src/game.c:1193-1303 | in every hand legal actions can reach, an unfinished hand has somebody yet to match the bet, in turn order; stacks never change |
| Hands.RoundClosesWhenMatched | modules/core/src/game.c:1262-1303 | an action closes the round or the hand exactly when one player is left unfolded or everybody able to act has acted on the current bet, and then all of them have put in maxSpent; exactly when it finishes the hand |
| Hands.NeverStuck | modules/core/src/game.c:617-632 | an unfinished hand has a current player who can act and has not acted on this bet, room in the log, and calling is legal |
| Hands.HandsEnd | modules/core/src/game.c:1193-1303 | every hand ends: no sequence of legal actions is longer than MAX_NUM_ACTIONS times the number of rounds |
| Hands.RunLogsFit | modules/core/src/game.c:1196-1200 | no round of a reachable hand ever has more log entries than the arrays hold |
| Hands.LogIsTheRun | modules/core/src/game.c:1193-1200 | the log of a reachable hand, round after round, is the list of the actions done |
| Hands.LogDeterminesHand | modules/core/src/game.c:885-931 | two hands of a game with the same stacks and the same log are the same hand in every field, though statesEqualCommon compares the logs alone |
| Chips.RunKeepsChips | modules/core/src/game.c:1193-1260 | in no-limit hands maxSpent stays the largest amount spent, nobody spends more than his stack, and the minimum raise stays above maxSpent |
| Chips.RunMeetsAsserts | modules/core/src/game.c:1196-1232 | what isValidAction accepts meets the asserts of doAction: room in the log, and a no-limit raise above maxSpent and within the stack |
| Chips.RunKeepsLiveMax | modules/core/src/game.c:1076-1136 | when nobody folds without facing a bet, the largest amount was always spent by a player who is still in |
| Chips.CheckedIsLegal | modules/core/src/game.c:1076-1136 | an action isValidAction lets through, as it adjusts it, is legal and is let through again unchanged without fixing |
| Chips.LegalIsChecked | modules/core/src/game.c:1076-1136 | without fixing, isValidAction lets through exactly the legal actions |
| Chips.MendedIsNearest | modules/core/src/game.c:1100-1110 | a raise that isValidAction mends becomes the legal raise nearest to it |
| RaiseLimits.LegalRaises | modules/core/src/game.c:1002-1055 | without a limit the legal raises are exactly those above the bet and within the stack that reach the smallest raise or are all-in, while the round may have more raises, the log has room and somebody is there to raise against |
| RaiseLimits.LegalLimitRaises | modules/core/src/game.c:1002-1055 | with a limit a raise is legal under the same conditions, whatever size is named |
| RaiseLimits.RunRaisesWithin | modules/core/src/game.c:1002-1025 | in every reachable hand no round has more raises than it may have |
| RaiseLimits.LimitBetIsLogged | modules/core/src/game.c:1237-1252 | in a limit game the bet is the largest blind and the fixed size of every raise of the log, as long as everybody could pay it |
| MinRaise.RunAsks | modules/core/src/game.c:1226-1297 | in every reachable no-limit hand the bet is the size of the last raise, and the smallest next raise is the largest of the opening raise of the round (twice the big blind or one chip at first, the bet and a big blind later) and, for every raise of the round, its size and what it put on top of the bet before |
| Chips.ShowdownSpent | modules/core/src/game.c:1262-1303 | at a no-limit showdown everybody still in has put in maxSpent or his whole stack |
| Chips.LimitRaiseLowersMax | modules/core/src/game.c:1237-1252 | in a limit game a legal action lowers maxSpent exactly when it is a raise from a stack below maxSpent |
| Chips.ShortRaiseLowersMax | modules/core/src/game.c:1237-1252 | a freshly dealt limit hand with blinds of 10 and 5 and 8 chips for the small blind: his raise is accepted and takes maxSpent from 10 to 8 |
| GameState.State.InitState | modules/core/src/game.c:727-784 | the fields become those of a freshly dealt hand, on the stacks of the game or of the state |
| GameState.State.NumCalled | modules/core/src/game.c:662-693 | the backward loop computes the count |
| GameState.State.NextPlayer | modules/core/src/game.c:602-614 | the loop round the table ends, at the first player at or after the next seat who can act |
| GameState.State.RaiseIsValid | modules/core/src/game.c:1002-1055 | whether a raise is possible, and its smallest and largest size |
| GameState.State.IsValidAction | modules/core/src/game.c:1074-1136 | the return code (5 for a fold without a bet to fold to) and the adjusted action |
| GameState.State.DoAction | modules/core/src/game.c:1193-1303 | logging, moving the chips (sum_round_spent included) and closing the round in place give the hand the rules give |
| GameState.State.ValueOfState | modules/core/src/game.c:1327-1461 | the payoff by folds or by side pots; it leaves the state as it was |
| GameState.TotalAction | modules/core/src/game.c:1161-1167 | the number of actions of the whole log |
| GameState.StepBackAction | modules/core/src/game.c:1169-1191 | going back fewer steps than there are actions gives the hand as it was then; going back all of them gives a fresh deal on the stacks of initState, not of the reference; more or less than that fails |
| SidePots.SidePotLoop | modules/core/src/game.c:1373-1461 | taking side pots off the stakes in place, smallest stake first, pays the player the sum over all chips of his share of each layer of the pot |
| SidePots.PotIsItsLayers | modules/core/src/game.c:1390-1450 | a side pot of any size pays what its layers of one chip pay |
| SidePots.ShowdownIsZeroSum | modules/core/src/game.c:1373-1461 | at a showdown the payoffs sum to zero exactly when the largest stake is zero or somebody with a live hand has put in that much |
| Payoffs.PayoffsSumToZero | modules/core/src/game.c:1327-1461 | the values of all players sum to zero exactly when one player is left, nothing was staked, or somebody who is in can take the largest stake |
| Payoffs.StrictHandsAreZeroSum | modules/core/src/game.c:1327-1461 | every finished no-limit hand without premature folds pays out what it takes in |
| Payoffs.StakeIsValue | modules/engine/src/node.cpp:11-21 | heads-up, the stake of a terminal node, times the sign of the showdown, is valueOfState |
| EarlyFold.EarlyFoldLosesChips | modules/core/src/game.c:1118-1123 | a hand isValidAction accepts, with a premature fold, whose payoffs do not sum to zero |
| Numbers.DecIntReads | modules/core/src/game.c:2136-2165 | a printed number reads back, with sscanf or strtol, whatever follows it that is no digit |
| TextRoundTrip.CardsRead | modules/core/src/game.c:2167-2266 | printed cards read back |
| TextRoundTrip.StackReads | modules/core/src/game.c:1507-1607 | printed stacks read back, and are never taken for cards of the older protocol |
| TextRoundTrip.PrintedBettingReads | modules/core/src/game.c:1467-1582 | the printed betting of a reachable hand replays, through isValidAction and doAction, to that hand |
| TextRoundTrip.ReadsBackExactly | modules/core/src/game.c:1805-2109 | a printed match state of a reachable hand reads back to an equal one exactly if no board cards precede the first betting, or players have no hole cards, or the last seat is shown with known cards; in all other cases it does not read at all |
| TextRoundTrip.PrintedStateReads | modules/core/src/game.c:1939-1958 | what comes back: viewer, hand number, the whole hand, the cards that were shown, the board; the appended text is left over |
| HiddenCards.OthersCardsAreHidden | modules/core/src/game.c:1685-1735 | match states that differ only in hole cards of others who are not at a showdown, folded or still playing, have the same text |
| HiddenCards.ViewersCardsComeBack | modules/core/src/game.c:1685-1735 | the cards of the viewer, and at a showdown of everybody still in, come back from the text; all others come back unknown |
| TextRoundTrip.EarlyBoardFails | modules/core/src/game.c:1609-1647 | a concrete two-player game with one board card before the first betting, whose match state does not read |
| TextIO.ReadCards | modules/core/src/game.c:2195-2214 | the loop reads what the recursive reader reads, and where it stops |
| TextIO.ReadHoleCards | modules/core/src/game.c:1609-1647 | the loop over the players |
| TextIO.ReadBoardCards | modules/core/src/game.c:1739-1767 | the loop over the rounds |
| TextIO.ReadBetting | modules/core/src/game.c:1467-1505 | the loop replays the betting in a State, and fails where an action is no action or not valid |
| TextIO.PrintBetting | modules/core/src/game.c:1547-1582 | the loops print the log round by round |
| RankSlots.ShowdownByCards | modules/engine/src/term_eval_kernel.cpp:78-128 | beating a range is beating all of it less the hands that share the high card and those that share the low card |
| RankSlots.SlotNetIsNet | modules/engine/src/term_eval_kernel.cpp:241-326 | the net of a hand's slot in the list of its card is its weight below less the weight above among hands with that card |
| RankSlots.FastIsExact | modules/engine/src/term_eval_kernel.cpp:78-128 | the skip-list evaluation equals the pairwise one for all hands and weights exactly if, for every card, each live hand past the first slot has a live hand before it in its own or the preceding slot |
| RankSlots.WrongMeansInexact | modules/engine/src/term_eval_kernel.cpp:78-128 | wherever a pointer has moved to a wrong slot, the value of that hand is wrong for some weights |
| RankSlots.MaskedHandLeavesGap | modules/engine/src/term_eval_kernel.cpp:78-128 | three hands of one card with the middle one masked: there is a gap, and the third hand's value is wrong for some weights |
| RankSlots.UnmaskedHasNoGap | modules/engine/src/term_eval_kernel.cpp:78-128 | with no hand masked there are no gaps |
| TermEval.TermEvalKernel.constructor | modules/engine/src/term_eval_kernel.cpp:6-76 | Prepare and PreStack: groups of equal rank, and where each begins |
| TermEval.TermEvalKernel.StackShowdownProb | modules/engine/src/term_eval_kernel.cpp:241-326 | the tables hold the net of every rank and of every slot of every card, and the skip lists name the slots |
| TermEval.ListFits | modules/engine/src/term_eval_kernel.cpp:255-283 | a table of as many rows as a card has ranks is filled without leaving it, whatever the hands |
| TermEval.WalkStaysInside | modules/engine/src/term_eval_kernel.cpp:302-326 | the walk along a card's list, which looks for an empty row, stays inside the table exactly if the card has fewer ranks than the table has rows |
| TermEval.WalkRunsPast | modules/engine/src/term_eval_kernel.cpp:302-326 | n hands of one card, all of different ranks, off the board: the list fills n rows, 46 on a board of five, and the walk runs past them |
| TermEval.TermEvalKernel.FastShowdownEval | modules/engine/src/term_eval_kernel.cpp:78-128 | walking ranks and skip lists in place gives every unmasked hand the value its pointers read |
| TermEval.TermEvalKernel.NaiveShowdownEval | modules/engine/src/term_eval_kernel.cpp:128-166 | the double loop gives every unmasked hand its sum of pairwise duels |
| TermEval.TermEvalKernel.ShowdownEvalsAgree | modules/engine/src/term_eval_kernel.cpp:78-166 | without gaps the two leave the same beliefs |
| TermEval.TermEvalKernel.UnmaskedEvalsAgree | modules/engine/src/term_eval_kernel.cpp:78-166 | so they do whenever no hand is masked |
| TermEval.TermEvalKernel.FastFoldEval | modules/engine/src/term_eval_kernel.cpp:168-188 | fold values by totals per card |
| TermEval.TermEvalKernel.NaiveFoldEval | modules/engine/src/term_eval_kernel.cpp:189-218 | fold values hand against hand |
| TermEval.TermEvalKernel.StackFoldingProb | modules/engine/src/term_eval_kernel.cpp:219-240 | the total of the positive weights and, for every card, of those of the hands that hold it |
| FoldSums.FoldEvalsAgree | modules/engine/src/term_eval_kernel.cpp:168-218 | the two fold evaluations agree on a hand exactly if its own weight is not negative |
| Cards.IndexRoundTrip | modules/core/src/card_util.cpp:267-285 | a hand's index gives its two cards back, by an integer square root, in either order |
| Cards.ClashIsSharing | modules/core/src/card_util.cpp:287-298 | two indices clash exactly if their hands share a card |
| WalkValues.WalkIsExpectedPayoff | modules/engine/src/cfr_worker.cpp:12-93 | what the walk of a subtree gives a hand is its expected payoff against the range, hand by hand, both players playing the strategy |
| WalkValues.FixedStrategiesAreZeroSum | modules/engine/src/cfr_worker.cpp:12-93 | with fixed strategies what one player earns against a range the other loses |
| WalkValues.BestResponseIsNoWorse | modules/engine/src/cfr_worker.cpp:305-371 | best response earns every hand at least what the strategy earns, if nowhere in the tree it passes over the best |
| WalkValues.BestUnlessPassedOver | modules/engine/src/cfr_worker.cpp:345-367 | what the best response gives a hand is at least the value of every action it plays, exactly unless the best of those is the value of the mask and a worse one is there |
| WalkValues.BestResponseBeatsAll | modules/engine/src/cfr_worker.cpp:305-371 | on any tree, the best response earns every hand at least what any strategy of the player does that plays the same actions against the same opponent, if nowhere it passes over the best |
| BestReplies.BestResponseIsTheMaximum | modules/engine/src/cfr_worker.cpp:305-371 | so it is the maximum over those strategies, for every hand, reached by one that plays a single action with each hand |
| BestReplies.BestResponseIsPayoff | modules/engine/src/cfr_worker.cpp:12-93 | whatever is passed over, the best-response walk of a hand is the expected payoff, hand against hand, of a strategy that plays a single action |
| BestReplies.BestEarnings | modules/engine/src/cfr_worker.cpp:424-481 | with any range of his own the player earns with best responses the most that any such strategy earns |
| WalkValues.BestResponsesNeverLose | modules/engine/src/cfr_worker.cpp:424-481 | the two best responses together earn at least zero, if nowhere in the tree one passes over the best |
| MaskedValue.BestResponsesLose | modules/engine/src/cfr_worker.cpp:345-367 | player 0 gives up a pot of one or of a thousand: his best response passes over the loss of one, and the two together lose |
| CfrWorker.VectorCfrWorker.WalkTree | modules/engine/src/cfr_worker.cpp:12-93 | the recursive walk over arrays computes the values of module WalkValues for every hand index |
| CfrWorker.VectorCfrWorker.RangeRollout | modules/engine/src/cfr_worker.cpp:187-287 | each child's range is the parent's times the probability of the action, small ones cut off, masked entries kept |
| CfrWorker.VectorCfrWorker.ComputeCfu | modules/engine/src/cfr_worker.cpp:305-371 | children's values combined by the strategy or by the best action |
| CfrWorker.VectorCfrWorker.Solve | modules/engine/src/cfr_worker.cpp:424-481 | the average of both sides in big blinds |
| CfrWorker.VectorCfrWorker.SolveIsZeroSum | modules/engine/src/cfr_worker.cpp:424-481 | with a fixed strategy the two sides of Solve add up to what values taken for the mask would have taken off, never below zero; they cancel exactly if no hand with a weight has a value, or a weighted value, that is taken for the mask |
| MaskedValue.SumsDoNotCancel | modules/engine/src/hand_belief.h:123-133 | four cards, no board, a pot of one that player 1 has given up, a range with one hand in a thousand that he meets: his loss of one is taken for the mask, and the average Solve returns is above zero |
| CfrWorker.VectorCfrWorker.SolveIsExploitability | modules/engine/src/cfr_worker.cpp:424-481 | with best responses that pass over nothing the two sides of Solve add up to at least zero, whatever the sums take for the mask |
| CfrWorker.VectorCfrWorker.SolvedIsTheMost | modules/engine/src/cfr_worker.cpp:424-481 | in best-response mode what Solve adds up for a player, with what it takes for the mask, is the most that any of his strategies earns against the other's range |
| Regret.GetPolicy | modules/engine/src/engine_util.h:36-63 | regret matching in place; uniform when no regret is positive |
| Regret.PolicyIsDistribution | modules/engine/src/engine_util.h:36-63 | the policy of any regrets sums to one and is nowhere negative |
| Regret.PolicyIsProportional | modules/engine/src/engine_util.h:36-63 | actions are played in proportion to their positive regrets, and all alike when there are none |
| Regret.RegretLearning | modules/engine/src/cfr_worker.cpp:382-420 | every regret grows by what its action would have earned more, not below the floor |
| Regret.StepIsOrthogonal | modules/engine/src/cfr_worker.cpp:382-420 | weighted by the positive regrets, what a step adds sums to zero |
| Regret.RegretBound | modules/engine/src/cfr_worker.cpp:382-420 | after T steps with utilities within d of each other the squared positive regrets sum to at most T times n times d squared |
| Regret.NoRegret | modules/engine/src/cfr_worker.cpp:382-420 | so what any fixed action would have earned more in T steps, squared, is at most that |
| Beliefs.BeliefSum | modules/engine/src/hand_belief.h:123-133 | the sum of the entries that are not masked |
| Beliefs.NormalizeExcludeBoard | modules/engine/src/hand_belief.h:118-122 | hands that touch the board are masked, the others divided by their sum |
| Beliefs.NormalizedSumsToOne | modules/engine/src/hand_belief.h:92-107 | a normalised range sums to one |
| Beliefs.NormalizedKeepsOdds | modules/engine/src/hand_belief.h:92-107 | normalising keeps the odds of any two unmasked hands, and masked hands masked |
| Emd.EMD.constructor | modules/engine/src/emd.cpp:528-597 | Init: for any weights the basic cells connect all rows and columns, no supply is left beyond what supplies exceed demands by, every column is met up to n1 tolerances, no slot is below minus one tolerance; the plan is feasible exactly if the sums agree and no step overshoots its column; with weights in units above the tolerance it is feasible; weights up to 10^15 keep amounts below 10^20 in every basis |
| Emd.NearlyHalves | modules/engine/src/emd.cpp:232-271 | two features of weight 0.5000001 and 0.4999999 against 0.5 and 0.5: the first cell ships 0.5000001 and the plan is not feasible |
| Emd.EMD.Russel | modules/engine/src/emd.cpp:103-231 | cell after cell of least measure, to a plan and a basis |
| Emd.EMD.AddBasicVariable | modules/engine/src/emd.cpp:232-271 | what is shipped, which list loses a member, and when the column is overshot |
| RusselPlan.RoughStep | modules/engine/src/emd.cpp:232-271 | every step keeps: rows and columns add up with what is left, closed rows empty, columns exact while rows have something left, overshooting bounded by a tolerance for each row |
| RusselPlan.OrderStep | modules/engine/src/emd.cpp:232-271 | a plan gets negative slots or overdrawn columns exactly by a step that overshoots, and never recovers |
| RusselPlan.RoughEnds | modules/engine/src/emd.cpp:103-231 | the finished plan nearly ships, with one cell less than rows and columns |
| RusselPlan.FeasibleInOrder | modules/engine/src/emd.cpp:103-231 | it is feasible exactly if nothing went out of order and the sums agree |
| SpanningTree.HangsTogether | modules/engine/src/emd.cpp:103-231 | the cells of a finished plan connect all rows and columns |
| SpanningTree.LeavingKeepsConnected | modules/engine/src/emd.cpp:399-461 | when a giver of the loop leaves, the rest still connects everything |
| SpanningTree.LoopExists | modules/engine/src/emd.cpp:463-526 | an entering cell of a connected basis closes an alternating loop |
| LoopSearch.AheadDeeper | modules/engine/src/emd.cpp:463-526 | going deeper by the first unused slot does not pass by a loop that is there |
| LoopSearch.AheadNext | modules/engine/src/emd.cpp:463-526 | nor does backing up to the next slot of a chain |
| LoopSearch.NextDrops | modules/engine/src/emd.cpp:463-526 | backing up lowers the rank of the path, so the search ends |
| Emd.EMD.FindLoop | modules/engine/src/emd.cpp:463-526 | the search ends and finds an alternating loop that starts at the entering slot |
| Emd.EMD.FindBasicVariables | modules/engine/src/emd.cpp:273-367 | for any basis, feasible or not: prices for all rows and columns at which every basic cell costs exactly its two prices; the error exit is never taken |
| Prices.PricesExist | modules/engine/src/emd.cpp:273-367 | cells that connect all rows and columns have such prices for any costs |
| Prices.AmountsAreLimited | modules/engine/src/emd.cpp:399-461 | what a slot of a basis ships is bounded, either way, by the row and column sums of the plan alone |
| Emd.EMD.IsOptimal | modules/engine/src/emd.cpp:368-397 | for any basis: the candidate is the cell cheapest against its prices, there always is one, and the test is its reduced cost; moving the empty slot changes no sum |
| Emd.EMD.NewSolution | modules/engine/src/emd.cpp:399-461 | for any basis: a pivot around a loop keeps the basis connected and every row and column sum, and the smallest giver leaves; none is found exactly if every giver ships the initial minimum of 10^20 or more |
| Transport.PivotKeepsFeasible | modules/engine/src/emd.cpp:419-435 | moving no more than the smallest giver ships around a loop keeps every row, every column and every sign |
| Transport.NearOptimal | modules/engine/src/emd.cpp:368-397 | accepted prices prove a plan cheapest up to the tolerance for each unit shipped |
| Emd.EMD.Compute | modules/engine/src/emd.cpp:49-102 | the plans it goes through come each from the one before by a pivot: at tight prices the cheapest cell enters, by more than the tolerance, and the smallest giver of its loop leaves; it stops at accepted prices, or after 499 pivots; no step fails from a plan that is feasible or whose sums keep amounts below 10^20; row and column sums never change, a feasible plan stays feasible and gets no dearer, and an accepted one costs no more than any other without negative amounts and with the same sums, plus the tolerance; the flow has every amount between features, each cell once, and the result is its cost per unit |
| Emd.EMD.CheapestOfAll | modules/engine/src/emd.cpp:368-397 | for a feasible plan those are all plans that meet its supplies and demands |
| TwoByTwo.OnePivot | modules/engine/src/emd.cpp:49-102 | from any feasible basis of the input below there is at most one pivot |
| TwoByTwo.EachMovesOne | modules/engine/src/emd.cpp:49-102 | features 0 and 2 of weights 2 and 1 against 3 and 1 of weights 1 and 2: the distance is 1, at accepted prices |
| Matches.SeatsRoundTrip | modules/agent/src/dealer.c:201-211 | seats and players are matched one to one |
| Matches.LogRecovers | modules/agent/src/dealer.c:396-479 | replaying the transaction log of any part of a live match succeeds and gives back hand, button, generator, cards and totals as they stood, with clocks that show no more |
| Dealer.Dealer.GameLoop | modules/agent/src/dealer.c:719-900 | live play makes a live match whose log is what was written, every entry the action of one of the answers, mended if need be, with its times; it ends early only if the player to act gives up |
| Dealer.Dealer.PlayTurn | modules/agent/src/dealer.c:763-835 | one turn logs what it does: the action of the first answer, checked |
| Dealer.Dealer.ReadPlayerResponse | modules/agent/src/dealer.c:257-369 | the first answer to the state is taken and no other, mended if it can be and changed to a call if not; the lines after it are left; every line but a comment is timed; it fails exactly if no answer comes in time or its action is one bad action too many |
| Dealer.Dealer.ProcessTransactionFile | modules/agent/src/dealer.c:396-479 | the loop replays the log |
| Dealer.Recover | modules/agent/src/dealer.c:719-900 | a dealer restarted with the log of another stands where that one stood |
| DealerText.AnswersAreTaken | modules/agent/src/dealer.c:299-345 | an answer that echoes the state it was sent is taken, with its action, exactly if the state's text tells hole cards from board cards; otherwise it is ignored as unrequested |
| DealerText.TakenIsFromText | modules/agent/src/dealer.c:299-345 | whatever action the dealer takes from a line was read from its text |
| DealerText.EntryReads | modules/agent/src/dealer.c:482-517 | a line logTransaction writes reads back, microseconds with leading zeros included |
| DealerText.TextReplays | modules/agent/src/dealer.c:396-479 | replaying the written text is replaying the entries |
| DealerText.TextRecovers | modules/agent/src/dealer.c:396-479 | the text written up to any point of a live match brings the match back |
| DealerText.LogIsPrintable | modules/agent/src/dealer.c:482-517 | what a dealer logs for replies read from text can be written and read back |
| DealerText.ProcessText | modules/agent/src/dealer.c:396-479 | the loop over the lines of the log file replays the text |
| DealerText.RecoverFromText | modules/agent/src/dealer.c:719-900 | a dealer restarted with the text another one wrote, up to any entry, stands where that one stood then |
| MatchMoney.MatchIsZeroSum | modules/agent/src/dealer.c:821-828 | with hands paid by valueOfState, the totals of all seats add up to what they were at the start as long as nobody folds without facing a bet |
| MatchMoney.SumBySeat | modules/agent/src/dealer.c:201-211 | moving the button changes no sum |
| SeatMoney.TurnCredits | modules/agent/src/dealer.c:821-838 | when a hand ends the total of every seat grows by what the player wins who sits there, and the button moves one seat, unless seats are fixed |
| SeatMoney.SeatsKeepTheirOwn | modules/agent/src/dealer.c:719-900 | at any point of a live match a seat has what it began with and, hand by hand, what the player won who sat there |
| SeatMoney.SomebodySits | modules/agent/src/dealer.c:201-211 | in every hand of the match somebody sits in every seat |
| SeatMoney.ButtonGoesRound | modules/agent/src/dealer.c:372-394 | the button has moved one seat for every hand that ended |
| SeatMoney.WonByTheRules | modules/agent/src/dealer.c:821-828 | when hands are paid by valueOfState that is valueOfState of that player |
| TimeLimits.AnswersAreInTime | modules/agent/src/dealer.c:147-183 | no answer of a live match takes longer than it may, nor do the answers of its seat together in the hand or in the match |
| RnbaIndex.HashInjective | modules/engine/src/rnba_kernel.hpp:149-164 | two tuples of node, bucket and action have the same index exactly if they are the same |
| RnbaIndex.HashSurjective | modules/engine/src/rnba_kernel.hpp:149-164 | every number below max_index is the index of a tuple |
| RnbaIndex.NodeOfNumber | modules/engine/src/rnba_kernel.hpp:30-49 | numbers that count through a round leave no node out |
| RnbaKernel.Kernel.constructor | modules/engine/src/rnba_kernel.hpp:51-89 | counting and laying out the nodes fills the tables the index reads |
| RnbaKernel.Kernel.HashRnba | modules/engine/src/rnba_kernel.hpp:149-164 | the table lookups give the index, below max_index |
| RnbaKernel.Strategy.ConvertWavgToZipAvg | modules/engine/src/strategy.cpp:576-603 | after all rounds and threads every cell is converted |
| RnbaKernel.Strategy.ThreadedZipAvgConvert | modules/engine/src/strategy.cpp:608-626 | a thread converts its buckets and touches nothing else |
| RnbaIndex.OneWriter | modules/engine/src/strategy.cpp:576-603 | every cell is written by exactly one thread |
| ActionAbs.GetCandidateActions | modules/engine/src/action_abs.cpp:204-334 | the list of actions a node offers: fold only against a bet, call, raises by the configured ratios; and exactly when the source exits |
| ActionAbs.CandidatesAreOffered | modules/engine/src/action_abs.cpp:204-334 | everything on the list is accepted by isValidAction with code 1, raises sized as raiseIsValid allows |
| RaiseList.Listed | modules/engine/src/action_abs.cpp:276-331 | a raise is on the list exactly if some ratio comes to it: all-in for -1 or for a size no smaller, else the size or the smallest raise, unless filtered, with no ratio before it that asks for all |
| RaiseList.AllInIsOffered | modules/engine/src/action_abs.cpp:276-285 | a ratio of -1 that applies puts the whole stack on the list |
| RaiseList.PotRatio | modules/engine/src/action_abs.cpp:290-303 | before it is made legal a raise by the pot adds the ratio of the chips in the pot to what the player has put in |
| RaiseList.PotAfterCallRatio | modules/engine/src/action_abs.cpp:290-303 | after a call, which counts as in the pot, it adds the ratio to the bet |
| ActionAbs.ExitsInOneMode | modules/core/src/game.c:2352-2424 | the source exits exactly if a raise is possible in a later round in which nobody raised yet and the mode is X_LAST_RAISE |
| ActionAbs.GetRaiseBase | modules/core/src/game.c:2352-2424 | the pot, the pot after a call, or what the last raiser put in in this round |
| ActionAbs.WithEarlyRaiseAction | modules/core/src/game_util.cpp:53-68 | whether somebody raised in the round, the blinds counting as a raise |
| ActionAbs.RemoveDuplicates | modules/engine/src/action_abs.cpp:83-103 | one action for each code, all codes kept |
| RoundChips.LastRaiseIsTheRoundsTop | modules/core/src/game.c:2380-2419 | in every reachable heads-up hand the base of X_LAST_RAISE is what has been put on top of the amount both players had in when the round began, and the raise starts from that amount |
| RoundChips.RunRounds | modules/core/src/game.c:1209-1256 | what sum_round_spent holds in every reachable hand |
| BettingTree.BuildBettingTree | modules/engine/src/action_abs.cpp:128-148 | the tree has a child for every candidate code, in order, and no other; ends pay valueOfState; nodes of each round are numbered through; its own check passes; it exits exactly if candidate actions lead from the root to a hand that has no raise base |
| BettingTree.GrownIsAlive | modules/engine/src/action_abs.cpp:128-148 | below the root of a tree that was built, candidate actions lead to no hand without a raise base |
| CheckedThrough.CheckingRunsDead | modules/engine/src/action_abs.cpp:256-266 | a heads-up game in which two calls lead to such a hand when the second round is configured with X_LAST_RAISE, so that building its tree exits |
| BettingTree.IsBettingTreeValid | modules/engine/src/action_abs.cpp:150-202 | the recursive check accepts exactly the trees whose children are in order and include a call |
| BettingTree.GrownIsValid | modules/engine/src/action_abs.cpp:150-202 | a built tree passes it |
| BettingTree.DeadEndsInOneMode | modules/engine/src/action_abs.cpp:256-266 | the source exits only in rounds after the first configured with X_LAST_RAISE |
| BettingTree.SortChildNodes | modules/engine/src/node.cpp:34-43 | children in the order of their codes, each numbered by its place |
| BuiltTrees.BuiltTreeIsNumbered | modules/engine/src/action_abs.cpp:13-126 | a built tree is numbered as the index needs it |
| BuiltTrees.BuiltTreeIndex | modules/engine/src/rnba_kernel.hpp:149-164 | every number below max_index belongs to exactly one node, bucket and action of a built tree |
| BuiltTrees.EndsPayTheGame | modules/engine/src/cfr_worker.cpp:12-26 | what the walk credits two hands at an end of a built tree is valueOfState |
| BuiltTrees.WalkValuesTheGame | modules/engine/src/cfr_worker.cpp:12-93 | in a built tree the walk's value of two hands is the expected payoff by the rules of the game |
| BuiltTrees.BuiltTreeIsZeroSum | modules/engine/src/cfr_worker.cpp:424-481 | so the earnings of the two players in it cancel |
| Colex.NCkCard | modules/core/src/card_util.cpp:7-21 | the table lookup is the binomial coefficient |
| Colex.NumberInjective | modules/core/src/card_util.cpp:114-143 | sets of cards of one size with the same colexicographic number are the same |
| Colex.NumberSurjective | modules/core/src/card_util.cpp:114-143 | every number below the binomial is the number of a set |
| Colex.NumberBelow | modules/core/src/card_util.cpp:114-143 | numbers are below the binomial |
| Suits.CanonicalForm | modules/core/src/card_util.cpp:57-98 | two sets of cards have the same canonical form exactly if they have the same suit masks, in any order |
| Suits.CanonizeRenames | modules/core/src/card_util.cpp:57-98 | canonizing renames the suits, and canonizing again changes nothing |
| Suits.CanonicalNumbers | modules/core/src/card_util.cpp:114-143 | canonical forms have the same number exactly if one set is the other with suits renamed |
| Suits.CodesInjective | modules/core/src/card_util.cpp:114-143 | cards determine the masks |
| Suits.ComputeColex | modules/core/src/card_util.cpp:114-143 | the loop computes the number, below the binomial |
| Suits.FindSuitPermutation | modules/core/src/lib/pokerstove/peval/CardSet.cpp:1316-1335 | if the suits of dest are those of source in some order, the greedy search finds a permutation that takes one to the other |
| EditDistance.Distance | modules/core/include/bulldog/core_util.hpp:72-106 | the one-row algorithm computes the recursive distance |
| EditDistance.ShortestScript | modules/core/include/bulldog/core_util.hpp:72-106 | there is a script of that many single insertions, deletions and replacements |
| EditDistance.ScriptsAreLonger | modules/core/include/bulldog/core_util.hpp:72-106 | and no script is shorter |
| EditDistance.Triangle | modules/core/include/bulldog/core_util.hpp:72-106 | the triangle inequality |
| EditDistance.Symmetric | modules/core/include/bulldog/core_util.hpp:72-106 | symmetry |
| EditDistance.ZeroIsEqual | modules/core/include/bulldog/core_util.hpp:72-106 | zero exactly for equal strings |
| Flops.AllocateFlops | modules/engine/src/cfr.cpp:310-390 | every flop goes to exactly one thread of the first cluster, the other clusters copy it, and no thread has more than its share and one largest bucket |
| Flops.MinElement | modules/engine/src/cfr.cpp:348-390 | the thread with least to do |
| Pools.Pool.AddItem | modules/acpc_server/bm_server.c:169-185 | the item goes to the front of the list, in a recycled entry if there is one |
| Pools.Pool.RemoveEntry | modules/acpc_server/bm_server.c:202-221 | exactly that entry leaves the list, and goes to the free list |
| Pools.Pool.EntryInList | modules/acpc_server/bm_server.c:151-167 | whether an entry is in a list |
| Queue.BestGoesFirst | modules/acpc_server/bm_server.c:1277-1330 | the loop's choice is the eligible match that goes before all others: the user who waited longest, then the match queued earliest, then the first on the list; none is chosen only if none is eligible |
| Queue.NobodyIsOvertaken | modules/acpc_server/bm_server.c:1277-1375 | a user who just had a match started is not chosen again while another user's match is eligible |
| Queue.OwnMatchesTakeTurns | modules/acpc_server/bm_server.c:1277-1375 | a match that was started does not start again before another eligible match of its user queued earlier |
| RunCount.RunsAreCounted | modules/acpc_server/bm_server.c:1337-1375 | at any time a queued match has as many runs left as were asked for less those started, and none when off the list, unless a connection it is played over was closed |
| RunCount.StartedAsAsked | modules/acpc_server/bm_server.c:1337-1375 | so a match queued for k runs is started at most k times, and exactly k times when it has left the list and no connection was closed |
| Queue.InvMeans | modules/acpc_server/bm_server.c:1538-1600 | what holds after every step of the server: the counters count the jobs, no limit on jobs or bots is exceeded, no match runs twice, seats hold logged-on users' connections |
| Scheduler.Server.StartMatchJob | modules/acpc_server/bm_server.c:1277-1375 | starts the best match if the bots allow it, and only then; drops matches without runs |
| Scheduler.Server.FinishedJob | modules/acpc_server/bm_server.c:1498-1507 | the job leaves, its game has one job less, and its match is not running any more |
| Scheduler.Server.CleanConnections | modules/acpc_server/bm_server.c:1550-1558 | exactly the closed connections leave the list |
| Scheduler.Server.CloseConnection | modules/acpc_server/bm_server.c:662-681 | matches that use the connection get no more runs |
| Scheduler.Server.HandleConnection | modules/acpc_server/bm_server.c:858-924 | a client not logged on logs on with its first line or is closed; otherwise requests for lists are passed over, and the first other line queues a match if it can be read, or closes at the end of the input; nothing after it is handled |
| Scheduler.Server.Serve | modules/acpc_server/bm_server.c:1538-1600 | the main loop keeps the state valid whatever happens in any number of turns, and goes through steps of module RunCount |

## Left out

- Machine integers: 32-bit overflow (twice a raise less the bet, hand numbers, colexicographic numbers) and buffer
  lengths of text; numbers are unbounded here.
- Floating point: amounts, beliefs, regrets and costs are reals, so rounding is not part of the model.
- Hand strength: ranks of hands are arbitrary numbers; the lookup of modules/core/src/game.c:104 is a table.
- Blinds are not negative, and somebody can act when a hand is dealt; the game file reader is not part of this model.
- Dealer.Dealer.ReadPlayerResponse: response lines arrive parsed, and so they do in Dealer.Recover; module DealerText
  states how a line parses against the state it answers, one line at a time.
- Sockets, log files other than the transaction log, and the shuffle; what a generator state deals is a
  parameter to the dealer. The number of invalid actions is not brought back by the log, as in the original.
- DealerText.EntryReads: signs, and lines longer than the buffer, which the original splits.
- Dealer.Dealer.GameLoop: stacks come from the game, not from the state; a table with stacks in the state is left out.
- Emd.EMD.Compute: whether 500 iterations are enough is not stated, nor how much negative amounts of a plan that is not
  feasible may cost; it compares such a plan with the plans without negative amounts that have its own sums.
- Emd.EMD.Russel: of the order in which cells are picked only the first cell is stated; after it the deltas the
  original updates decide, and only their size is tracked.
- CfrWorker.VectorCfrWorker.WalkTree: the alternate walk; the pairwise walk, sampling of opponents, pruning of
  subtrees and depth-limited trees are left out.
- CfrWorker.VectorCfrWorker.RangeRollout: the update of the average strategy on the way down, and pruning by regret.
- Regret.RegretLearning: one hand's regrets at one node; frozen buckets and pruned entries are left out.
- Regret.NoRegret: against any utilities; averaging of strategies over time and the rescaling of weighted averages are
  left out.
- BettingTree.BuildBettingTree: forced states, depth limits and parent pointers; a node is a value.
- BuiltTrees.WalkValuesTheGame: hands that share no card; a strategy is any function from nodes to probabilities.
- TermEval.TermEvalKernel.StackShowdownProb: flat table indices are two-dimensional arrays.
- RnbaKernel.Strategy.ConvertWavgToZipAvg: threads run one after another; that they touch different cells, whatever
  their order, is RnbaIndex.OneWriter.
- Suits.CanonicalForm: 64-bit masks are four masks of ranks.
- Flops.AllocateFlops: reading the bucket file, and the order the sort gives equal buckets, are parameters; thread
  counts from 60 on are multiples of 30, as the clusters need.
- Pools.Pool.AddItem: entries are known by number instead of by address, so that freed memory is not modelled.
- Scheduler.Server.Serve: sockets, processes and the clock are events given from outside; match tags, seeds, and exits
  after failing system calls are left out.
- Payoffs.StrictHandsAreZeroSum: the value of an unfolded player without chips in the pot, which the original leaves
  undefined, counts as 0.
- Multi-hand bucketing, k-means, file formats, the REST connectors and configuration are not modelled.
