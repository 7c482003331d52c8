# Threes! agents, TD-learning variant: a Dafny model

This project models the integer and string logic of the agents in
`v2-TD_learning/agent.h` of a framework that plays Threes!. An agent is a
player ("slider") or the environment ("placer"). The model covers:

- the property bag every agent parses from its argument string (`agent`'s
  constructor, `property`, `notify`, `name`, `role`);
- the weight agent's `init=` option, which sizes its weight tables
  (`weight_agent::init_weights`);
- the n-tuple feature table (four rows and four columns of the 4x4 board);
- the random placer, which puts the hint tile on an empty cell of the edge
  the last move exposed and draws the next hint from the bag;
- the random, one-step, two-step and three-step greedy sliders, over an
  abstract `slide`;
- the round counter and the `prev`/`next` boards of the TD-learning slider,
  with every `train` call recorded.

Modules:

- `Props` (props.dfy): tokenising, `find`/`substr` with `npos`, the map the
  constructor builds, and the `Agent` class.
- `Features` (features.dfy): the feature table and its row/column arithmetic.
- `Weights` (weights.dfy): digit runs, `size_t` reading, and the
  `WeightAgent` class.
- `Actions` (action.dfy): the action an agent returns.
- `Sliders` (sliders.dfy): the move selectors and their specification by
  argmax, plus the two findings below.
- `Placer` (placer.dfy): the random placer.
- `TdLearning` (td_learning.dfy): the TD-learning slider's state machine.

The board is not modelled:

- The sliders see it as a type parameter `B` with a function
  `slide: (B, int) -> (B, int)`. It gives the board after `board(b).slide(op)`
  and the reward, where -1 means an illegal move.
- The placer sees a `BoardView` with the cells, `last()`, `bag(t)` and
  `hint()`.
- Every `std::shuffle` outcome is a parameter: the resulting order, or a
  permutation of indices.

The model follows the code as written, including where it does less than
a Threes! player is usually built to do:

- The TD-learning slider evaluates the eight tuples as they stand, with no
  symmetric copies of the board and no expectimax bonus.
- The two- and three-step greedy sliders score an illegal first move like
  any other instead of skipping it, although a slider should never choose
  an illegal move; see "## Findings". The one-step slider never returns an
  illegal move: a reward of -1 never beats its starting value -1.
- The feature index is never computed: `FindTileIndex` has no `return`.

## Model

| member | source | states |
|---|---|---|
| Props.TokensAreWords | v2-TD_learning/agent.h:50 | every token `ss >> pair` extracts is non-empty and holds no whitespace |
| Props.Tokens | v2-TD_learning/agent.h:50 | no more tokens than characters, and none exactly when the text is all whitespace |
| Props.TokensAppend | v2-TD_learning/agent.h:49-50 | text that ends in whitespace tokenises independently of what follows it, so a prepended prefix gives its own tokens first |
| Props.Find | v2-TD_learning/agent.h:51 | `find('=')` is the index of the first '=' (none before it), or `npos` when there is no '=' |
| Props.Substr | v2-TD_learning/agent.h:51-52 | `substr(pos, len)` is the text starting at `pos`, `len` characters long or up to the end when fewer are left |
| Props.Key | v2-TD_learning/agent.h:51 | the key is a prefix of the token and holds no '=' |
| Props.Value | v2-TD_learning/agent.h:52 | the value is no longer than the token, and a suffix of it for any token no longer than `npos` |
| Props.SplitPair | v2-TD_learning/agent.h:51-52 | splitting `k=v` gives back `k` and `v` when `k` has no '=' (round trip writing then splitting) |
| Props.SplitAtEquals | v2-TD_learning/agent.h:51-52 | with an '=', key and value rejoin around '=' to the token, and the key has no '=' (round trip splitting then writing) |
| Props.SplitWithoutEquals | v2-TD_learning/agent.h:51-52 | without an '=', `npos + 1` wraps to 0 so key and value are both the whole token |
| Props.Collect | v2-TD_learning/agent.h:50-54 | every token's key is in the map the insertion loop builds |
| Props.CollectKeys | v2-TD_learning/agent.h:50-54 | a key is in the map exactly when some token carries it |
| Props.CollectLastWins | v2-TD_learning/agent.h:50-54 | each key maps to the value of the last token that carries it |
| Props.CollectOverride | v2-TD_learning/agent.h:50-54 | later tokens override earlier ones with the same key; other keys keep the earlier tokens' values |
| Props.NamedPrefixTokens | v2-TD_learning/agent.h:49 | the `name=<n> role=<r> ` prefix tokenises to exactly its two pairs |
| Props.NamedTokens | v2-TD_learning/agent.h:49 | a prefixed argument string tokenises to the two pairs followed by the caller's tokens |
| Props.NamedLastWins | v2-TD_learning/agent.h:49-54 | behind the prefix, `name` and `role` are always present and a caller's `name=`/`role=` wins over the prefix |
| Props.Bag | v2-TD_learning/agent.h:48-55 | the bag parsed from `name=unknown role=unknown ` plus the arguments always has `name` and `role` |
| Props.NamedAgent | v2-TD_learning/agent.h:187 | an agent built with `name=slide role=slider ` plus arguments (and likewise for the other agents) is named by the caller's `name=` when given, otherwise by its own prefix; it is never the `unknown` default unless the caller supplies it |
| Props.ParseArgs | v2-TD_learning/agent.h:48-55 | the insertion loop builds `Bag(args)`, one map update per token in order, so `name` and `role` are present |
| Props.Agent.constructor | v2-TD_learning/agent.h:48-55 | the new agent's bag is the parsed map, and `name()`/`role()` can be answered |
| Props.Agent.Property | v2-TD_learning/agent.h:63 | `meta.at(key)` yields the stored value, and fails exactly when the key is absent |
| Props.Agent.Name | v2-TD_learning/agent.h:65 | `name()` is `property("name")` |
| Props.Agent.Role | v2-TD_learning/agent.h:66 | `role()` is `property("role")` |
| Props.Agent.Notify | v2-TD_learning/agent.h:64 | sets the entry keyed by the text before the first '=' to the text after it; every other property is unchanged |
| Features.FeatureShape | v2-TD_learning/agent.h:28-44 | 8 tuples of 4 cells; every cell index is in 0..15 and its row and column are in 0..3 |
| Features.RowsThenColumns | v2-TD_learning/agent.h:28-44 | tuples 0..3 are the rows left to right; tuples 4..7 are the columns top to bottom |
| Features.CellInTwoTuples | v2-TD_learning/agent.h:28-44 | a cell lies in tuple `t` exactly when `t` is its row or 4 plus its column, so it lies in exactly two tuples |
| Features.Row | v2-TD_learning/agent.h:331 | `i / 4` is never negative and names one of the four rows for a cell of the board |
| Features.Column | v2-TD_learning/agent.h:332 | `i % 4` names one of the four columns |
| Features.RowColumnRoundTrip | v2-TD_learning/agent.h:331-332 | `i / 4` and `i % 4` name cell `i` uniquely: row and column give the cell back, and the reverse |
| Features.Coordinates | v2-TD_learning/agent.h:330-332 | the (row, column) pairs a tuple is read at are `(t, j)` for a row tuple and `(j, t - 4)` for a column tuple, all on the board |
| Weights.DigitRuns | v2-TD_learning/agent.h:115-118 | each run the stream can read is non-empty and all digits |
| Weights.DigitRunsCover | v2-TD_learning/agent.h:115-118 | the runs together are every digit of `info`, in order |
| Weights.Blanked | v2-TD_learning/agent.h:115-116 | the rewritten text has the same length, keeps every digit in place, and holds nothing but digits and spaces |
| Weights.BlankedTokens | v2-TD_learning/agent.h:115-117 | after non-digits become spaces, the stream's tokens are exactly the maximal digit runs, so any non-digit separates two sizes |
| Weights.Decimal | v2-TD_learning/agent.h:118 | a run of `k` digits reads as a number below `10^k` |
| Weights.DecimalBound | v2-TD_learning/agent.h:118 | a run of at most 19 digits fits in `size_t` |
| Weights.Readable | v2-TD_learning/agent.h:118 | `in >> size` yields at most one size per run, and each fits in `size_t` |
| Weights.Sizes | v2-TD_learning/agent.h:113-118 | the sizes read from `info` are its leading digit runs read in base ten, in order, at most one per run |
| Weights.ReadableRuns | v2-TD_learning/agent.h:118 | the sizes read are the runs' decimal values in order, and reading stops only at a run too large for `size_t` |
| Weights.SizesOfShortRuns | v2-TD_learning/agent.h:113-118 | when no run overflows, `info` yields exactly one size per digit run, each the run's value |
| Weights.Tables | v2-TD_learning/agent.h:118 | one table per size, each sized as given, in order |
| Weights.WeightAgent.ReadSizes | v2-TD_learning/agent.h:118 | the reading loop appends one table per readable size, in order, after the tables already there |
| Weights.BlankNonDigits | v2-TD_learning/agent.h:114-117 | the in-place rewrite keeps digits, turns every other character into a space, and tokenises to the digit runs |
| Weights.WeightAgent.constructor | v2-TD_learning/agent.h:99-101 | the new agent's net holds one table per size `init=` gives, and is empty without `init=` |
| Weights.WeightAgent.InitWeights | v2-TD_learning/agent.h:113-118 | appends one table per size read from `info` after the tables already there; the property bag is unchanged |
| Weights.WeightAgent.AppendTables | v2-TD_learning/agent.h:295-297 | appends `count` tables of `size` entries and keeps the rest |
| Sliders.Best | v2-TD_learning/agent.h:210-216 | the running best is never below the starting value -1 |
| Sliders.ArgBest | v2-TD_learning/agent.h:209-216 | `bestOp` is -1 or an index of the scores |
| Sliders.BestIsFirstMaximum | v2-TD_learning/agent.h:209-217 | the strict-`>` scan from -1 ends at a value bounding every score, so at the maximum of -1 and the scores; it keeps index -1 exactly when no score exceeds -1, and otherwise the first index holding the maximum |
| Sliders.ChoosesUnique | v2-TD_learning/agent.h:208-220 | the argmax with sentinel and earliest-tie rule determines a single action |
| Sliders.Choice | v2-TD_learning/agent.h:218-219 | returning `slide(bestOp)` unless `bestReward` is still -1 is the argmax with sentinel -1 and earliest-tie rule that `Chooses` defines |
| Sliders.Lookahead | v2-TD_learning/agent.h:237-241 | the inner best `bestReward2` (and `bestReward3`) is never below its starting value -1 |
| Sliders.Score | v2-TD_learning/agent.h:242 | the total compared for an op is at least its own reward minus 1 |
| Sliders.Scores | v2-TD_learning/agent.h:242 | the total compared for each op is its reward plus the best lookahead from the board it leaves |
| Sliders.LookaheadIsBest | v2-TD_learning/agent.h:237-241 | the inner best bounds every op's total and is attained by some op unless it is the sentinel -1 |
| Sliders.OneStepScores | v2-TD_learning/agent.h:212 | with no lookahead an op's score is its plain reward |
| Sliders.FirstLegal | v2-TD_learning/agent.h:192-196 | returns the first op in the order whose reward is not -1, and no action exactly when every op is illegal |
| Sliders.RandomSlider.constructor | v2-TD_learning/agent.h:187-188 | the move order starts as 0, 1, 2, 3 |
| Sliders.RandomSlider.TakeAction | v2-TD_learning/agent.h:190-197 | keeps the shuffled order as its new state and returns the first op of that order whose reward is not -1, or no action exactly when all four are illegal |
| Sliders.Greedy1Step | v2-TD_learning/agent.h:208-220 | the legal op of greatest reward, the earliest among ties; no action exactly when every reward is -1 |
| Sliders.BestReward | v2-TD_learning/agent.h:271-274 | the innermost loop yields the maximum of -1 and the four rewards |
| Sliders.BestTwoStep | v2-TD_learning/agent.h:267-276 | the middle loop of the three-step slider yields the best two-move total from its board |
| Sliders.Greedy2Step | v2-TD_learning/agent.h:231-249 | the op maximising reward plus best follow-up reward, earliest among ties; no action exactly when no total exceeds -1 |
| Sliders.Greedy3Step | v2-TD_learning/agent.h:260-284 | the same with a two-move follow-up lookahead |
| Sliders.IllegalFirstMoveChosen | v2-TD_learning/agent.h:236-245 | at depth 2 and 3 there is a board where the slider's choice is an illegal move |
| Sliders.DeadBoard | v2-TD_learning/agent.h:271-275 | on a board where every move is illegal, every lookahead from depth 1 on is the sentinel -1 |
| Sliders.DeadFollowUp | v2-TD_learning/agent.h:242-248 | on a board where move 1 is the only legal move, has reward 0 and leads to a board with no legal move, and every illegal move leaves the board as it is, no two- or three-step total exceeds -1, so the slider returns no action |
| Sliders.LegalMoveDropped | v2-TD_learning/agent.h:242-248 | at depth 2 and 3 there is a board with a legal move where the slider returns no action |
| Sliders.GreedyLegal | v2-TD_learning/agent.h:231-249 | corrected slider: only legal ops compete, the best total wins, earliest among ties; no action exactly when no op is legal |
| Placer.Spaces | v2-TD_learning/agent.h:150-154 | each candidate table lists cells of the board |
| Placer.SpacesAreEdges | v2-TD_learning/agent.h:150-154 | after a slide the candidates are the bottom row, left column, top row or right column of the feature table; before one, every cell |
| Placer.Tiles | v2-TD_learning/agent.h:164-166 | the filled bag holds as many tiles as the counts say, each a kind 1..3 |
| Placer.Total | v2-TD_learning/agent.h:164-166 | the number of tiles filled is the sum of the three counts |
| Placer.FillBag | v2-TD_learning/agent.h:163-166 | the nested loops fill `bag[0..num)` with the ones, then the twos, then the threes, and `num` is their total |
| Placer.Shuffled | v2-TD_learning/agent.h:167 | shuffling by an index permutation keeps the number of tiles (that it keeps the tiles themselves is `Placer.ShuffledPermutes`) |
| Placer.ShuffledPermutes | v2-TD_learning/agent.h:159-167 | `std::shuffle` by a permutation of the indices yields a permutation of its input: the same multiset of candidates or tiles |
| Placer.TwoDraws | v2-TD_learning/agent.h:169-170 | two draws from distinct positions take two tiles out of the bag |
| Placer.ShuffledFrom | v2-TD_learning/agent.h:158-159 | a shuffled copy of the candidates (or of the bag) holds only their elements |
| Placer.Order | v2-TD_learning/agent.h:158-159 | the shuffled candidates are exactly the cells of `spaces[last]`, each as often as there, in a new order |
| Placer.Drawn | v2-TD_learning/agent.h:169-170 | the next hint is a tile 1..3; the tile is the board's hint when it has one and otherwise a tile 1..3 |
| Placer.DrawnFromBag | v2-TD_learning/agent.h:169-170 | the new hint is a tile of the bag; without a hint on the board the tile is one too, drawn from a different position, so the two together are taken out of the bag |
| Placer.Draw | v2-TD_learning/agent.h:163-170 | filling, shuffling and popping the array gives exactly the tile and hint taken from the end of the shuffled bag |
| Placer.FirstEmpty | v2-TD_learning/agent.h:160-161 | the first empty candidate in the order, or none exactly when every candidate is occupied |
| Placer.TakeAction | v2-TD_learning/agent.h:157-175 | places on a candidate cell of `spaces[last]` that is empty and is the first empty one in the shuffled order, with the tile and hint taken from the end of the shuffled bag (both 1..3 by `Placer.Drawn`); no action exactly when every candidate is occupied; never a slide |
| TdLearning.TdSlider.constructor | v2-TD_learning/agent.h:292-298 | the net is the `init=` tables followed by 8 tables of 2^15 weights; round 0, nothing played or trained |
| TdLearning.TdSlider.TakeAction | v2-TD_learning/agent.h:300-326 | with no move nothing changes; otherwise round 0 stores `prev` and moves to 1, round 1 stores `next`, trains and moves to 2, round 2 shifts `next` into `prev` and trains; training always runs on two consecutive boards with the later move's reward |

## Left out

- The floating-point value path is not modelled: `CalculateBoardValue`, `SelectBestOp` and the arithmetic of `train`, including `tdError` and the learning rate. The move `SelectBestOp` picks is a parameter of `TdLearning.TdSlider.TakeAction`. Each `train` call is recorded with its arguments, and its effect on the weights is not modelled.
- `FindTileIndex` falls off its end without a `return` (undefined behaviour). Only its row/column arithmetic is modelled (`Features.Coordinates`).
- Number coercion through `std::stod` is not modelled: the `alpha=` option and the `seed=` option that seeds the random engine.
- `load_weights`, `save_weights`, the destructor's save and `std::exit` are file I/O and are not modelled.
- `std::default_random_engine` and `std::shuffle` are not modelled. Each shuffle's outcome is a parameter: the slider's new move order, and permutations of the placer's candidates and of its bag.
- board.h, action.h and weight.h are not part of this model. The board is a type parameter with an abstract `slide`, or a `BoardView`. An action is a datatype. A weight table is reduced to its length.
- The base class's `open_episode`, `close_episode`, `take_action` and `check_for_win` do nothing or return constants, and are not modelled.
- Inheritance is not modelled. `WeightAgent` keeps its own property bag, parsed as `Agent` parses it. `TdSlider` holds its `WeightAgent` as a field. The random agents' constructors appear only through the prefix they add (`Props.NamedAgent`).
- Sliders.Greedy2Step: rewards and their sums are unbounded integers. The model does not capture `int` overflow of `reward1 + bestReward2` at agent.h:242.
- Sliders.Greedy3Step: likewise, the model does not capture `int` overflow of the sums at agent.h:275 and agent.h:277.
- Placer.TakeAction: when an empty candidate exists, it requires the bag to hold between `Need(hint)` and 3 tiles. Outside that range, `int bag[3]` overflows or `bag[--num]` reads before the array, and the source's behaviour is undefined.
- Weights.BlankNonDigits: `std::isdigit` on a negative `char` is undefined. The model treats exactly '0'..'9' as digits.

## Findings

| source | as written | input that shows it | evidently intended | confidence | as-written member | corrected member |
|---|---|---|---|---|---|---|
| v2-TD_learning/agent.h:236-245 | an illegal first move is scored as -1 plus the best follow-up from the unchanged board, and can win; this needs a legal move that leads to a board with no legal move, which the model's abstract `slide` allows and which Threes! slide rules may never produce | `Chain(depth - 1)` from board 0: move 0 is illegal yet ties with the only legal move and is chosen as the earlier one | skip illegal first moves | not executed | Sliders.IllegalFirstMoveChosen | Sliders.GreedyLegal |
| v2-TD_learning/agent.h:242-248 | a legal move whose follow-ups are all illegal totals -1 and never beats the sentinel, so the slider returns no action; this too needs a legal move that leads to a board with no legal move, which Threes! slide rules may never produce | `ZeroThenStuck()` from board 0: move 1 is legal with reward 0 and every move after it is illegal | return a legal move whenever one exists | not executed | Sliders.LegalMoveDropped | Sliders.GreedyLegal |
