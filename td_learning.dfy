/** The TD-learning slider: a weight agent with one table per feature tuple,
    which remembers the boards it left behind and trains on each pair of
    consecutive ones. Its choice of move and its training arithmetic are
    floating-point and are inputs here: the chosen move is a parameter of
    `TakeAction`, and every call of `train` is recorded in a ghost log. */
module TdLearning {
  import opened Props
  import opened Actions
  import Sliders
  import Features
  import Weights

  class TdSlider<B> {
    /** 0 before the first move, 1 after it, 2 from the second move on. */
    var round: int
    var prev: B
    var next: B
    /** The weight agent the slider extends. */
    const weights: Weights.WeightAgent
    /** Each board the slider moved to, with the reward of that move. */
    ghost var played: seq<(B, int)>
    /** The arguments of each `train(prev, next, reward)` call, in order. */
    ghost var trained: seq<(B, B, int)>

    /** The round counter follows the number of moves up to 2; `prev` and
        `next` are the last two boards reached; and training has run once
        per move after the first, on the two boards the move connects and
        the reward of the later one. */
    ghost predicate Valid()
      reads this
    {
      round == (if |played| < 2 then |played| else 2) &&
      (|played| == 1 ==> prev == played[0].0) &&
      (|played| >= 2 ==> prev == played[|played| - 2].0 && next == played[|played| - 1].0) &&
      |trained| == (if |played| == 0 then 0 else |played| - 1) &&
      forall i :: 0 <= i < |trained| ==> trained[i] == (played[i].0, played[i + 1].0, played[i + 1].1)
    }

    /** Builds the weight agent with the slider's name and role, then adds
        one table of `TilesNum` weights per feature tuple behind any tables
        the `init=` option asked for. `blank` is a default-constructed board. */
    constructor (args: string, blank: B)
      ensures Valid() && played == [] && trained == []
      ensures round == 0 && prev == blank && next == blank
      ensures fresh(weights)
      ensures weights.meta == Bag(Named("slide", "slider") + args)
      ensures weights.net ==
        (if "init" in weights.meta then Weights.Tables(Weights.Sizes(weights.meta["init"])) else []) +
        seq(Features.FeatureNum, _ => Weights.Weight(Weights.TilesNum))
    {
      weights := new Weights.WeightAgent(Named("slide", "slider") + args);
      round := 0;
      prev := blank;
      next := blank;
      played := [];
      trained := [];
      new;
      weights.AppendTables(Features.FeatureNum, Weights.TilesNum);
    }

    /** `bestop` is the move the value function picked, -1 when none. On a
        move, the board it leads to is remembered and, from the second move
        on, training runs on the previous board and this one. */
    method TakeAction(before: B, slide: Sliders.Mover<B>, bestop: int) returns (a: Action)
      requires Valid()
      modifies this
      ensures Valid()
      ensures bestop == -1 ==> a == NoAction && unchanged(this)
      ensures bestop != -1 ==> a == Slide(bestop)
      ensures bestop != -1 ==> played == old(played) + [slide(before, bestop)]
      ensures bestop != -1 && old(round) == 0 ==>
        round == 1 && prev == Sliders.After(slide, before, bestop) && next == old(next) && trained == old(trained)
      ensures bestop != -1 && old(round) == 1 ==>
        round == 2 && prev == old(prev) && next == Sliders.After(slide, before, bestop) &&
        trained == old(trained) + [(old(prev), next, Sliders.Reward(slide, before, bestop))]
      ensures bestop != -1 && old(round) == 2 ==>
        round == 2 && prev == old(next) && next == Sliders.After(slide, before, bestop) &&
        trained == old(trained) + [(old(next), next, Sliders.Reward(slide, before, bestop))]
    {
      var moved := slide(before, bestop);
      var b, bestReward := moved.0, moved.1;
      if bestop == -1 {
        return NoAction;
      }
      played := played + [moved];
      if round == 0 {
        prev := b;
        round := round + 1;
      } else if round == 1 {
        next := b;
        trained := trained + [(prev, next, bestReward)];
        round := round + 1;
      } else {
        prev := next;
        next := b;
        trained := trained + [(prev, next, bestReward)];
      }
      a := Slide(bestop);
    }
  }
}
