/** `BowlingGame` (src/lib.rs): ten frames in a fixed array and two fill-ball slots, updated
    in place by `Roll` and read by `Score`. */
module Bowling {
  import opened Frames
  import opened Rules
  import opened Game

  class BowlingGame {
    var frames: array<Frame>
    var fill: Fill

    /** The current state as a value. */
    function State(): GameState
      reads this, frames
    {
      GameState(frames[..], fill)
    }

    /** The invariants of `GameState.Inv` hold of the current state. */
    ghost predicate Valid()
      reads this, frames
    {
      frames.Length == 10 && State().Inv()
    }

    /** `BowlingGame::new`: ten empty frames and no fill ball. */
    constructor ()
      ensures Valid() && fresh(frames)
      ensures State() == NewGame
      ensures State().Balls() == []
    {
      frames := new Frame[10](_ => EmptyFrame);
      fill := (None, None);
      new;
      assert frames[..] == NewGame.frames;
      NewGameIsEmpty();
    }

    /** `BowlingGame::roll`: a ball of `pins`. A count above ten is refused before anything
        else; otherwise the ball goes to the first incomplete frame, or, once every frame is
        complete, to the fill balls the tenth frame earned. A refused ball changes nothing; an
        accepted one fills exactly one empty slot and is appended to the balls of the game,
        which is what the standard rules on those balls allow. */
    method Roll(pins: u8) returns (r: Result<()>)
      requires Valid()
      modifies this, frames
      ensures Valid() && frames == old(frames)
      ensures r == Answer(old(State().Balls()), pins)
      ensures pins > 10 ==> r == Err(NotEnoughPinsLeft)
      ensures pins <= 10 && old(State().IsComplete()) ==> r == Err(GameComplete)
      ensures r.Ok? <==> !old(State().IsComplete()) && pins as int <= old(State().Standing())
      ensures r.Err? ==> State() == old(State())
      ensures r.Ok? ==> State().Balls() == old(State().Balls()) + [pins as Pins]
      ensures r.Ok? ==> old(State().Slots())[old(State().Target())].None?
      ensures r.Ok? ==> State().Slots() == old(State().Slots())[old(State().Target()) := Some(pins as Pins)]
    {
      if pins > 10 {
        return Err(NotEnoughPinsLeft);
      }
      ghost var st := State();
      ExpectsMatchRules(st);
      var i := 0;
      while i < 10 && frames[i].IsComplete()
        invariant 0 <= i <= 10
        invariant forall j :: 0 <= j < i ==> frames[j].IsComplete()
      {
        i := i + 1;
      }
      FirstOpenIs(st.frames, i);
      if i < 10 {
        PinsIsPinfall(frames[i]);
        var next := frames[i].Roll(pins);
        match next
        case Ok(f) =>
          frames[i] := f;
          r := Ok(());
        case Err(e) =>
          r := Err(e);
      } else if frames[9].IsStrike() {
        if fill.0.None? {
          fill := (Some(pins as Pins), fill.1);
        } else if fill.1.None? {
          if fill.0.value < 10 && fill.0.value + pins > 10 {
            return Err(NotEnoughPinsLeft);
          } else {
            fill := (fill.0, Some(pins as Pins));
          }
        } else {
          return Err(GameComplete);
        }
        r := Ok(());
      } else if frames[9].IsSpare() && fill.0.None? {
        fill := (Some(pins as Pins), fill.1);
        r := Ok(());
      } else {
        r := Err(GameComplete);
      }
      if r.Ok? {
        assert State() == st.Place(pins as Pins);
        PlaceKeepsInv(st, pins as Pins);
        PlaceAppendsBall(st, pins as Pins);
        PlaceFillsTarget(st, pins as Pins);
      }
    }

    /** `BowlingGame::score`: nothing while the game is incomplete; once complete, the
        standard ten-pin score of the balls thrown, which fits the `u16` accumulator. */
    method Score() returns (s: Option<u16>)
      requires frames.Length == 10 && Askable(frames[..])
      ensures s.None? <==> !State().IsComplete()
      ensures Valid() ==> (s.None? <==> !Over(State().Balls()))
      ensures Valid() && s.Some? ==> s.value as int == StandardScore(State().Balls())
      ensures Valid() && s.Some? ==> s.value <= 300
    {
      ghost var st := State();

      if !State().IsComplete() {
        if Valid() {
          ScoreMatchesRules(st);
        }
        return None;
      }
      var score: u16 := 0;
      // A frame's share is at most 20 + 20 + 10 here: `Score` does not assume `Valid()`, so a
      // frame's pins are only known to be at most 20.
      for i := 0 to 8
        invariant score as int == SharesBefore(st, i) <= 50 * i
      {
        ghost var share := Share(st, i);
        score := score + frames[i].Pins() as u16;
        if frames[i].IsStrike() {
          score := score + frames[i + 1].Pins() as u16;
          if frames[i + 1].IsStrike() {
            score := score + frames[i + 2].roll.0.value as u16;
          }
        } else if frames[i].IsSpare() {
          score := score + frames[i + 1].roll.0.value as u16;
        }
        assert SharesBefore(st, i + 1) == SharesBefore(st, i) + share;
      }

      score := score + frames[8].Pins() as u16;
      if frames[8].IsStrike() {
        score := score + frames[9].Pins() as u16;
        if frames[9].IsStrike() {
          score := score + fill.0.value as u16;
        }
      } else if frames[8].IsSpare() {
        score := score + frames[9].roll.0.value as u16;
      }

      assert score as int == SharesBefore(st, 9) <= 50 * 9;
      score := score + frames[9].Pins() as u16;
      if frames[9].IsStrike() {
        score := score + fill.0.value as u16 + fill.1.value as u16;
      } else if frames[9].IsSpare() {
        score := score + fill.0.value as u16;
      }

      if Valid() {
        ScoreMatchesRules(st);
      }
      s := Some(score);
    }
  }
}
