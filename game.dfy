/** The state of a `BowlingGame` (src/lib.rs) as a value: ten frames and the two fill-ball
    slots. The queries of the game are functions of this value; the invariants the game keeps
    and their connection to the standard rules of `Rules` are lemmas about it. */
module Game {
  import opened Frames
  import opened Rules

  /** The two fill-ball slots after the tenth frame. */
  type Fill = (Option<Pins>, Option<Pins>)

  /** The pair with `p` stored in its first empty slot. */
  function PutFirst(pair: (Option<Pins>, Option<Pins>), p: Pins): (r: (Option<Pins>, Option<Pins>))
    requires pair.0.None? ==> pair.1.None?
    requires pair.0.None? || pair.1.None?
    ensures Present(r) == Present(pair) + [p]
    ensures r.0.Some?
  {
    if pair.0.None? then (Some(p), pair.1) else (pair.0, Some(p))
  }

  /** The balls held by a run of frames, frame after frame. */
  function FlatBalls(fs: seq<Frame>): seq<Pins>
  {
    if fs == [] then [] else fs[0].Balls() + FlatBalls(fs[1..])
  }

  /** The balls of a run of frames are those before frame `k`, frame `k`'s, then those after. */
  lemma {:induction false} FlatBallsAround(fs: seq<Frame>, k: nat)
    requires k < |fs|
    ensures FlatBalls(fs) == FlatBalls(fs[..k]) + fs[k].Balls() + FlatBalls(fs[k + 1..])
  {
    var tail := fs[1..];
    assert FlatBalls(fs) == fs[0].Balls() + FlatBalls(tail);
    if k == 0 {
      assert FlatBalls(fs[..0]) == [];
    } else {
      FlatBallsAround(tail, k - 1);
      var front := fs[..k];
      assert front[0] == fs[0] && front[1..] == tail[..k - 1];
      assert FlatBalls(front) == fs[0].Balls() + FlatBalls(tail[..k - 1]);
      assert tail[k..] == fs[k + 1..];
      var a, b, c, d := fs[0].Balls(), FlatBalls(tail[..k - 1]), fs[k].Balls(), FlatBalls(fs[k + 1..]);
      assert a + (b + c + d) == (a + b) + c + d;
    }
  }

  /** Empty frames hold no ball. */
  lemma {:induction false} FlatBallsOfEmpty(fs: seq<Frame>)
    requires forall i :: 0 <= i < |fs| ==> fs[i] == EmptyFrame
    ensures FlatBalls(fs) == []
  {
    if fs != [] {
      FlatBallsOfEmpty(fs[1..]);
    }
  }

  /** Every frame satisfies the assertion of `is_strike`, so the frame queries may be asked. */
  predicate Askable(fs: seq<Frame>)
  {
    forall i :: 0 <= i < |fs| ==> fs[i].StrikeAlone()
  }

  /** The frame `BowlingGame::roll` searches for: the first incomplete frame, or `|fs|` when
      every frame is complete. */
  function FirstOpen(fs: seq<Frame>): (k: nat)
    requires Askable(fs)
    ensures k <= |fs|
    ensures forall i :: 0 <= i < k ==> fs[i].IsComplete()
    ensures k < |fs| ==> !fs[k].IsComplete()
  {
    if fs == [] then 0
    else if !fs[0].IsComplete() then 0
    else
      assert Askable(fs[1..]) by {
        forall i | 0 <= i < |fs| - 1 ensures fs[1..][i].StrikeAlone() {
          assert fs[1..][i] == fs[i + 1];
        }
      }
      var k := FirstOpen(fs[1..]);
      assert forall i :: 1 <= i < k + 1 ==> fs[i] == fs[1..][i - 1];
      1 + k
  }

  /** The first incomplete frame is characterised by the frames before it being complete. */
  lemma FirstOpenIs(fs: seq<Frame>, k: nat)
    requires Askable(fs)
    requires k <= |fs|
    requires forall i :: 0 <= i < k ==> fs[i].IsComplete()
    requires k < |fs| ==> !fs[k].IsComplete()
    ensures FirstOpen(fs) == k
  {
  }

  datatype GameState = GameState(frames: seq<Frame>, fill: Fill) {

    /** The invariants `BowlingGame::roll` keeps: every frame keeps the invariants of
        `Frame::roll` and holds no ball after a strike; frames fill in index order; the fill
        slots fill in order, only once every frame is complete, the first only after a strike
        or spare in the tenth frame, the second only after a strike there, and the two
        together knock down at most ten pins unless the first was a strike. */
    ghost predicate Inv()
    {
      |frames| == 10 &&
      (forall i :: 0 <= i < 10 ==> frames[i].Valid() && frames[i].StrikeAlone()) &&
      (forall i :: FirstOpen(frames) < i < 10 ==> frames[i] == EmptyFrame) &&
      (fill.1.Some? ==> fill.0.Some?) &&
      (fill.0.Some? ==> FirstOpen(frames) == 10 && (frames[9].IsStrike() || frames[9].IsSpare())) &&
      (fill.1.Some? ==> frames[9].IsStrike()) &&
      (fill.0.Some? && fill.1.Some? && fill.0.value < 10 ==> fill.0.value as int + fill.1.value as int <= 10)
    }

    /** The balls thrown from frame `i` on, fill balls included. */
    function BallsFrom(i: nat): seq<Pins>
      requires i <= |frames|
    {
      FlatBalls(frames[i..]) + Present(fill)
    }

    /** Every ball the game holds, in the order it was thrown. */
    function Balls(): seq<Pins>
    {
      BallsFrom(0)
    }

    /** `BowlingGame::is_complete`: every frame is complete and every fill ball that the
        tenth frame earned has been thrown. */
    predicate IsComplete()
      requires |frames| == 10 && Askable(frames)
    {
      if forall i :: 0 <= i < 10 ==> frames[i].IsComplete() then
        if frames[9].IsStrike() then fill.0.Some? && fill.1.Some?
        else if frames[9].IsSpare() then fill.0.Some?
        else true
      else false
    }

    /** The pins a ball may knock down next: those left standing in the first incomplete
        frame, or after a first fill ball below ten, and otherwise all ten. */
    ghost function Standing(): (r: int)
      requires Inv()
      ensures 0 <= r <= 10
    {
      var k := FirstOpen(frames);
      if k < 10 then 10 - frames[k].Pins() as int
      else if frames[9].IsStrike() && fill.0.Some? && fill.1.None? && fill.0.value < 10 then 10 - fill.0.value as int
      else 10
    }

    /** All 22 roll slots in order: two per frame, then the two fill slots. */
    function Slots(): (r: seq<Option<Pins>>)
      requires |frames| == 10
      ensures |r| == 22
    {
      seq(22, j requires 0 <= j < 22 =>
        if j < 20 then (if j % 2 == 0 then frames[j / 2].roll.0 else frames[j / 2].roll.1)
        else if j == 20 then fill.0 else fill.1)
    }

    /** The slot the next ball goes to: the first empty slot of the first incomplete frame, or
        the first empty fill slot once every frame is complete. */
    ghost function Target(): (t: nat)
      requires Inv()
      ensures !IsComplete() ==> t < 22 && Slots()[t].None?
    {
      var k := FirstOpen(frames);
      if k < 10 then 2 * k + |frames[k].Balls()| else 20 + |Present(fill)|
    }

    /** The state after a ball of `pins` goes to the target slot. */
    ghost function Place(pins: Pins): GameState
      requires Inv() && !IsComplete()
    {
      var k := FirstOpen(frames);
      if k < 10 then GameState(frames[k := Frame(PutFirst(frames[k].roll, pins))], fill)
      else GameState(frames, PutFirst(fill, pins))
    }
  }

  /** The state of a new game: ten empty frames and no fill ball. */
  const NewGame := GameState(seq(10, _ => EmptyFrame), (None, None))

  lemma NewGameIsEmpty()
    ensures NewGame.Inv()
    ensures NewGame.Balls() == []
  {
    FirstOpenIs(NewGame.frames, 0);
    assert NewGame.frames[0..] == NewGame.frames;
    FlatBallsOfEmpty(NewGame.frames);
  }

  /** Frame `i`'s balls come first among the balls thrown from frame `i` on. */
  lemma BallsFromUnfold(st: GameState, i: nat)
    requires i < |st.frames|
    ensures st.BallsFrom(i) == st.frames[i].Balls() + st.BallsFrom(i + 1)
  {
    assert st.frames[i..][1..] == st.frames[i + 1..];
  }

  /** Nothing has been thrown after the first incomplete frame. */
  lemma NothingAfterOpen(st: GameState)
    requires st.Inv() && FirstOpen(st.frames) < 10
    ensures st.BallsFrom(FirstOpen(st.frames) + 1) == []
  {
    var k := FirstOpen(st.frames);
    FlatBallsOfEmpty(st.frames[k + 1..]);
  }

  /** What the game accepts next, read from its state: nothing once complete, and otherwise a
      ball of at most `Standing()` pins. */
  ghost function Expects(st: GameState): Next
    requires st.Inv()
  {
    if st.IsComplete() then Finished else Awaiting(st.Standing())
  }

  /** The last frame with the fill balls is waiting for what the state says. */
  lemma LastFrameExpects(st: GameState)
    requires st.Inv() && FirstOpen(st.frames) >= 9
    ensures LastFrame(st.BallsFrom(9)) == Expects(st)
  {
    BallsFromUnfold(st, 9);
    assert st.frames[10..] == [];
    var f := st.frames[9];
    var bs := st.BallsFrom(9);
    assert bs == f.Balls() + Present(st.fill);
    if FirstOpen(st.frames) == 9 {
      assert st.fill == (None, None);
      assert bs == f.Balls();
    }
  }

  /** The first incomplete frame, other than the last, is waiting for what the state says. */
  lemma OpenFrameExpects(st: GameState, i: nat)
    requires st.Inv() && i < 9 && i == FirstOpen(st.frames)
    ensures NextBall(st.BallsFrom(i), 10 - i) == Expects(st)
  {
    BallsFromUnfold(st, i);
    NothingAfterOpen(st);
    PinsIsPinfall(st.frames[i]);
    assert st.BallsFrom(i) == st.frames[i].Balls();
  }

  /** After a complete frame other than the last, the standard rules go on with the next. */
  lemma CompleteFrameStep(st: GameState, i: nat)
    requires st.Inv() && i < 9 && i < FirstOpen(st.frames)
    ensures NextBall(st.BallsFrom(i), 10 - i) == NextBall(st.BallsFrom(i + 1), 9 - i)
  {
    BallsFromUnfold(st, i);
    var f := st.frames[i];
    var bs := st.BallsFrom(i);
    assert f.IsComplete();
    if f.IsStrike() {
      assert bs[1..] == st.BallsFrom(i + 1);
    } else {
      assert bs[2..] == st.BallsFrom(i + 1);
    }
  }

  /** From any frame up to the first incomplete one, the standard rules on the balls thrown
      since wait for what the state says. */
  lemma {:induction false} NextBallFrom(st: GameState, i: nat)
    requires st.Inv()
    requires i <= 9 && i <= FirstOpen(st.frames)
    ensures NextBall(st.BallsFrom(i), 10 - i) == Expects(st)
    decreases 9 - i
  {
    if i == 9 {
      LastFrameExpects(st);
    } else if i == FirstOpen(st.frames) {
      OpenFrameExpects(st, i);
    } else {
      NextBallFrom(st, i + 1);
      CompleteFrameStep(st, i);
    }
  }

  /** The standard rules, applied to the balls the game holds, accept next exactly what the
      game's state says: nothing when it is complete, otherwise at most `Standing()` pins. */
  lemma ExpectsMatchRules(st: GameState)
    requires st.Inv()
    ensures NextBall(st.Balls(), 10) == Expects(st)
    ensures st.IsComplete() <==> Over(st.Balls())
  {
    NextBallFrom(st, 0);
  }

  /** A ball the state accepts keeps every invariant of the game. */
  lemma PlaceKeepsInv(st: GameState, pins: Pins)
    requires st.Inv() && !st.IsComplete() && pins as int <= st.Standing()
    ensures st.Place(pins).Inv()
  {
    var k := FirstOpen(st.frames);
    var next := st.Place(pins);
    if k < 10 {
      var f := Frame(PutFirst(st.frames[k].roll, pins));
      assert f.Valid();
      assert next.frames == st.frames[k := f];
      assert Askable(next.frames);
      if f.IsComplete() {
        FirstOpenIs(next.frames, k + 1);
      } else {
        FirstOpenIs(next.frames, k);
      }
    } else {
      assert next.frames == st.frames;
    }
  }

  /** A ball the state accepts is appended to the balls the game holds. */
  lemma PlaceAppendsBall(st: GameState, pins: Pins)
    requires st.Inv() && !st.IsComplete() && pins as int <= st.Standing()
    ensures st.Place(pins).Balls() == st.Balls() + [pins]
  {
    var k := FirstOpen(st.frames);
    assert st.frames[0..] == st.frames;
    if k < 10 {
      var fs := st.frames;
      var next := fs[k := Frame(PutFirst(fs[k].roll, pins))];
      assert st.Place(pins) == GameState(next, st.fill);
      assert next[0..] == next;
      assert st.fill == (None, None);
      FlatBallsAround(fs, k);
      FlatBallsAround(next, k);
      assert next[..k] == fs[..k] && next[k + 1..] == fs[k + 1..];
      FlatBallsOfEmpty(fs[k + 1..]);
    } else {
      assert st.Place(pins) == GameState(st.frames, PutFirst(st.fill, pins));
    }
  }

  /** A ball the state accepts fills its target slot, which was empty, and changes no other. */
  lemma PlaceFillsTarget(st: GameState, pins: Pins)
    requires st.Inv() && !st.IsComplete() && pins as int <= st.Standing()
    ensures st.Slots()[st.Target()].None?
    ensures st.Place(pins).Slots() == st.Slots()[st.Target() := Some(pins)]
  {
  }

  /** On a complete game, what the first balls from frame `j` on are: the first ball of
      frame `j`, then for a strike the next frame's balls, otherwise the frame's second ball;
      from the fill slots (`j == 10`), the fill balls, a missing one counting zero. */
  lemma Lookahead(st: GameState, j: nat)
    requires st.Inv() && st.IsComplete() && j <= 10
    ensures j < 10 ==> st.frames[j].roll.0.Some? && At(st.BallsFrom(j), 0) == st.frames[j].roll.0.value as nat
    ensures j < 10 && st.frames[j].IsStrike() ==> At(st.BallsFrom(j), 1) == At(st.BallsFrom(j + 1), 0)
    ensures j < 10 && !st.frames[j].IsStrike() ==>
              At(st.BallsFrom(j), 0) + At(st.BallsFrom(j), 1) == st.frames[j].Pins() as nat
    ensures j == 10 ==> At(st.BallsFrom(10), 0) == (if st.fill.0.Some? then st.fill.0.value as nat else 0)
    ensures j == 10 ==> At(st.BallsFrom(10), 1) == (if st.fill.1.Some? then st.fill.1.value as nat else 0)
  {
    if j < 10 {
      BallsFromUnfold(st, j);
      assert st.frames[j].IsComplete();
    } else {
      assert st.frames[10..] == [];
    }
  }

  /** On a complete game, the standard score of the frames from `i` on is frame `i`'s pinfall,
      plus the next two balls after a strike or the next ball after a spare, plus the standard
      score of the frames after it. */
  lemma ScoreStep(st: GameState, i: nat)
    requires st.Inv() && st.IsComplete() && i < 10
    ensures var rest := st.BallsFrom(i + 1);
      ScoreFrames(st.BallsFrom(i), 10 - i) ==
        st.frames[i].Pins() as int
        + (if st.frames[i].IsStrike() then At(rest, 0) + At(rest, 1)
           else if st.frames[i].IsSpare() then At(rest, 0)
           else 0)
        + ScoreFrames(rest, 9 - i)
  {
    BallsFromUnfold(st, i);
    var f := st.frames[i];
    var bs := st.BallsFrom(i);
    var rest := st.BallsFrom(i + 1);
    assert f.IsComplete();
    if f.IsStrike() {
      assert bs[1..] == rest;
    } else {
      assert bs[2..] == rest;
    }
  }

  /** The first ball from frame `j` on, for `j <= 9`, or the fill ball `j - 10` after them;
      a missing fill ball counts zero. */
  ghost function FirstBall(st: GameState, j: nat): nat
    requires |st.frames| == 10 && j < 12
  {
    if j < 10 then (if st.frames[j].roll.0.Some? then st.frames[j].roll.0.value as nat else 0)
    else if j == 10 then (if st.fill.0.Some? then st.fill.0.value as nat else 0)
    else (if st.fill.1.Some? then st.fill.1.value as nat else 0)
  }

  /** Frame `i`'s share of the score, written with the lookahead `BowlingGame::score` uses:
      its pinfall; after a strike, the next frame's pinfall and, when that is a strike too,
      the first ball after it; after a spare, the next first ball; for the tenth frame, the
      fill balls in place of a next frame. */
  ghost function Share(st: GameState, i: nat): int
    requires |st.frames| == 10 && Askable(st.frames) && i < 10
  {
    st.frames[i].Pins() as int
    + (if st.frames[i].IsStrike() then
         if i == 9 then FirstBall(st, 10) + FirstBall(st, 11)
         else st.frames[i + 1].Pins() as int + (if st.frames[i + 1].IsStrike() then FirstBall(st, i + 2) else 0)
       else if st.frames[i].IsSpare() then FirstBall(st, i + 1)
       else 0)
  }

  /** On a complete game, the standard score of the frames from `i` on is frame `i`'s share
      plus the standard score of the frames after it; no share exceeds thirty. */
  lemma FrameShare(st: GameState, i: nat)
    requires st.Inv() && st.IsComplete() && i < 10
    ensures ScoreFrames(st.BallsFrom(i), 10 - i) == Share(st, i) + ScoreFrames(st.BallsFrom(i + 1), 9 - i)
    ensures Share(st, i) <= 30
  {
    ScoreStep(st, i);
    Lookahead(st, i + 1);
    if i + 2 <= 10 {
      Lookahead(st, i + 2);
    }
  }

  /** The shares of the frames before frame `i`. */
  ghost function SharesBefore(st: GameState, i: nat): int
    requires |st.frames| == 10 && Askable(st.frames) && i <= 10
  {
    if i == 0 then 0 else SharesBefore(st, i - 1) + Share(st, i - 1)
  }

  /** On a complete game, the shares of the frames before frame `i` and the standard score of
      the frames from `i` on make up the standard score of the game. */
  lemma {:induction false} SharesThenRest(st: GameState, i: nat)
    requires st.Inv() && st.IsComplete() && i <= 10
    ensures SharesBefore(st, i) + ScoreFrames(st.BallsFrom(i), 10 - i) == StandardScore(st.Balls())
    ensures SharesBefore(st, i) <= 30 * i
  {
    if i == 0 {
      assert st.Balls() == st.BallsFrom(0);
    } else {
      SharesThenRest(st, i - 1);
      FrameShare(st, i - 1);
    }
  }

  /** On a complete game, the frames' shares add up to the standard score of its balls. */
  lemma SharesAreScore(st: GameState)
    requires st.Inv() && st.IsComplete()
    ensures SharesBefore(st, 10) == StandardScore(st.Balls())
  {
    SharesThenRest(st, 10);
  }

  /** On a valid state, the game is complete exactly when the standard rules say it is over,
      and then the frames' shares add up to the standard score, at most 300. */
  lemma ScoreMatchesRules(st: GameState)
    requires st.Inv()
    ensures st.IsComplete() <==> Over(st.Balls())
    ensures st.IsComplete() ==> SharesBefore(st, 10) == StandardScore(st.Balls()) <= 300
  {
    ExpectsMatchRules(st);
    if st.IsComplete() {
      SharesAreScore(st);
      StandardScoreAtMost300(st.Balls());
    }
  }
}
