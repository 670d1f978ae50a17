/** Machine integers, the error taxonomy and the single bowling frame (`Frame` in src/lib.rs). */
module Frames {

  /** Rust's `u8`: every `u8` addition below is checked by Dafny not to overflow. */
  newtype u8 = x: int | 0 <= x < 0x100

  /** Rust's `u16`, the type of the accumulated score. */
  newtype u16 = x: int | 0 <= x < 0x1_0000

  /** A pin count that is stored in a frame or a fill slot. Every store is preceded by the
      `pins <= 10` check, so a stored count never exceeds ten. */
  type Pins = x: u8 | x <= 10

  datatype Option<T> = None | Some(value: T)

  /** The two recoverable errors of the game. */
  datatype Error = NotEnoughPinsLeft | GameComplete

  /** `Result<T, Error>`. */
  datatype Result<T> = Ok(value: T) | Err(error: Error)

  /** The present values of an optional pair, in slot order. */
  function Present(pair: (Option<Pins>, Option<Pins>)): (r: seq<Pins>)
    ensures |r| == (if pair.0.Some? then 1 else 0) + (if pair.1.Some? then 1 else 0)
  {
    (if pair.0.Some? then [pair.0.value] else []) + (if pair.1.Some? then [pair.1.value] else [])
  }

  /** Sum of a list of pin counts. */
  function Sum(s: seq<Pins>): int
  {
    if s == [] then 0 else s[0] as int + Sum(s[1..])
  }

  /** The sum of the balls of an optional pair, a missing ball counting zero. */
  lemma SumPresent(pair: (Option<Pins>, Option<Pins>))
    ensures Sum(Present(pair)) == (if pair.0.Some? then pair.0.value as int else 0)
                                  + (if pair.1.Some? then pair.1.value as int else 0)
  {
    var r := Present(pair);
    if pair.0.Some? && pair.1.Some? {
      assert r[1..] == [pair.1.value];
      assert Sum(r[1..]) == pair.1.value as int + Sum(r[1..][1..]);
      assert r[1..][1..] == [];
    } else if pair.0.Some? {
      assert r == [pair.0.value];
      assert r[1..] == [];
    } else if pair.1.Some? {
      assert r == [pair.1.value];
      assert r[1..] == [];
    }
  }

  /** One frame: two optional roll slots, filled first slot first. */
  datatype Frame = Frame(roll: (Option<Pins>, Option<Pins>)) {

    /** The balls this frame holds, in the order they were thrown. */
    function Balls(): seq<Pins>
    {
      Present(roll)
    }

    /** The invariants that `Frame::roll` keeps on its own: the slots fill in order, and a
        second ball never knocks down more pins than the first left standing. */
    ghost predicate Valid()
    {
      (roll.0.None? ==> roll.1.None?) &&
      (roll.0.Some? && roll.1.Some? ==> roll.0.value as int + roll.1.value as int <= 10)
    }

    /** The assertion inside `is_strike`: a frame opened by a strike holds no second ball.
        `Frame::roll` does not keep it; the game does, by routing balls to open frames only. */
    predicate StrikeAlone()
    {
      roll.0 == Some(10) ==> roll.1.None?
    }

    /** `Frame::roll`: stores `pins` in the first empty slot, refusing a second ball that
        would knock down more pins than are standing. The `Frame` is a value copied in and
        out of the game's array, so the updated frame is returned. */
    function Roll(pins: u8): (r: Result<Frame>)
      requires pins <= 10
      requires roll.0.None? ==> roll.1.None?
      requires roll.0.None? || roll.1.None?
      ensures r.Ok? <==> Sum(Balls()) + pins as int <= 10
      ensures r.Err? ==> r.error == NotEnoughPinsLeft
      ensures r.Ok? ==> r.value.Balls() == Balls() + [pins as Pins]
      ensures r.Ok? && Valid() ==> r.value.Valid()
    {
      SumPresent(roll);
      if roll.0.None? then
        Ok(Frame((Some(pins as Pins), roll.1)))
      else if roll.0.value + pins > 10 then
        Err(NotEnoughPinsLeft)
      else
        Ok(Frame((roll.0, Some(pins as Pins))))
    }

    /** `Frame::pins`: the pinfall of the frame, missing balls counting zero. */
    function Pins(): (r: u8)
      ensures r <= 20
    {
      (if roll.0.Some? then roll.0.value else 0) + (if roll.1.Some? then roll.1.value else 0)
    }

    /** `Frame::is_strike`: the first ball knocked down all ten pins. */
    function IsStrike(): bool
      requires StrikeAlone()
    {
      roll.0.Some? && roll.0.value == 10
    }

    /** `Frame::is_complete`: no further ball belongs to this frame. */
    function IsComplete(): bool
      requires StrikeAlone()
    {
      IsStrike() || (roll.0.Some? && roll.1.Some?)
    }

    /** `Frame::is_spare`: the two balls of the frame knocked down all ten pins. Calling it on
        a strike would unwrap an empty second slot, so a strike is excluded. */
    function IsSpare(): bool
      requires roll.0 != Some(10)
    {
      if IsComplete() then roll.0.value + roll.1.value == 10 else false
    }
  }

  /** A frame's pinfall is the sum of its balls, at most ten while the frame is valid. */
  lemma PinsIsPinfall(f: Frame)
    ensures f.Pins() as int == Sum(f.Balls())
    ensures f.Valid() ==> f.Pins() <= 10
  {
    SumPresent(f.roll);
  }

  /** In a valid frame holding no ball after a strike, a strike is a single ball of ten, and
      the frame is complete after a strike or after two balls. */
  lemma StrikeIsSingleTen(f: Frame)
    requires f.Valid() && f.StrikeAlone()
    ensures f.IsStrike() <==> f.Balls() == [10]
    ensures f.IsComplete() <==> f.Balls() == [10] || |f.Balls()| == 2
  {
    if f.roll.0.Some? && f.roll.1.Some? {
      assert f.Balls() == [f.roll.0.value, f.roll.1.value];
    } else if f.roll.0.Some? {
      assert f.Balls() == [f.roll.0.value];
    }
  }

  /** A spare is two balls that together knock down ten pins. */
  lemma SpareIsTwoBallsOfTen(f: Frame)
    requires f.roll.0 != Some(10)
    ensures f.IsSpare() <==> |f.Balls()| == 2 && Sum(f.Balls()) == 10
  {
    SumPresent(f.roll);
  }

  /** A frame with no ball in it. */
  const EmptyFrame := Frame((None, None))
}
