# Bowling scorer in Dafny

A model of the `bowling` crate's library (`src/lib.rs`). It scores a game of ten-pin bowling
as the balls are thrown. A `BowlingGame` holds ten frames and the two fill-ball slots that
follow the tenth frame. `roll` accepts a ball or refuses it with `NotEnoughPinsLeft` or
`GameComplete`. Once the game is complete, `score` returns its total.

The model is split into four modules:

- `Frames` (`frames.dfy`) holds the following:
  - the machine integers `u8` and `u16` as newtypes, so that every addition the source makes
    is checked not to overflow;
  - the error type and `Result`;
  - the `Frame` value and its five operations: `roll`, `pins`, `is_complete`, `is_strike`
    and `is_spare`.
- `Rules` (`rules.dfy`) is an independent reference for the standard rules, stated on the
  flat list of balls a game has accepted:
  - the score of the frames (`StandardScore`);
  - what the game waits for next (`NextBall`): nothing once it is over, or a ball of at most
    the pins still standing;
  - the answer the rules give to a ball (`Answer`);
  - worked games, proved through general lemmas about runs of identical frames: every ball
    of each is accepted, the game ends, and it scores as the rules say.
- `Game` (`game.dfy`) holds the game's state as a value (`GameState`: ten frames and the
  fill slots) and the invariants `roll` keeps on it. It also holds the lemmas that tie the
  state to the reference: the balls it holds, what it accepts next, and what it scores.
- `Bowling` (`bowling.dfy`) holds the class `BowlingGame`. Its frames are an `array<Frame>`
  and its fill slots a field, both updated in place by `Roll`. `Roll` and `Score` are
  imperative methods: a `while` loop stands for the `find`, and a `for` loop for the
  scoring loop. Each is proved against the reference.

The main results are these:

- `Roll` answers every ball exactly as the standard rules answer it after the balls
  already accepted.
- A refused ball changes nothing.
- An accepted ball fills exactly one slot, which was empty. That slot is the first empty
  slot of the first incomplete frame, or the first empty fill slot.
- An accepted ball is appended to the game's list of balls, and the game invariants still
  hold afterwards.
- `Score` returns nothing exactly while the rules say the game is not over. Otherwise it
  returns the standard score of the balls, which is at most 300, so the `u16` additions
  cannot overflow.

## Model

| member | source | states |
|---|---|---|
| Frames.Frame.Roll | src/lib.rs:13-28 | A ball is accepted exactly when the frame's pinfall plus the ball is at most ten. A refusal is `NotEnoughPinsLeft`. An accepted ball is appended to the frame's balls. The frame invariants (slots fill in order, at most ten pins) are kept. The panicking cases (more than ten pins, second slot before the first, full frame) are preconditions. |
| Frames.Frame.Pins | src/lib.rs:30-32 | The pinfall of the frame, a missing ball counting zero; at most 20, so the `u8` addition cannot overflow. `Frames.PinsIsPinfall` states that it is the sum of the frame's balls. |
| Frames.Frame.IsComplete | src/lib.rs:34-36 | Whether the frame takes no further ball. `Frames.StrikeIsSingleTen` states that this holds exactly after a single ball of ten or after two balls. |
| Frames.Frame.IsStrike | src/lib.rs:38-45 | Whether the first ball knocked down all ten pins; the assertion that no second ball follows is its requires (`StrikeAlone`). `Frames.StrikeIsSingleTen` states that this holds exactly when the frame's balls are one ball of ten. |
| Frames.Frame.IsSpare | src/lib.rs:47-53 | Whether the two balls of a complete frame knocked down ten pins; the strike case, where the source unwraps an empty slot, is excluded by its requires. `Frames.SpareIsTwoBallsOfTen` states that this holds exactly when the frame holds two balls summing to ten. |
| Game.GameState.IsComplete | src/lib.rs:101-113 | Whether every frame is complete and the fill balls the tenth frame earned are present. `Game.ExpectsMatchRules` states that on a valid state this holds exactly when the standard rules say the game is over. |
| Frames.PinsIsPinfall | src/lib.rs:30-32 | A frame's pins are the sum of the balls it holds, at most ten in a valid frame. |
| Frames.StrikeIsSingleTen | src/lib.rs:34-45 | In a valid frame with no ball after a strike, a strike is exactly a single ball of ten. The frame is complete exactly after a strike or after two balls. |
| Frames.SpareIsTwoBallsOfTen | src/lib.rs:47-53 | A frame that does not open with a strike is a spare exactly when it holds two balls that sum to ten. |
| Game.FirstOpen | src/lib.rs:75 | The frame `find` picks: every frame before it is complete, and it is incomplete unless it is one past the last. |
| Game.NewGameIsEmpty | src/lib.rs:62-69 | A new game satisfies every invariant and holds no ball. |
| Bowling.BowlingGame.constructor | src/lib.rs:62-69 | The new game is valid, its state is ten empty frames and empty fill slots, and it holds no ball. |
| Bowling.BowlingGame.Roll | src/lib.rs:71-99 | The result is the standard rules' answer after the balls held so far. Over ten pins gives `NotEnoughPinsLeft`. A ball after completion gives `GameComplete`. A ball is accepted exactly when the game is incomplete and the ball is at most the pins standing. An error leaves the state unchanged. Success appends the ball and fills exactly the target slot, which was empty. The game invariants are kept. |
| Game.PlaceKeepsInv | src/lib.rs:71-99 | A ball the state accepts keeps every game invariant. Those invariants are: valid frames with no ball after a strike; frames filling in order; fill slots only after ten complete frames and only as earned; a second fill ball limited to the pins left by a first one below ten. |
| Game.PlaceAppendsBall | src/lib.rs:71-99 | A ball the state accepts is appended to the list of balls the game holds. |
| Game.PlaceFillsTarget | src/lib.rs:75-95 | The target slot (first empty slot of the first incomplete frame, else the first empty fill slot) was empty. Placing a ball fills that slot and changes no other. |
| Game.ExpectsMatchRules | src/lib.rs:101-113 | On a valid state, the standard rules applied to the balls held wait for exactly what the state says: nothing when `is_complete` holds, otherwise a ball of at most the pins standing. `is_complete` holds exactly when the rules say the game is over. |
| Game.FrameShare | src/lib.rs:118-128 | On a complete game, one iteration's contribution (pinfall, then the next frame's pins and possibly the first ball after it for a strike, or the next first ball for a spare) is that frame's standard score, and at most 30. |
| Game.SharesAreScore | src/lib.rs:115-151 | On a complete game, the contributions the scoring code adds up equal the standard score of the balls held. |
| Game.ScoreMatchesRules | src/lib.rs:101-151 | On a valid state, completion is the rules' game over. On a complete game, the summed contributions equal the standard score, which is at most 300. |
| Bowling.BowlingGame.Score | src/lib.rs:115-151 | `None` exactly while the game is not complete, which on a valid game is exactly while the rules say it is not over. Otherwise the standard score of the balls held, at most 300. The `u16` additions never overflow and every `unwrap` finds a value. |
| Rules.ScoreFramesBound | src/lib.rs:115-151 | No frame scores more than 30 under the standard rules. |
| Rules.StandardScoreAtMost300 | src/lib.rs:115-151 | A game scores at most 300, which fits the `u16` score. |
| Rules.OpenFrames | src/lib.rs:115-151 | `n` open frames of `a` then `b` pins score `n * (a + b)` and end an `n`-frame game. |
| Rules.Strikes | src/lib.rs:115-151 | `n` strikes followed by two balls of ten score `30 * n` and end an `n`-frame game. |
| Rules.Spares | src/lib.rs:115-151 | `n` spares of `a` then `b`, with a fill ball of `a`, score `n * (10 + a)` and end an `n`-frame game. |
| Rules.PairsAwait | src/lib.rs:71-99 | After fewer than `n` frames of `a` then `b` (`a` below ten, at most ten pins a frame), an `n`-frame game waits for all ten pins. After a further ball of `a`, it waits for at most the `10 - a` pins left standing. |
| Rules.PairsAccepted | src/lib.rs:71-99 | In `n` such frames, the rules accept every ball after the balls before it. |
| Rules.SparesAwaitFill | src/lib.rs:71-113 | After `n` spares, an `n`-frame game is not over: it waits for a fill ball of up to ten pins. |
| Rules.StrikesAwait | src/lib.rs:71-113 | After fewer than `n + 2` strikes, an `n`-frame game is not over: it waits for a ball of up to ten pins. |
| Rules.GutterGame | src/lib.rs:71-151 | Each of twenty balls of no pins is accepted after the balls before it. They end the game with a score of 0. |
| Rules.PerfectGame | src/lib.rs:71-151 | Each of twelve strikes is accepted after the strikes before it. They end the game with a score of 300. |
| Rules.AllFivesGame | src/lib.rs:71-151 | Each ball of ten spares of five and five plus a fill ball of five is accepted after the balls before it. They end the game with a score of 150. |
| Rules.StrikeThenOpenGame | src/lib.rs:71-151 | Each ball of a strike and nine frames of three and four is accepted after the balls before it. They end the game with a score of 80. |

## Left out

- `src/main.rs`, the command-line driver that reads pin counts from standard input and
  prints errors, is not part of this model. It is input and output only.
- The derived `Debug`, `PartialEq`, `Eq`, `Clone` and `Copy` implementations are not
  modelled. Dafny values compare structurally.
- Panics become preconditions or invariants rather than modelled failures:
  - the `assert!`s and the `panic!` in `Frame::roll` become `Frame.Roll`'s requires;
  - the `assert!` in `is_strike` becomes `StrikeAlone`;
  - the `unwrap` on a strike in `is_spare` becomes `IsSpare`'s requires;
  - the `unwrap`s in `score` are discharged by the `is_complete` test that guards the
    scoring (src/lib.rs:116): every frame is then complete, so its first slot is present,
    and a strike or spare in the tenth frame has the fill balls it earned.
- `Frame::roll` mutates the frame through the `&mut` reference that `iter_mut().find`
  yields. In the model it returns the new frame, and `Roll` writes it back into the same
  array slot. The aliasing of that reference is not modelled.
- `BowlingGame::is_complete` is a function of the state value (`GameState.IsComplete`)
  rather than a member of the class. `Roll` and `Score` read it through `State()`.
- Bowling.BowlingGame.Score: only asks that the frames be readable, that is, that no frame
  holds a ball after a strike; this is all its `unwrap`s and `assert!`s need. Its link to
  the standard rules (game over, standard score, at most 300) is stated for valid games,
  the states `new` and `roll` can reach.
