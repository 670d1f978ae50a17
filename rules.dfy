/** Standard ten-pin rules stated on the flat list of balls a game has accepted, independent
    of how the game stores them: the score of a finished game, and what the next ball may be. */
module Rules {
  import opened Frames

  /** The ball at position `k`, or 0 for a ball not thrown. */
  function At(bs: seq<Pins>, k: nat): (r: nat)
    ensures r <= 10
    ensures k < |bs| ==> r == bs[k] as nat
  {
    if k < |bs| then bs[k] as nat else 0
  }

  /** `bs` without its first `k` balls. */
  function Drop(bs: seq<Pins>, k: nat): (r: seq<Pins>)
    ensures k <= |bs| ==> r == bs[k..]
    ensures |bs| <= k ==> r == []
  {
    if k <= |bs| then bs[k..] else []
  }

  /** The score of the next `n` frames thrown as `bs`: a frame scores its pinfall; a strike
      (one ball of ten) adds the next two balls, a spare (two balls of ten) the next one. */
  function ScoreFrames(bs: seq<Pins>, n: nat): nat
    decreases n
  {
    if n == 0 || bs == [] then 0
    else if bs[0] == 10 then 10 + At(bs, 1) + At(bs, 2) + ScoreFrames(bs[1..], n - 1)
    else if At(bs, 0) + At(bs, 1) == 10 then 10 + At(bs, 2) + ScoreFrames(Drop(bs, 2), n - 1)
    else At(bs, 0) + At(bs, 1) + ScoreFrames(Drop(bs, 2), n - 1)
  }

  /** The score of a ten-frame game thrown as `bs`. */
  function StandardScore(bs: seq<Pins>): nat
  {
    ScoreFrames(bs, 10)
  }

  /** No frame scores more than thirty. */
  lemma {:induction false} ScoreFramesBound(bs: seq<Pins>, n: nat)
    ensures ScoreFrames(bs, n) <= 30 * n
    decreases n
  {
    if n > 0 && bs != [] {
      ScoreFramesBound(bs[1..], n - 1);
      ScoreFramesBound(Drop(bs, 2), n - 1);
    }
  }

  /** A game scores at most 300. */
  lemma StandardScoreAtMost300(bs: seq<Pins>)
    ensures StandardScore(bs) <= 300
  {
    ScoreFramesBound(bs, 10);
  }

  /** What a game is waiting for: nothing more, or a ball of at most `standing` pins. */
  datatype Next = Finished | Awaiting(standing: nat)

  /** What the last frame, followed by its fill balls `bs`, is waiting for. A strike earns
      two fill balls and a spare one; a second fill ball after a first one below ten can
      only knock down the pins that one left standing. */
  function LastFrame(bs: seq<Pins>): Next
  {
    if |bs| == 0 then Awaiting(10)
    else if bs[0] == 10 then
      if |bs| == 1 then Awaiting(10)
      else if |bs| == 2 then Awaiting(if bs[1] == 10 then 10 else 10 - bs[1] as nat)
      else Finished
    else if |bs| == 1 then Awaiting(10 - bs[0] as nat)
    else if bs[0] as nat + bs[1] as nat == 10 && |bs| == 2 then Awaiting(10)
    else Finished
  }

  /** What the next `n` frames thrown as `bs` are waiting for. Every frame but the last ends
      after a strike or after two balls. */
  function NextBall(bs: seq<Pins>, n: nat): Next
    requires n >= 1
    decreases n
  {
    if n == 1 then LastFrame(bs)
    else if |bs| == 0 then Awaiting(10)
    else if bs[0] == 10 then NextBall(bs[1..], n - 1)
    else if |bs| == 1 then Awaiting(10 - bs[0] as nat)
    else NextBall(bs[2..], n - 1)
  }

  /** Whether a ten-frame game thrown as `bs` is over. */
  predicate Over(bs: seq<Pins>)
  {
    NextBall(bs, 10) == Finished
  }

  /** The answer to a ball of `pins` after the balls `bs`: more than ten pins, or more than
      are standing, is `NotEnoughPinsLeft`; any ball after the game is over is `GameComplete`. */
  function Answer(bs: seq<Pins>, pins: u8): Result<()>
  {
    if pins > 10 then Err(NotEnoughPinsLeft)
    else match NextBall(bs, 10)
      case Finished => Err(GameComplete)
      case Awaiting(standing) => if pins as nat <= standing then Ok(()) else Err(NotEnoughPinsLeft)
  }

  /** Every ball of `bs` is accepted after the balls before it. */
  predicate Playable(bs: seq<Pins>)
  {
    forall k :: 0 <= k < |bs| ==> Answer(bs[..k], bs[k]) == Ok(())
  }

  /** `n` copies of `unit`, one after another. */
  function Repeat(unit: seq<Pins>, n: nat): (r: seq<Pins>)
    ensures |r| == n * |unit|
  {
    if n == 0 then [] else unit + Repeat(unit, n - 1)
  }

  /** `n` open frames of `a` then `b` pins score `a + b` each, and end a game of `n` frames. */
  lemma {:induction false} OpenFrames(a: Pins, b: Pins, n: nat)
    requires a as int + b as int < 10
    ensures ScoreFrames(Repeat([a, b], n), n) == n * (a as int + b as int)
    ensures n >= 1 ==> NextBall(Repeat([a, b], n), n) == Finished
  {
    if n > 0 {
      var bs := Repeat([a, b], n);
      var rest := Repeat([a, b], n - 1);
      assert bs == [a, b] + rest;
      assert bs[2..] == rest;
      OpenFrames(a, b, n - 1);
      assert ScoreFrames(bs, n) == a as int + b as int + ScoreFrames(rest, n - 1);
      assert n * (a as int + b as int) == (n - 1) * (a as int + b as int) + (a as int + b as int);
    }
  }

  /** `n` strikes followed by two more balls of ten score thirty a frame, and end a game of
      `n` frames. */
  lemma {:induction false} Strikes(n: nat)
    ensures ScoreFrames(Repeat([10], n + 2), n) == 30 * n
    ensures n >= 1 ==> NextBall(Repeat([10], n + 2), n) == Finished
  {
    if n > 0 {
      var bs := Repeat([10], n + 2);
      assert bs[1..] == Repeat([10], n + 1);
      assert bs[1] == 10 && bs[2] == 10;
      Strikes(n - 1);
    }
  }

  /** `n` spares of `a` then `b` pins, with a fill ball of `a` pins, score `10 + a` each, and
      end a game of `n` frames. */
  lemma {:induction false} Spares(a: Pins, b: Pins, n: nat)
    requires a < 10 && a as int + b as int == 10
    ensures ScoreFrames(Repeat([a, b], n) + [a], n) == n * (10 + a as int)
    ensures n >= 1 ==> NextBall(Repeat([a, b], n) + [a], n) == Finished
  {
    if n > 0 {
      var rest := Repeat([a, b], n - 1) + [a];
      var bs := Repeat([a, b], n) + [a];
      assert bs == [a, b] + rest;
      assert bs[2..] == rest;
      assert rest[0] == a;
      Spares(a, b, n - 1);
      assert ScoreFrames(bs, n) == 10 + a as int + ScoreFrames(rest, n - 1);
      assert n * (10 + a as int) == (n - 1) * (10 + a as int) + (10 + a as int);
    }
  }

  /** The first `j` copies of `unit` come before the other `n - j`. */
  lemma {:induction false} RepeatSplit(unit: seq<Pins>, j: nat, n: nat)
    requires j <= n
    ensures Repeat(unit, n) == Repeat(unit, j) + Repeat(unit, n - j)
    decreases j
  {
    if j > 0 {
      RepeatSplit(unit, j - 1, n - 1);
      assert Repeat(unit, n) == unit + Repeat(unit, n - 1);
      assert Repeat(unit, j) == unit + Repeat(unit, j - 1);
    }
  }

  /** The balls before ball `k` of `n` frames of `a` then `b`: `k / 2` whole frames, then `a`
      when `k` is odd; ball `k` itself is `a` or `b`. */
  lemma PairsPrefix(a: Pins, b: Pins, n: nat, k: nat)
    requires k < 2 * n
    ensures var bs := Repeat([a, b], n); var j := k / 2;
      bs[..k] == (if k % 2 == 0 then Repeat([a, b], j) else Repeat([a, b], j) + [a]) &&
      bs[k] == (if k % 2 == 0 then a else b)
  {
    var j := k / 2;
    RepeatSplit([a, b], j, n);
    var rest := Repeat([a, b], n - j);
    assert rest == [a, b] + Repeat([a, b], n - j - 1);
    assert rest[0] == a && rest[1] == b;
  }

  /** After `j` frames of `a` then `b` with `a` below ten, a game of `n > j` frames waits for
      all ten pins, and after a further `a` for the `10 - a` it left standing. */
  lemma {:induction false} PairsAwait(a: Pins, b: Pins, j: nat, n: nat)
    requires a < 10 && a as int + b as int <= 10 && j < n
    ensures NextBall(Repeat([a, b], j), n) == Awaiting(10)
    ensures NextBall(Repeat([a, b], j) + [a], n) == Awaiting(10 - a as nat)
    decreases j
  {
    if j == 0 {
      assert Repeat([a, b], j) + [a] == [a];
    } else {
      var rest := Repeat([a, b], j - 1);
      assert Repeat([a, b], j) == [a, b] + rest;
      assert (Repeat([a, b], j) + [a])[2..] == rest + [a];
      assert ([a, b] + rest)[2..] == rest;
      PairsAwait(a, b, j - 1, n - 1);
    }
  }

  /** In `n` frames of `a` then `b` with `a` below ten and at most ten pins a frame, every ball
      is one the game is waiting for. */
  lemma PairsAccepted(a: Pins, b: Pins, n: nat, k: nat)
    requires a < 10 && a as int + b as int <= 10 && k < 2 * n
    ensures var bs := Repeat([a, b], n);
      NextBall(bs[..k], n).Awaiting? && bs[k] as nat <= NextBall(bs[..k], n).standing
  {
    PairsPrefix(a, b, n, k);
    PairsAwait(a, b, k / 2, n);
  }

  /** After `n` spares of `a` then `b`, a game of `n` frames waits for a fill ball. */
  lemma {:induction false} SparesAwaitFill(a: Pins, b: Pins, n: nat)
    requires a < 10 && a as int + b as int == 10 && n >= 1
    ensures NextBall(Repeat([a, b], n), n) == Awaiting(10)
  {
    var bs := Repeat([a, b], n);
    assert bs == [a, b] + Repeat([a, b], n - 1);
    if n > 1 {
      assert bs[2..] == Repeat([a, b], n - 1);
      SparesAwaitFill(a, b, n - 1);
    }
  }

  /** After fewer than `n + 2` strikes, a game of `n` frames waits for all ten pins. */
  lemma {:induction false} StrikesAwait(k: nat, n: nat)
    requires 1 <= n && k < n + 2
    ensures NextBall(Repeat([10], k), n) == Awaiting(10)
    decreases n
  {
    if k > 0 {
      var bs := Repeat([10], k);
      assert bs == [10] + Repeat([10], k - 1);
      if n == 1 {
        if k == 2 {
          assert bs[1] == 10;
        }
      } else {
        assert bs[1..] == Repeat([10], k - 1);
        StrikesAwait(k - 1, n - 1);
      }
    }
  }

  /** Twenty balls of no pins: each is accepted, the game is over and scores nothing. */
  lemma GutterGame()
    ensures Playable(Repeat([0, 0], 10))
    ensures Over(Repeat([0, 0], 10)) && StandardScore(Repeat([0, 0], 10)) == 0
  {
    OpenFrames(0, 0, 10);
    forall k | 0 <= k < 20
      ensures Answer(Repeat([0, 0], 10)[..k], Repeat([0, 0], 10)[k]) == Ok(())
    {
      PairsAccepted(0, 0, 10, k);
    }
  }

  /** Twelve strikes: each is accepted, the game is over and scores 300. */
  lemma PerfectGame()
    ensures Playable(Repeat([10], 12))
    ensures Over(Repeat([10], 12)) && StandardScore(Repeat([10], 12)) == 300
  {
    Strikes(10);
    forall k | 0 <= k < 12
      ensures Answer(Repeat([10], 12)[..k], Repeat([10], 12)[k]) == Ok(())
    {
      RepeatSplit([10], k, 12);
      StrikesAwait(k, 10);
    }
  }

  /** Ten spares of five and five, then a fill ball of five: each ball is accepted, the game
      is over and scores 150. */
  lemma AllFivesGame()
    ensures Playable(Repeat([5, 5], 10) + [5])
    ensures Over(Repeat([5, 5], 10) + [5]) && StandardScore(Repeat([5, 5], 10) + [5]) == 150
  {
    Spares(5, 5, 10);
    var frames := Repeat([5, 5], 10);
    var bs := frames + [5];
    forall k | 0 <= k < 21
      ensures Answer(bs[..k], bs[k]) == Ok(())
    {
      if k < 20 {
        assert bs[..k] == frames[..k] && bs[k] == frames[k];
        PairsAccepted(5, 5, 10, k);
      } else {
        assert bs[..k] == frames;
        SparesAwaitFill(5, 5, 10);
      }
    }
  }

  /** A strike, then nine frames of three and four: each ball is accepted, the game is over
      and scores 80. */
  lemma StrikeThenOpenGame()
    ensures Playable([10] + Repeat([3, 4], 9))
    ensures Over([10] + Repeat([3, 4], 9)) && StandardScore([10] + Repeat([3, 4], 9)) == 80
  {
    var rest := Repeat([3, 4], 9);
    var bs := [10] + rest;
    assert bs[1..] == rest;
    OpenFrames(3, 4, 9);
    forall k | 0 <= k < 19
      ensures Answer(bs[..k], bs[k]) == Ok(())
    {
      if k > 0 {
        assert bs[..k][1..] == rest[..k - 1] && bs[..k][0] == 10 && bs[k] == rest[k - 1];
        PairsAccepted(3, 4, 9, k - 1);
      }
    }
  }
}
