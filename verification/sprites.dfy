/** The frame counter of one sprite-sheet animation.

An animation shows `numFrames` frames in turn. Every call of `Animate` is one
tick of the game loop; a frame stays on screen until the tick counter reaches
`60 / animSpeed`, so `animSpeed` is a divisor of an assumed 60 ticks per second
(larger means faster). The texture and the frame width are left out: only the
naturals that decide which frame is shown are modelled.
 */
module Sprites {
  import opened Outcomes

  const U32_MAX: int := 0xFFFF_FFFF

  /** Rust's `u32`. */
  type u32 = x: int | 0 <= x <= U32_MAX

  /** The tick rate the timer assumes. */
  const TICKS_PER_SECOND: u32 := 60

  datatype SpriteAnimation = SpriteAnimation(
    numFrames: u32,
    currentFrame: u32,
    framesCounter: u32,
    animSpeed: u32)

  /** The threshold the incremented tick counter is compared with. */
  function Threshold(animSpeed: u32): nat
    requires animSpeed != 0
  {
    TICKS_PER_SECOND / animSpeed
  }

  /** How many ticks each frame lasts. A speed above 60 makes the threshold
      zero, and then every tick still takes one tick: the frame advances on
      every call. */
  function Period(animSpeed: u32): (q: nat)
    requires animSpeed >= 1
    ensures 1 <= q <= TICKS_PER_SECOND
    ensures Threshold(animSpeed) <= q
    ensures Threshold(animSpeed) >= 1 ==> q == Threshold(animSpeed)
    ensures Threshold(animSpeed) == 0 ==> q == 1
  {
    if Threshold(animSpeed) == 0 then 1 else Threshold(animSpeed)
  }

  /** The states the program can reach from a well-formed construction: at
      least one frame, a non-zero speed, the shown frame in range and the tick
      counter below the period. */
  ghost predicate Valid(a: SpriteAnimation) {
    && a.numFrames >= 1
    && a.animSpeed >= 1
    && a.currentFrame < a.numFrames
    && a.framesCounter < Period(a.animSpeed)
  }

  /** A freshly constructed animation, showing its first frame. */
  function New(numFrames: u32, speed: u32): (r: SpriteAnimation)
    ensures r.numFrames == numFrames && r.animSpeed == speed
    ensures r.currentFrame == 0 && r.framesCounter == 0
    ensures numFrames >= 1 && speed >= 1 <==> Valid(r)
  {
    SpriteAnimation(numFrames, 0, 0, speed)
  }

  /** The conditions under which a tick panics in a debug build: the counter
      is at its maximum, the speed is zero, or the threshold is reached with
      the frame at its maximum or with no frames. */
  predicate PanicsOnTick(a: SpriteAnimation) {
    || a.framesCounter == U32_MAX
    || a.animSpeed == 0
    || (a.framesCounter + 1 >= Threshold(a.animSpeed)
        && (a.currentFrame == U32_MAX || a.numFrames == 0))
  }

  /** One tick of the animation, with the panics of a debug build: the
      increment of the counter, the division by `animSpeed`, the increment of
      the frame and the subtraction `numFrames - 1`, in that order. */
  function Animate(a: SpriteAnimation): (r: Result<SpriteAnimation>)
    // The crash conditions.
    ensures a.framesCounter == U32_MAX ==> r == Panicked(AddOverflow)
    ensures a.framesCounter < U32_MAX && a.animSpeed == 0 ==> r == Panicked(DivideByZero)
    ensures && a.framesCounter < U32_MAX && a.animSpeed != 0
            && a.framesCounter + 1 >= Threshold(a.animSpeed)
            && a.currentFrame < U32_MAX && a.numFrames == 0
            ==> r == Panicked(SubtractOverflow)
    ensures && a.framesCounter < U32_MAX && a.animSpeed != 0
            && a.framesCounter + 1 >= Threshold(a.animSpeed)
            && a.currentFrame == U32_MAX
            ==> r == Panicked(AddOverflow)
    // It panics only under those conditions.
    ensures r.Panicked? <==> PanicsOnTick(a)
    // With at least one frame, a non-zero speed and the frame in range, the
    // tick never panics and the frame stays in range.
    ensures && a.numFrames >= 1 && a.animSpeed >= 1
            && a.currentFrame < a.numFrames && a.framesCounter < U32_MAX
            ==> r.Ok? && r.value.currentFrame < r.value.numFrames
    ensures Valid(a) ==> r.Ok? && Valid(r.value)
    // Only the two counters change.
    ensures r.Ok? ==> a.animSpeed != 0
    ensures r.Ok? ==> r.value.numFrames == a.numFrames && r.value.animSpeed == a.animSpeed
  {
    if a.framesCounter + 1 > U32_MAX then Panicked(AddOverflow)
    else
      var counter := a.framesCounter + 1;
      if a.animSpeed == 0 then Panicked(DivideByZero)
      else if counter >= TICKS_PER_SECOND / a.animSpeed then
        if a.currentFrame + 1 > U32_MAX then Panicked(AddOverflow)
        else if a.numFrames == 0 then Panicked(SubtractOverflow)
        else
          var frame := a.currentFrame + 1;
          Ok(a.(framesCounter := 0,
                currentFrame := if frame > a.numFrames - 1 then 0 else frame))
      else
        Ok(a.(framesCounter := counter))
  }

  /** One tick from a valid state, which cannot panic. */
  function Tick(a: SpriteAnimation): (r: SpriteAnimation)
    requires Valid(a)
    ensures Valid(r)
    ensures Animate(a) == Ok(r)
  {
    Animate(a).value
  }

  /** The state after `n` ticks. */
  function Ticks(a: SpriteAnimation, n: nat): (r: SpriteAnimation)
    requires Valid(a)
    ensures Valid(r)
    ensures r.numFrames == a.numFrames && r.animSpeed == a.animSpeed
    decreases n
  {
    if n == 0 then a else Tick(Ticks(a, n - 1))
  }

  /** A positive multiple of a positive number is at least that number. */
  lemma MulAtLeast(q: int, k: int)
    requires q >= 1 && k >= 1
    ensures q * k >= q
  {
    assert q * k == q * (k - 1) + q;
    assert q * (k - 1) >= 0;
  }

  /** Euclidean division is unique: a quotient and remainder in range are
      the ones `/` and `%` return. */
  lemma DivModUnique(n: int, q: int, d: int, m: int)
    requires q >= 1 && 0 <= m < q && n == q * d + m
    ensures n / q == d && n % q == m
  {
    var d', m' := n / q, n % q;
    assert n == q * d' + m';
    if d < d' {
      assert q * d' - q * d == q * (d' - d);
      MulAtLeast(q, d' - d);
      assert false;
    } else if d > d' {
      assert q * d - q * d' == q * (d - d');
      MulAtLeast(q, d - d');
      assert false;
    }
  }

  /** The successor of an index in range, taken cyclically. */
  lemma ModNextIndex(f: int, count: int)
    requires 0 <= f < count
    ensures (f + 1) % count == if f + 1 == count then 0 else f + 1
  {
    if f + 1 == count {
      DivModUnique(f + 1, count, 1, 0);
    } else {
      DivModUnique(f + 1, count, 0, f + 1);
    }
  }

  /** What one successful tick does to a state whose frame is in range:
      either the incremented counter reaches the threshold, the counter
      restarts and the frame advances cyclically, or only the counter grows.
      A speed above 60 makes the threshold zero, so then every tick advances. */
  lemma AnimateOutcomes(a: SpriteAnimation)
    requires Animate(a).Ok? && a.currentFrame < a.numFrames
    ensures a.animSpeed != 0
    ensures a.framesCounter + 1 >= Threshold(a.animSpeed) ==>
              && Animate(a).value.framesCounter == 0
              && Animate(a).value.currentFrame == (a.currentFrame + 1) % a.numFrames
    ensures a.framesCounter + 1 < Threshold(a.animSpeed) ==>
              && Animate(a).value.framesCounter == a.framesCounter + 1
              && Animate(a).value.currentFrame == a.currentFrame
    ensures a.animSpeed > TICKS_PER_SECOND ==>
              && Animate(a).value.framesCounter == 0
              && Animate(a).value.currentFrame == (a.currentFrame + 1) % a.numFrames
  {
    ModNextIndex(a.currentFrame, a.numFrames);
    if a.animSpeed > TICKS_PER_SECOND {
      DivModUnique(TICKS_PER_SECOND, a.animSpeed, 0, TICKS_PER_SECOND);
    }
  }

  /** How quotient and remainder move when the dividend grows by one. */
  lemma DivModNext(n: nat, q: nat)
    requires q >= 1
    ensures n % q + 1 == q ==> (n + 1) % q == 0 && (n + 1) / q == n / q + 1
    ensures n % q + 1 < q ==> (n + 1) % q == n % q + 1 && (n + 1) / q == n / q
  {
    var d, m := n / q, n % q;
    assert n == q * d + m;
    if m + 1 == q {
      assert n + 1 == q * (d + 1) + 0;
      DivModUnique(n + 1, q, d + 1, 0);
    } else {
      DivModUnique(n + 1, q, d, m + 1);
    }
  }

  /** One tick moves a state that agrees with the counting law after `n`
      ticks to the state the law gives after `n + 1`. */
  lemma TickFollowsCount(a: SpriteAnimation, n: nat)
    requires Valid(a)
    requires a.framesCounter == n % Period(a.animSpeed)
    requires a.currentFrame == (n / Period(a.animSpeed)) % a.numFrames
    ensures Tick(a).framesCounter == (n + 1) % Period(a.animSpeed)
    ensures Tick(a).currentFrame == ((n + 1) / Period(a.animSpeed)) % a.numFrames
  {
    var q := Period(a.animSpeed);
    DivModNext(n, q);
    if n % q + 1 == q {
      DivModNext(n / q, a.numFrames);
    }
  }

  /** The counting law: from a fresh animation, after `n` ticks the counter is
      `n % p` and the frame is `(n / p) % numFrames`, where `p` is the period. */
  lemma {:induction false} CountingLaw(numFrames: u32, speed: u32, n: nat)
    requires numFrames >= 1 && speed >= 1
    ensures Ticks(New(numFrames, speed), n).framesCounter == n % Period(speed)
    ensures Ticks(New(numFrames, speed), n).currentFrame == (n / Period(speed)) % numFrames
  {
    if n > 0 {
      CountingLaw(numFrames, speed, n - 1);
      TickFollowsCount(Ticks(New(numFrames, speed), n - 1), n - 1);
    }
  }

  /** The counting law in the form `60 / speed` takes in `animate`: when
      `60 / speed` is at least one it is the period. */
  lemma SlowCountingLaw(numFrames: u32, speed: u32, n: nat)
    requires numFrames >= 1 && 1 <= speed <= TICKS_PER_SECOND
    ensures Ticks(New(numFrames, speed), n).framesCounter == n % (TICKS_PER_SECOND / speed)
    ensures Ticks(New(numFrames, speed), n).currentFrame
            == (n / (TICKS_PER_SECOND / speed)) % numFrames
  {
    CountingLaw(numFrames, speed, n);
  }

  /** Above speed 60 the threshold is zero and every tick shows the next frame. */
  lemma FastCountingLaw(numFrames: u32, speed: u32, n: nat)
    requires numFrames >= 1 && speed > TICKS_PER_SECOND
    ensures Ticks(New(numFrames, speed), n).framesCounter == 0
    ensures Ticks(New(numFrames, speed), n).currentFrame == n % numFrames
  {
    DivModUnique(TICKS_PER_SECOND, speed, 0, TICKS_PER_SECOND);
    DivModUnique(n, 1, n, 0);
    CountingLaw(numFrames, speed, n);
  }

  /** With more than one frame, the shown frame changes on tick `n + 1`
      exactly when `n + 1` is a multiple of the period. */
  lemma FrameChangesOnPeriod(numFrames: u32, speed: u32, n: nat)
    requires numFrames >= 2 && speed >= 1
    ensures Ticks(New(numFrames, speed), n + 1).currentFrame
              != Ticks(New(numFrames, speed), n).currentFrame
            <==> (n + 1) % Period(speed) == 0
  {
    var q := Period(speed);
    CountingLaw(numFrames, speed, n);
    CountingLaw(numFrames, speed, n + 1);
    DivModNext(n, q);
    if n % q + 1 == q {
      DivModNext(n / q, numFrames);
    }
  }

  /** The animation the program registers, 8 frames at speed 20, shows each
      frame for three ticks: the frame changes exactly on every third tick. */
  lemma EightFramesAtSpeedTwenty(n: nat)
    ensures Ticks(New(8, 20), n).currentFrame == (n / 3) % 8
    ensures Ticks(New(8, 20), n + 1).currentFrame != Ticks(New(8, 20), n).currentFrame
            <==> (n + 1) % 3 == 0
  {
    DivModUnique(TICKS_PER_SECOND, 20, 3, 0);
    CountingLaw(8, 20, n);
    FrameChangesOnPeriod(8, 20, n);
  }

  /** Twenty-four ticks of that animation run one whole cycle and return it
      to its initial state. */
  lemma EightFramesCycle()
    ensures Ticks(New(8, 20), 24) == New(8, 20)
  {
    DivModUnique(TICKS_PER_SECOND, 20, 3, 0);
    CountingLaw(8, 20, 24);
    DivModUnique(24, 3, 8, 0);
    DivModUnique(8, 8, 1, 0);
  }
}
