/** The leaky-bucket limiter (`RateLimiter` in `common/high_level_switch_connection_async.py`). */
module RateLimit {
  /** The two clock readings of one call: `drain` empties the bucket, `tick` becomes the new last tick. */
  datatype Readings = Readings(drain: real, tick: real)

  /** What leaks out between the last tick and the first reading of a call. */
  function Leak(limit: int, lastTick: real, drain: real): real {
    (drain - lastTick) * limit as real
  }

  function Level(bucket: real, leak: real): real {
    if bucket - leak < 0.0 then 0.0 else bucket - leak
  }

  predicate Fits(limit: int, bucket: real, leak: real) {
    Level(bucket, leak) + 1.0 < limit as real
  }

  function BucketAfter(limit: int, bucket: real, leak: real): real {
    if Fits(limit, bucket, leak) then Level(bucket, leak) + 1.0 else Level(bucket, leak)
  }

  // ----- runs of calls, by their leaks -----

  function Bucket(limit: int, bucket: real, leaks: seq<real>): real {
    if leaks == [] then bucket else BucketAfter(limit, Bucket(limit, bucket, leaks[..|leaks| - 1]), leaks[|leaks| - 1])
  }

  predicate AcceptedAt(limit: int, bucket: real, leaks: seq<real>, i: nat)
    requires i < |leaks|
  {
    Fits(limit, Bucket(limit, bucket, leaks[..i]), leaks[i])
  }

  /** How many of the calls from `i` up to and including `j` are accepted. */
  function AcceptedIn(limit: int, bucket: real, leaks: seq<real>, i: nat, j: nat): nat
    requires i <= j < |leaks|
    decreases j
  {
    (if AcceptedAt(limit, bucket, leaks, j) then 1 else 0)
    + if i < j then AcceptedIn(limit, bucket, leaks, i, j - 1) else 0
  }

  /** What leaks after call `i`, up to call `j`. */
  function LeakedAfter(leaks: seq<real>, i: nat, j: nat): real
    requires i <= j < |leaks|
    decreases j
  {
    if i < j then LeakedAfter(leaks, i, j - 1) + leaks[j] else 0.0
  }

  lemma {:induction false} LastCall(limit: int, bucket: real, leaks: seq<real>, j: nat)
    requires j < |leaks|
    ensures Bucket(limit, bucket, leaks[..j + 1]) == BucketAfter(limit, Bucket(limit, bucket, leaks[..j]), leaks[j])
  {
    assert leaks[..j + 1][..j] == leaks[..j];
  }

  /** Whatever is accepted is still in the bucket or has leaked out. */
  lemma {:induction false} AcceptedStaysOrLeaks(limit: int, bucket: real, leaks: seq<real>, i: nat, j: nat)
    requires i <= j < |leaks|
    ensures AcceptedIn(limit, bucket, leaks, i, j) as real <=
      Bucket(limit, bucket, leaks[..j + 1]) + LeakedAfter(leaks, i, j)
    decreases j
  {
    LastCall(limit, bucket, leaks, j);
    if i < j {
      AcceptedStaysOrLeaks(limit, bucket, leaks, i, j - 1);
    }
  }

  lemma {:induction false} AcceptedBound(limit: int, bucket: real, leaks: seq<real>, i: nat, j: nat)
    requires i <= j < |leaks| && AcceptedAt(limit, bucket, leaks, j)
    ensures AcceptedIn(limit, bucket, leaks, i, j) as real < limit as real + LeakedAfter(leaks, i, j)
  {
    LastCall(limit, bucket, leaks, j);
    AcceptedStaysOrLeaks(limit, bucket, leaks, i, j);
    assert Bucket(limit, bucket, leaks[..j + 1]) < limit as real;
  }

  /** What the calls from `i` on have put into the bucket and what has not leaked since, before call `j`. */
  function Pending(limit: int, leaks: seq<real>, i: nat, j: nat): real
    requires i <= j < |leaks|
  {
    (if i < j then AcceptedIn(limit, 0.0, leaks, i, j - 1) as real else 0.0) - LeakedAfter(leaks, i, j)
  }

  /** The bucket before a call holds the most that any stretch of calls up to it has left there. */
  lemma {:induction false} LevelIsMost(limit: int, leaks: seq<real>, j: nat) returns (most: nat)
    requires j < |leaks| && leaks[0] >= 0.0
    ensures forall i :: 0 <= i <= j ==> Pending(limit, leaks, i, j) <= Level(Bucket(limit, 0.0, leaks[..j]), leaks[j])
    ensures most <= j && Pending(limit, leaks, most, j) == Level(Bucket(limit, 0.0, leaks[..j]), leaks[j])
    decreases j
  {
    if j == 0 {
      most := 0;
      assert leaks[..0] == [];
    } else {
      most := LevelIsMost(limit, leaks, j - 1);
      LastCall(limit, 0.0, leaks, j - 1);
      forall i | 0 <= i < j
        ensures Pending(limit, leaks, i, j) ==
          Pending(limit, leaks, i, j - 1) + (if AcceptedAt(limit, 0.0, leaks, j - 1) then 1.0 else 0.0) - leaks[j]
      {
      }
      if Pending(limit, leaks, most, j) < 0.0 {
        most := j;
      }
    }
  }

  /** The limiter refuses no more than it has to: a call is accepted if and only if, with it, every stretch of
      calls that ends in it stays below the limit and what has leaked since. */
  lemma {:induction false} AcceptedExactly(limit: int, leaks: seq<real>, j: nat)
    requires j < |leaks| && leaks[0] >= 0.0
    ensures AcceptedAt(limit, 0.0, leaks, j) <==>
      forall i :: 0 <= i <= j ==> Pending(limit, leaks, i, j) + 1.0 < limit as real
  {
    var most := LevelIsMost(limit, leaks, j);
  }

  // ----- leaks and time -----

  ghost predicate Monotone(start: real, rs: seq<Readings>) {
    forall i :: 0 <= i < |rs| ==> LastTick(start, rs, i) <= rs[i].drain <= rs[i].tick
  }

  function LastTick(start: real, rs: seq<Readings>, i: nat): real
    requires i <= |rs|
  {
    if i == 0 then start else rs[i - 1].tick
  }

  function Leaks(limit: int, start: real, rs: seq<Readings>): (leaks: seq<real>)
    ensures |leaks| == |rs|
  {
    seq(|rs|, i requires 0 <= i < |rs| => Leak(limit, LastTick(start, rs, i), rs[i].drain))
  }

  lemma {:induction false} LeakFitsTime(limit: int, start: real, a: real, b: real, c: real)
    requires limit >= 0 && a <= b <= c
    ensures Leak(limit, start, a) + Leak(limit, a, b) <= Leak(limit, start, c)
  {
    var l := limit as real;
    assert (a - start) * l + (b - a) * l == (b - start) * l;
    assert (c - b) * l >= 0.0;
    assert (c - start) * l == (b - start) * l + (c - b) * l;
  }

  lemma {:induction false} LeakedInTime(limit: int, start: real, rs: seq<Readings>, i: nat, j: nat)
    requires limit >= 0 && Monotone(start, rs) && i <= j < |rs|
    ensures LeakedAfter(Leaks(limit, start, rs), i, j) <= Leak(limit, rs[i].tick, rs[j].tick)
    decreases j
  {
    if i < j {
      LeakedInTime(limit, start, rs, i, j - 1);
      LeakFitsTime(limit, rs[i].tick, rs[j - 1].tick, rs[j].drain, rs[j].tick);
    } else {
      assert Leak(limit, rs[i].tick, rs[i].tick) == 0.0;
    }
  }

  /** In any run, among the calls from any one up to an accepted one fewer than `limit + limit * T` are
      accepted, where T is the time between the two. */
  lemma {:induction false} RateBound(limit: int, bucket: real, start: real, rs: seq<Readings>, i: nat, j: nat)
    requires Monotone(start, rs) && i <= j < |rs|
    requires AcceptedAt(limit, bucket, Leaks(limit, start, rs), j)
    ensures AcceptedIn(limit, bucket, Leaks(limit, start, rs), i, j) as real <
      limit as real * (1.0 + (rs[j].tick - rs[i].tick))
  {
    var leaks := Leaks(limit, start, rs);
    AcceptedBound(limit, bucket, leaks, i, j);
    AcceptingLimit(limit, Bucket(limit, bucket, leaks[..j]), leaks[j]);
    LeakedInTime(limit, start, rs, i, j);
  }

  lemma {:induction false} AcceptingLimit(limit: int, bucket: real, leak: real)
    requires Fits(limit, bucket, leak)
    ensures limit > 1
  {
  }

  // ----- progress -----

  /** At least `1 / limit` has passed since the last tick. */
  predicate Rested(limit: int, lastTick: real, now: real) {
    Leak(limit, lastTick, now) >= 1.0
  }

  lemma {:induction false} RestedExactly(limit: int, lastTick: real, now: real)
    requires limit > 0
    ensures Rested(limit, lastTick, now) <==> now >= lastTick + 1.0 / limit as real
  {
    var l := limit as real;
    assert (1.0 / l) * l == 1.0;
    assert (now - lastTick) * l - 1.0 == (now - lastTick - 1.0 / l) * l;
  }

  /** The bucket never reaches the limit. */
  predicate Sane(limit: int, bucket: real) {
    0.0 <= bucket && (bucket == 0.0 || bucket < limit as real)
  }

  lemma {:induction false} StaysSane(limit: int, bucket: real, leak: real)
    requires Sane(limit, bucket) && leak >= 0.0
    ensures Sane(limit, BucketAfter(limit, bucket, leak))
  {
  }

  /** A call that comes `1 / limit` after the last tick, or later, is accepted; with a limit of 1 or less
      nothing ever is. */
  lemma {:induction false} WaitedCallFits(limit: int, bucket: real, leak: real)
    requires Sane(limit, bucket)
    ensures limit > 1 && leak >= 1.0 ==> Fits(limit, bucket, leak)
    ensures limit <= 1 ==> !Fits(limit, bucket, leak)
  {
  }
}
