/** The objects in front of a switch: rate limiter, bounded command buffer and batcher
    (`common/high_level_switch_connection_async.py`). */
module Sending {
  import opened RateLimit

  /** `time.time()`: any later moment. */
  class Clock {
    var now: real

    method Time() returns (t: real)
      modifies this
      ensures t == now && now >= old(now)
    {
      var passed: real := *;
      if passed > 0.0 {
        now := now + passed;
      }
      t := now;
    }

    method Sleep(seconds: real)
      requires seconds >= 0.0
      modifies this
      ensures now >= old(now) + seconds
    {
      var t := Time();
      now := t + seconds;
    }
  }

  class RateLimiter {
    const maxPerSec: int
    const clock: Clock
    var bucket: real
    var lastTick: real
    ghost var start: real
    ghost var calls: seq<Readings>
    ghost var answers: seq<bool>

    ghost predicate Valid()
      reads this, clock
    {
      && Monotone(start, calls) && Answered(maxPerSec, start, calls, answers)
      && lastTick == LastTick(start, calls, |calls|) && lastTick <= clock.now
      && bucket == Bucket(maxPerSec, 0.0, Leaks(maxPerSec, start, calls))
      && bucket >= 0.0 && (maxPerSec >= 0 ==> Sane(maxPerSec, bucket))
    }

    constructor (maxPerSec: int, clock: Clock)
      modifies clock
      ensures Valid() && this.maxPerSec == maxPerSec && this.clock == clock && calls == [] && answers == []
    {
      this.maxPerSec, this.clock, bucket, calls, answers := maxPerSec, clock, 0.0, [], [];
      new;
      lastTick := clock.Time();
      start := lastTick;
    }

    /** Drains by the time passed, reads the clock again for the new tick, and takes one place if there is
        room. */
    method IsFitInTheRateLimit() returns (fits: bool)
      requires Valid()
      modifies this`bucket, this`lastTick, this`calls, this`answers, clock
      ensures Valid() && clock.now >= old(clock.now)
      ensures |calls| == |old(calls)| + 1 && calls[..|old(calls)|] == old(calls)
      ensures answers == old(answers) + [fits]
      ensures maxPerSec <= 1 ==> !fits
      ensures maxPerSec > 1 && Rested(maxPerSec, old(lastTick), old(clock.now)) ==> fits
    {
      ghost var before, oldTick := bucket, lastTick;
      var drain := clock.Time();
      bucket := bucket - Leak(maxPerSec, lastTick, drain);
      if bucket < 0.0 {
        bucket := 0.0;
      }
      lastTick := clock.Time();
      fits := bucket + 1.0 < maxPerSec as real;
      if fits {
        bucket := bucket + 1.0;
      }
      ghost var call := Readings(drain, lastTick);
      OneMoreCall(maxPerSec, start, calls, call);
      AnsweredNext(maxPerSec, start, calls, call, answers, fits);
      CallProgress(maxPerSec, before, oldTick, old(clock.now), drain);
      MonotoneNext(start, calls, call);
      calls, answers := calls + [call], answers + [fits];
    }
  }

  /** The answers are those of the specified bucket. */
  ghost predicate Answered(limit: int, start: real, calls: seq<Readings>, answers: seq<bool>) {
    && |answers| == |calls|
    && forall i :: 0 <= i < |calls| ==> (answers[i] <==> AcceptedAt(limit, 0.0, Leaks(limit, start, calls), i))
  }

  lemma {:induction false} AnsweredNext(
    limit: int, start: real, calls: seq<Readings>, r: Readings, answers: seq<bool>, answer: bool)
    requires Answered(limit, start, calls, answers)
    requires answer <==> AcceptedAt(limit, 0.0, Leaks(limit, start, calls + [r]), |calls|)
    ensures Answered(limit, start, calls + [r], answers + [answer])
  {
    forall i | 0 <= i < |calls|
      ensures AcceptedAt(limit, 0.0, Leaks(limit, start, calls + [r]), i) <==>
        AcceptedAt(limit, 0.0, Leaks(limit, start, calls), i)
    {
      EarlierCall(limit, start, calls, calls + [r], i);
    }
  }

  lemma {:induction false} OneMoreCall(limit: int, start: real, calls: seq<Readings>, r: Readings)
    ensures var leaks := Leaks(limit, start, calls + [r]);
      var leak := Leak(limit, LastTick(start, calls, |calls|), r.drain);
      && leaks == Leaks(limit, start, calls) + [leak]
      && Bucket(limit, 0.0, leaks) == BucketAfter(limit, Bucket(limit, 0.0, Leaks(limit, start, calls)), leak)
      && (AcceptedAt(limit, 0.0, leaks, |calls|) <==> Fits(limit, Bucket(limit, 0.0, Leaks(limit, start, calls)), leak))
  {
    var leaks := Leaks(limit, start, calls + [r]);
    assert leaks == Leaks(limit, start, calls) + [Leak(limit, LastTick(start, calls, |calls|), r.drain)];
    assert leaks[..|calls|] == Leaks(limit, start, calls);
  }

  lemma {:induction false} MonotoneNext(start: real, calls: seq<Readings>, r: Readings)
    requires Monotone(start, calls) && LastTick(start, calls, |calls|) <= r.drain <= r.tick
    ensures Monotone(start, calls + [r]) && LastTick(start, calls + [r], |calls| + 1) == r.tick
  {
    forall i | 0 <= i < |calls + [r]|
      ensures LastTick(start, calls + [r], i) <= (calls + [r])[i].drain <= (calls + [r])[i].tick
    {
      if i < |calls| {
        assert LastTick(start, calls + [r], i) == LastTick(start, calls, i);
      }
    }
  }

  lemma {:induction false} CallProgress(limit: int, bucket: real, lastTick: real, early: real, drain: real)
    requires lastTick <= early <= drain && bucket >= 0.0 && (limit >= 0 ==> Sane(limit, bucket))
    ensures var leak := Leak(limit, lastTick, drain);
      && (limit >= 0 ==> Sane(limit, BucketAfter(limit, bucket, leak)))
      && (limit <= 1 ==> !Fits(limit, bucket, leak))
      && (limit > 1 && Rested(limit, lastTick, early) ==> Fits(limit, bucket, leak))
  {
    if limit >= 0 {
      LeakGrows(limit, lastTick, lastTick, drain);
      LeakGrows(limit, lastTick, early, drain);
      StaysSane(limit, bucket, Leak(limit, lastTick, drain));
      WaitedCallFits(limit, bucket, Leak(limit, lastTick, drain));
    }
  }

  lemma {:induction false} LeakGrows(limit: int, lastTick: real, early: real, drain: real)
    requires limit >= 0 && early <= drain
    ensures Leak(limit, lastTick, early) <= Leak(limit, lastTick, drain)
    ensures Leak(limit, lastTick, lastTick) == 0.0
  {
    NotNegative(drain - early, limit as real);
    assert (drain - lastTick) * limit as real == (early - lastTick) * limit as real + (drain - early) * limit as real;
  }

  lemma {:induction false} NotNegative(x: real, y: real)
    requires x >= 0.0 && y >= 0.0
    ensures x * y >= 0.0
  {
  }

  // ----- the command buffer -----

  datatype Fate = Sent | Dropped

  /** The commands with the given fate, in order. */
  function Pick<T>(commands: seq<T>, fates: seq<Fate>, f: Fate): seq<T>
    requires |commands| == |fates|
  {
    if fates == [] then []
    else
      var n := |fates| - 1;
      if fates[n] == f then Pick(commands[..n], fates[..n], f) + [commands[n]] else Pick(commands[..n], fates[..n], f)
  }

  lemma {:induction false} PickNext<T>(commands: seq<T>, c: T, fates: seq<Fate>, f: Fate, g: Fate)
    requires |commands| == |fates|
    ensures Pick(commands + [c], fates + [f], g) ==
      if f == g then Pick(commands, fates, g) + [c] else Pick(commands, fates, g)
  {
    assert (commands + [c])[..|commands|] == commands && (fates + [f])[..|fates|] == fates;
  }

  /** Commands are neither lost nor doubled: what was sent and what was dropped make up the settled ones. */
  lemma {:induction false} PickPartitions<T>(commands: seq<T>, fates: seq<Fate>)
    requires |commands| == |fates|
    ensures multiset(commands) == multiset(Pick(commands, fates, Sent)) + multiset(Pick(commands, fates, Dropped))
  {
    if fates != [] {
      var n := |fates| - 1;
      PickPartitions(commands[..n], fates[..n]);
      assert commands == commands[..n] + [commands[n]] && fates == fates[..n] + [fates[n]];
      OneMorePicked(commands[..n], commands[n], fates[..n], fates[n]);
    }
  }

  lemma {:induction false} OneMorePicked<T>(commands: seq<T>, c: T, fates: seq<Fate>, f: Fate)
    requires |commands| == |fates|
    requires multiset(commands) == multiset(Pick(commands, fates, Sent)) + multiset(Pick(commands, fates, Dropped))
    ensures multiset(commands + [c]) ==
      multiset(Pick(commands + [c], fates + [f], Sent)) + multiset(Pick(commands + [c], fates + [f], Dropped))
  {
    PickNext(commands, c, fates, f, Sent);
    PickNext(commands, c, fates, f, Dropped);
    if f.Sent? {
      OneMore(commands, Pick(commands, fates, Sent), Pick(commands, fates, Dropped), c);
    } else {
      OneMore(commands, Pick(commands, fates, Dropped), Pick(commands, fates, Sent), c);
    }
  }

  lemma {:induction false} OneMore<T>(all: seq<T>, some: seq<T>, others: seq<T>, x: T)
    requires multiset(all) == multiset(some) + multiset(others)
    ensures multiset(all + [x]) == multiset(some + [x]) + multiset(others)
    ensures multiset(all + [x]) == multiset(others) + multiset(some + [x])
  {
  }

  lemma {:induction false} PickAllSent<T>(commands: seq<T>, fates: seq<Fate>)
    requires |commands| == |fates| && forall i :: 0 <= i < |fates| ==> fates[i].Sent?
    ensures Pick(commands, fates, Sent) == commands
  {
    if fates != [] {
      var n := |fates| - 1;
      PickAllSent(commands[..n], fates[..n]);
      assert commands == commands[..n] + [commands[n]];
    }
  }

  /** Settled commands have a fate, the others wait in the buffer. */
  ghost predicate History<T>(submitted: seq<T>, fates: seq<Fate>, sent: seq<T>, buffered: seq<T>) {
    && |fates| <= |submitted| && buffered == submitted[|fates|..]
    && sent == Pick(submitted[..|fates|], fates, Sent)
  }

  lemma {:induction false} FirstSettles<T>(submitted: seq<T>, fates: seq<Fate>, sent: seq<T>, buffered: seq<T>, f: Fate)
    requires History(submitted, fates, sent, buffered) && |buffered| > 0
    ensures History(submitted, fates + [f], if f.Sent? then sent + [buffered[0]] else sent, buffered[1..])
  {
    var n := |fates|;
    assert submitted[..n + 1] == submitted[..n] + [submitted[n]];
    PickNext(submitted[..n], submitted[n], fates, f, Sent);
  }

  lemma {:induction false} CommandArrives<T>(
    submitted: seq<T>, fates: seq<Fate>, sent: seq<T>, buffered: seq<T>, command: T)
    requires History(submitted, fates, sent, buffered)
    ensures History(submitted + [command], fates, sent, buffered + [command])
  {
    assert (submitted + [command])[..|fates|] == submitted[..|fates|];
  }

  lemma {:induction false} SettlesAtOnce<T>(submitted: seq<T>, fates: seq<Fate>, sent: seq<T>, command: T)
    requires History(submitted, fates, sent, [])
    ensures History(submitted + [command], fates + [Sent], sent + [command], [])
  {
    CommandArrives(submitted, fates, sent, [], command);
    var waiting := [] + [command];
    FirstSettles(submitted + [command], fates, sent, waiting, Sent);
    assert waiting[0] == command && waiting[1..] == [];
  }

  /** `submitted`, `fates`, `sent` and `sentBy` record the history: every submitted command is sent, dropped
      or still buffered, and `sentBy` is the limiter call that let it through. */
  class RateLimitedStub<T> {
    const limiter: RateLimiter
    const bufferSize: nat
    var buffered: seq<T>
    ghost var submitted: seq<T>
    ghost var fates: seq<Fate>
    ghost var sent: seq<T>
    ghost var sentBy: seq<nat>

    ghost predicate Valid()
      reads this, limiter, limiter.clock
    {
      && limiter.Valid()
      && |buffered| <= bufferSize
      && History(submitted, fates, sent, buffered)
      && |sentBy| == |sent|
      && (forall n :: 0 <= n < |sentBy| ==> sentBy[n] < |limiter.answers| && limiter.answers[sentBy[n]])
      && (forall m, n :: 0 <= m < n < |sentBy| ==> sentBy[m] < sentBy[n])
    }

    constructor (limiter: RateLimiter, bufferSize: nat)
      requires limiter.Valid()
      ensures Valid() && this.limiter == limiter && this.bufferSize == bufferSize
      ensures submitted == [] && sent == [] && buffered == [] && fates == []
    {
      this.limiter, this.bufferSize := limiter, bufferSize;
      buffered, submitted, fates, sent, sentBy := [], [], [], [], [];
    }

    /** The oldest buffered command goes out, let through by the limiter's last call. */
    method SendFirst()
      requires Valid() && |buffered| > 0 && AnsweredYes()
      modifies this`buffered, this`fates, this`sent, this`sentBy
      ensures Valid()
      ensures buffered == old(buffered)[1..] && sent == old(sent) + [old(buffered)[0]] && fates == old(fates) + [Sent]
    {
      FirstSettles(submitted, fates, sent, buffered, Sent);
      sent, sentBy := sent + [buffered[0]], sentBy + [|limiter.answers| - 1];
      fates := fates + [Sent];
      buffered := buffered[1..];
    }

    /** A bounded deque: appending to a full one discards its oldest element, or the new one if it can
        hold nothing. */
    method Append(command: T)
      requires Valid()
      modifies this`buffered, this`submitted, this`fates
      ensures Valid() && submitted == old(submitted) + [command]
      ensures if |old(buffered)| < bufferSize
        then buffered == old(buffered) + [command] && fates == old(fates)
        else buffered == (old(buffered) + [command])[1..] && fates == old(fates) + [Dropped]
    {
      CommandArrives(submitted, fates, sent, buffered, command);
      submitted := submitted + [command];
      buffered := buffered + [command];
      if |buffered| > bufferSize {
        FirstSettles(submitted, fates, sent, buffered, Dropped);
        buffered := buffered[1..];
        fates := fates + [Dropped];
      }
    }

    /** Sends from the front as long as the limiter agrees. */
    method FlushBufferedCommands()
      requires Valid()
      modifies this`buffered, this`fates, this`sent, this`sentBy, limiter`bucket, limiter`lastTick, limiter`calls,
        limiter`answers, limiter.clock
      ensures Valid() && limiter.clock.now >= old(limiter.clock.now)
      ensures |buffered| <= |old(buffered)| && old(sent) <= sent
      ensures old(fates) <= fates && forall i :: |old(fates)| <= i < |fates| ==> fates[i].Sent?
      ensures old(limiter.answers) <= limiter.answers
      ensures |limiter.answers| - |old(limiter.answers)| == |sent| - |old(sent)| + if buffered == [] then 0 else 1
      ensures buffered == [] || !limiter.answers[|limiter.answers| - 1]
      ensures limiter.maxPerSec <= 1 ==> sent == old(sent) && buffered == old(buffered)
      ensures
        && limiter.maxPerSec > 1 && |old(buffered)| > 0
        && Rested(limiter.maxPerSec, old(limiter.lastTick), old(limiter.clock.now))
        ==> |buffered| < |old(buffered)|
    {
      while |buffered| > 0
        invariant Valid() && limiter.clock.now >= old(limiter.clock.now)
        invariant |buffered| <= |old(buffered)| && old(sent) <= sent
        invariant old(fates) <= fates && forall i :: |old(fates)| <= i < |fates| ==> fates[i].Sent?
        invariant old(limiter.answers) <= limiter.answers
        invariant |limiter.answers| - |old(limiter.answers)| == |sent| - |old(sent)|
        invariant limiter.maxPerSec <= 1 ==> sent == old(sent) && buffered == old(buffered)
        invariant |buffered| == |old(buffered)| ==>
          limiter.lastTick == old(limiter.lastTick) && limiter.clock.now == old(limiter.clock.now)
        decreases |buffered|
      {
        var fits := limiter.IsFitInTheRateLimit();
        if !fits {
          return;
        }
        SendFirst();
      }
    }

    /** A buffered kind of command: sent at once if nothing waits and the limiter agrees, otherwise queued
        behind the others; then as much of the queue as fits goes out. */
    method Submit(command: T)
      requires Valid()
      modifies this`buffered, this`submitted, this`fates, this`sent, this`sentBy, limiter`bucket, limiter`lastTick,
        limiter`calls, limiter`answers, limiter.clock
      ensures Valid() && submitted == old(submitted) + [command]
      ensures old(fates) <= fates && old(sent) <= sent && old(limiter.answers) <= limiter.answers
      ensures |old(buffered)| == 0 ==> |limiter.answers| > |old(limiter.answers)|
      ensures if |old(buffered)| == 0 && limiter.answers[|old(limiter.answers)|]
        then sent == old(sent) + [command] && fates == old(fates) + [Sent] && buffered == []
        else DropsIfFull(old(fates), |old(buffered)| == bufferSize)
      ensures buffered == [] || (|limiter.answers| > 0 && !limiter.answers[|limiter.answers| - 1])
      ensures limiter.maxPerSec <= 1 ==> sent == old(sent)
    {
      if |buffered| == 0 {
        var fits := limiter.IsFitInTheRateLimit();
        if fits {
          SendDirectly(command);
          return;
        }
      }
      Queue(command);
    }

    /** Behind the others; then as much of the queue as fits goes out. */
    method Queue(command: T)
      requires Valid()
      modifies this`buffered, this`submitted, this`fates, this`sent, this`sentBy, limiter`bucket, limiter`lastTick,
        limiter`calls, limiter`answers, limiter.clock
      ensures Valid() && submitted == old(submitted) + [command]
      ensures old(sent) <= sent && old(limiter.answers) <= limiter.answers
      ensures DropsIfFull(old(fates), |old(buffered)| == bufferSize)
      ensures buffered == [] || (|limiter.answers| > 0 && !limiter.answers[|limiter.answers| - 1])
      ensures limiter.maxPerSec <= 1 ==> sent == old(sent)
    {
      Append(command);
      FlushBufferedCommands();
    }

    /** Since `before` nothing was dropped but the first command to be settled, and that exactly if the buffer
        was full. */
    ghost predicate DropsIfFull(before: seq<Fate>, full: bool)
      reads this
    {
      && before <= fates && (full ==> |fates| > |before|)
      && forall i :: |before| <= i < |fates| ==> (fates[i].Dropped? <==> full && i == |before|)
    }

    /** The limiter's last answer was yes, and no command has used it yet. */
    ghost predicate AnsweredYes()
      reads this, limiter
    {
      && |limiter.answers| > 0 && limiter.answers[|limiter.answers| - 1]
      && forall n :: 0 <= n < |sentBy| ==> sentBy[n] < |limiter.answers| - 1
    }

    method SendDirectly(command: T)
      requires Valid() && |buffered| == 0 && AnsweredYes()
      modifies this`submitted, this`fates, this`sent, this`sentBy
      ensures Valid() && submitted == old(submitted) + [command]
      ensures sent == old(sent) + [command] && fates == old(fates) + [Sent]
    {
      assert buffered == [];
      SettlesAtOnce(submitted, fates, sent, command);
      submitted, sent, sentBy, fates :=
        submitted + [command], sent + [command], sentBy + [|limiter.answers| - 1], fates + [Sent];
    }

    /** A beat every tenth of a second.  With a limit of 10 or more every beat that finds the limiter idle
        for a tenth of a second sends at least one command. */
    method Heartbeat(beats: nat)
      requires Valid()
      modifies this`buffered, this`fates, this`sent, this`sentBy, limiter`bucket, limiter`lastTick, limiter`calls,
        limiter`answers, limiter.clock
      ensures Valid() && old(sent) <= sent
      ensures limiter.maxPerSec <= 1 ==> sent == old(sent) && buffered == old(buffered)
      ensures limiter.maxPerSec >= 10 && beats > |old(buffered)| ==> buffered == []
      ensures
        && limiter.maxPerSec >= 10 && old(limiter.clock.now) >= old(limiter.lastTick) + 0.1
        && beats >= |old(buffered)|
        ==> buffered == []
    {
      ghost var idle := limiter.clock.now >= limiter.lastTick + 0.1;
      for beat := 0 to beats
        invariant Valid() && old(sent) <= sent
        invariant limiter.maxPerSec <= 1 ==> sent == old(sent) && buffered == old(buffered)
        invariant beat > 0 || idle ==> limiter.clock.now >= limiter.lastTick + 0.1
        invariant limiter.maxPerSec >= 10 ==> |buffered| <= |old(buffered)|
        invariant limiter.maxPerSec >= 10 && (beat > 0 || idle) ==>
          buffered == [] || |buffered| + beat <= |old(buffered)| + if idle then 0 else 1
      {
        if limiter.maxPerSec >= 10 && limiter.clock.now >= limiter.lastTick + 0.1 {
          TenthIsEnough(limiter.maxPerSec, limiter.lastTick, limiter.clock.now);
        }
        FlushBufferedCommands();
        limiter.clock.Sleep(0.1);
      }
    }
  }

  lemma {:induction false} TenthIsEnough(limit: int, lastTick: real, now: real)
    requires limit >= 10 && now >= lastTick + 0.1
    ensures Rested(limit, lastTick, now)
  {
    assert (now - lastTick) * limit as real >= 0.1 * limit as real;
  }

  lemma {:induction false} EarlierCall(limit: int, start: real, before: seq<Readings>, after: seq<Readings>, call: nat)
    requires before <= after && call < |before|
    ensures AcceptedAt(limit, 0.0, Leaks(limit, start, before), call) <==>
      AcceptedAt(limit, 0.0, Leaks(limit, start, after), call)
  {
    assert Leaks(limit, start, before)[..call] == Leaks(limit, start, after)[..call];
  }

  // ----- the rate of a stub's sends -----

  lemma {:induction false} AcceptedGrows(limit: int, leaks: seq<real>, i: nat, j: nat, k: nat)
    requires i <= j < k < |leaks| && AcceptedAt(limit, 0.0, leaks, k)
    ensures AcceptedIn(limit, 0.0, leaks, i, k) >= AcceptedIn(limit, 0.0, leaks, i, j) + 1
  {
    AcceptedInGrows(limit, leaks, i, j, k - 1);
  }

  lemma {:induction false} AcceptedInGrows(limit: int, leaks: seq<real>, i: nat, j: nat, k: nat)
    requires i <= j <= k < |leaks|
    ensures AcceptedIn(limit, 0.0, leaks, i, k) >= AcceptedIn(limit, 0.0, leaks, i, j)
    decreases k
  {
    if j < k {
      AcceptedInGrows(limit, leaks, i, j, k - 1);
    }
  }

  /** Commands and the limiter calls that let them through, as a stub records them. */
  ghost predicate Recorded(limit: int, leaks: seq<real>, sentBy: seq<nat>) {
    && (forall n :: 0 <= n < |sentBy| ==> sentBy[n] < |leaks| && AcceptedAt(limit, 0.0, leaks, sentBy[n]))
    && (forall m, n :: 0 <= m < n < |sentBy| ==> sentBy[m] < sentBy[n])
  }

  lemma {:induction false} SendsAreAccepted(limit: int, leaks: seq<real>, sentBy: seq<nat>, m: nat, n: nat)
    requires Recorded(limit, leaks, sentBy) && m <= n < |sentBy|
    ensures sentBy[m] <= sentBy[n] && n - m + 1 <= AcceptedIn(limit, 0.0, leaks, sentBy[m], sentBy[n])
    decreases n
  {
    if m < n {
      SendsAreAccepted(limit, leaks, sentBy, m, n - 1);
      AcceptedGrows(limit, leaks, sentBy[m], sentBy[n - 1], sentBy[n]);
    }
  }

  /** Between any two sends, as a bound on what leaked. */
  lemma {:induction false} SpanLeaks(limit: int, leaks: seq<real>, sentBy: seq<nat>, m: nat, n: nat, leaked: real)
    requires Recorded(limit, leaks, sentBy) && m <= n < |sentBy|
    requires sentBy[m] <= sentBy[n] && LeakedAfter(leaks, sentBy[m], sentBy[n]) <= leaked
    ensures (n - m + 1) as real < limit as real + leaked
  {
    SendsAreAccepted(limit, leaks, sentBy, m, n);
    AcceptedBound(limit, 0.0, leaks, sentBy[m], sentBy[n]);
  }

  /** How many commands left in the closed window from `from` to `to`. */
  function SentWithin(calls: seq<Readings>, sentBy: seq<nat>, from: real, to: real): nat
    requires forall n :: 0 <= n < |sentBy| ==> sentBy[n] < |calls|
  {
    if sentBy == [] then 0
    else
      var n := |sentBy| - 1;
      SentWithin(calls, sentBy[..n], from, to) + if from <= calls[sentBy[n]].tick <= to then 1 else 0
  }

  lemma {:induction false} WindowSpan(
    calls: seq<Readings>, sentBy: seq<nat>, from: real, to: real) returns (m: nat, n: nat)
    requires forall n :: 0 <= n < |sentBy| ==> sentBy[n] < |calls|
    requires SentWithin(calls, sentBy, from, to) > 0
    ensures m <= n < |sentBy| && SentWithin(calls, sentBy, from, to) <= n - m + 1
    ensures from <= calls[sentBy[m]].tick <= to && from <= calls[sentBy[n]].tick <= to
  {
    var last := |sentBy| - 1;
    var init := sentBy[..last];
    if SentWithin(calls, init, from, to) == 0 {
      m, n := last, last;
    } else {
      m, n := WindowSpan(calls, init, from, to);
      if from <= calls[sentBy[last]].tick <= to {
        n := last;
      }
    }
  }

  /** The rate bound on every window: in any interval of length T fewer than `limit * (T + 1)` commands
      leave, direct and flushed ones together. */
  lemma {:induction false} SendRateBound(
    limit: int, start: real, calls: seq<Readings>, sentBy: seq<nat>, from: real, length: real)
    requires Monotone(start, calls) && Recorded(limit, Leaks(limit, start, calls), sentBy) && limit > 0 && length >= 0.0
    ensures SentWithin(calls, sentBy, from, from + length) as real < limit as real * (length + 1.0)
  {
    if SentWithin(calls, sentBy, from, from + length) > 0 {
      var m, n := WindowSpan(calls, sentBy, from, from + length);
      SendsAreAccepted(limit, Leaks(limit, start, calls), sentBy, m, n);
      LeakedInTime(limit, start, calls, sentBy[m], sentBy[n]);
      LeakInWindow(limit, calls[sentBy[m]].tick, calls[sentBy[n]].tick, length);
      SpanLeaks(limit, Leaks(limit, start, calls), sentBy, m, n, length * limit as real);
    }
    Quota(limit, length);
  }

  lemma {:induction false} LeakInWindow(limit: int, a: real, b: real, length: real)
    requires limit > 0 && b - a <= length
    ensures Leak(limit, a, b) <= length * limit as real
  {
    NotNegative(length - (b - a), limit as real);
    assert length * limit as real == (b - a) * limit as real + (length - (b - a)) * limit as real;
  }

  lemma {:induction false} Quota(limit: int, length: real)
    requires limit > 0 && length >= 0.0
    ensures limit as real * (length + 1.0) == limit as real + length * limit as real > 0.0
  {
    NotNegative(length, limit as real);
  }

  /** What a stub's history says: nothing dropped means nothing lost and nothing reordered; in any case
      sent, dropped and buffered commands make up the submitted ones. */
  lemma {:induction false} StubHistory<T>(stub: RateLimitedStub<T>)
    requires stub.Valid()
    ensures Monotone(stub.limiter.start, stub.limiter.calls)
    ensures Recorded(
      stub.limiter.maxPerSec, Leaks(stub.limiter.maxPerSec, stub.limiter.start, stub.limiter.calls), stub.sentBy)
    ensures (forall i :: 0 <= i < |stub.fates| ==> stub.fates[i].Sent?) ==> stub.sent + stub.buffered == stub.submitted
    ensures multiset(stub.submitted) ==
      multiset(stub.sent) + multiset(Pick(stub.submitted[..|stub.fates|], stub.fates, Dropped))
      + multiset(stub.buffered)
  {
    var n := |stub.fates|;
    assert stub.submitted == stub.submitted[..n] + stub.buffered;
    PickPartitions(stub.submitted[..n], stub.fates);
    if forall i :: 0 <= i < n ==> stub.fates[i].Sent? {
      PickAllSent(stub.submitted[..n], stub.fates);
    }
  }

  // ----- batching -----

  function Flatten<T>(batches: seq<seq<T>>): seq<T> {
    if batches == [] then [] else Flatten(batches[..|batches| - 1]) + batches[|batches| - 1]
  }

  lemma {:induction false} FlattenAppend<T>(a: seq<seq<T>>, b: seq<seq<T>>)
    ensures Flatten(a + b) == Flatten(a) + Flatten(b)
  {
    if b == [] {
      assert a + b == a;
    } else {
      assert (a + b)[..|a + b| - 1] == a + b[..|b| - 1];
      FlattenAppend(a, b[..|b| - 1]);
    }
  }

  /** The batching connection.  A turn of the loop takes the batch and sends it; updates that arrive in
      between go to the next batch. */
  class SwitchConnection<T> {
    const stub: RateLimitedStub<seq<T>>
    const batching: bool
    var batch: seq<T>
    var inFlight: seq<T>
    ghost var added: seq<T>

    ghost predicate Valid()
      reads this, stub, stub.limiter, stub.limiter.clock
    {
      && stub.Valid()
      && Flatten(stub.submitted) + inFlight + batch == added
      && (!batching ==> batch == [] && inFlight == [])
    }

    constructor (stub: RateLimitedStub<seq<T>>, batching: bool)
      requires stub.Valid() && stub.submitted == []
      ensures Valid() && this.stub == stub && this.batching == batching && added == [] && inFlight == []
    {
      this.stub, this.batching, batch, inFlight, added := stub, batching, [], [], [];
    }

    /** With a batch delay the updates wait in the batch; without one they are a request of their own. */
    method WriteUpdates(updates: seq<T>)
      requires Valid()
      modifies this`batch, this`added, stub`buffered, stub`submitted, stub`fates, stub`sent, stub`sentBy,
               stub.limiter`bucket, stub.limiter`lastTick, stub.limiter`calls, stub.limiter`answers, stub.limiter.clock
      ensures Valid() && added == old(added) + updates
      ensures batch == if batching then old(batch) + updates else []
      ensures stub.submitted == if batching then old(stub.submitted) else old(stub.submitted) + [updates]
      ensures batching ==> stub.sent == old(stub.sent) && stub.buffered == old(stub.buffered)
    {
      if batching {
        ExtendBatch(updates);
      } else {
        SendAtOnce(updates);
      }
    }

    method SendAtOnce(updates: seq<T>)
      requires Valid() && !batching
      modifies this`added, stub`buffered, stub`submitted, stub`fates, stub`sent, stub`sentBy,
               stub.limiter`bucket, stub.limiter`lastTick, stub.limiter`calls, stub.limiter`answers, stub.limiter.clock
      ensures Valid() && added == old(added) + updates && stub.submitted == old(stub.submitted) + [updates]
    {
      assert Flatten(stub.submitted) == added;
      SubmitUpdates(updates);
      added := added + updates;
      assert Flatten(stub.submitted) == added;
    }

    method ExtendBatch(updates: seq<T>)
      requires Valid() && batching
      modifies this`batch, this`added
      ensures Valid() && added == old(added) + updates && batch == old(batch) + updates
    {
      batch := batch + updates;
      added := added + updates;
    }

    /** One request with all the updates. */
    method SubmitUpdates(updates: seq<T>)
      requires stub.Valid()
      modifies stub`buffered, stub`submitted, stub`fates, stub`sent, stub`sentBy,
               stub.limiter`bucket, stub.limiter`lastTick, stub.limiter`calls, stub.limiter`answers, stub.limiter.clock
      ensures stub.Valid() && stub.submitted == old(stub.submitted) + [updates] && old(stub.sent) <= stub.sent
      ensures Flatten(stub.submitted) == Flatten(old(stub.submitted)) + updates
    {
      FlattenOneMore(stub.submitted, updates);
      stub.Submit(updates);
    }

    /** First half of a turn: the list is swapped for an empty one. */
    method TakeBatch()
      requires Valid() && inFlight == []
      modifies this`batch, this`inFlight
      ensures Valid() && batch == [] && inFlight == old(batch)
    {
      if |batch| > 0 {
        inFlight := batch;
        batch := [];
      }
    }

    /** Second half: one request with all the updates of the batch. */
    method SendBatch()
      requires Valid()
      modifies this`inFlight, stub`buffered, stub`submitted, stub`fates, stub`sent, stub`sentBy,
               stub.limiter`bucket, stub.limiter`lastTick, stub.limiter`calls, stub.limiter`answers, stub.limiter.clock
      ensures Valid() && inFlight == [] && old(stub.sent) <= stub.sent
      ensures stub.submitted ==
        if old(inFlight) == [] then old(stub.submitted) else old(stub.submitted) + [old(inFlight)]
    {
      if |inFlight| > 0 {
        assert Flatten(stub.submitted) + inFlight + batch == added;
        SubmitUpdates(inFlight);
        inFlight := [];
        assert Flatten(stub.submitted) + inFlight == Flatten(stub.submitted);
      }
    }
  }

  lemma {:induction false} FlattenOneMore<T>(batches: seq<seq<T>>, batch: seq<T>)
    ensures Flatten(batches + [batch]) == Flatten(batches) + batch
  {
    assert (batches + [batch])[..|batches|] == batches;
  }

  /** Exactly once and in order, through batcher and rate limiter: as long as the buffer never overflowed,
      the updates sent, buffered, in flight and pending are all the updates ever added. */
  lemma {:induction false} UpdatesExactlyOnce<T>(c: SwitchConnection<T>)
    requires c.Valid() && forall i :: 0 <= i < |c.stub.fates| ==> c.stub.fates[i].Sent?
    ensures Flatten(c.stub.sent) + Flatten(c.stub.buffered) + c.inFlight + c.batch == c.added
  {
    StubHistory(c.stub);
    FlattenAppend(c.stub.sent, c.stub.buffered);
  }
}
