/** Counter conservation: what a Read answers is all the traffic that was ever counted, whichever targets
    or entries were taken away in between (`proxy.py`). */
module Conservation {
  import opened Tables
  import opened AllowLists
  import opened Entities
  import opened Replicas

  /** Counters count packets and bytes; every statement below holds for either. */
  datatype Unit = Packets | Bytes

  function In(c: Count, unit: Unit): nat {
    if unit.Packets? then c.packets else c.bytes
  }

  /** What the entity holds. */
  function Amount(e: Entity, unit: Unit): nat {
    if IsCounter(e) then In(e.data, unit) else 0
  }

  /** What the entities that satisfy `p` hold together. */
  function Weight(xs: seq<Entity>, p: Entity -> bool, unit: Unit): nat {
    if xs == [] then 0
    else Weight(xs[..|xs| - 1], p, unit) + if p(xs[|xs| - 1]) then Amount(xs[|xs| - 1], unit) else 0
  }

  /** What a list of counters holds under one identifier. */
  function CountOf(xs: seq<Entity>, id: Identifier, unit: Unit): nat {
    Weight(xs, Under(id), unit)
  }

  predicate Reports(xs: seq<Entity>, id: Identifier) {
    exists e :: e in xs && Carries(e, id)
  }

  function LiveCount(targets: seq<Target>, id: Identifier, unit: Unit): nat {
    if targets == [] then 0
    else (LiveCount(targets[..|targets| - 1], id, unit) + CountOf(targets[|targets| - 1].device.counters, id, unit))
  }

  /** Everything the proxy can still account for: live counters and the bank. */
  function Total(s: State, id: Identifier, unit: Unit): nat {
    (LiveCount(s.targets, id, unit) + CountOf(s.bank, id, unit))
  }

  predicate Countable(xs: seq<Entity>) {
    forall e :: e in xs ==> IsCounter(e)
  }

  /** A direct counter belongs to an entry of its switch. */
  predicate Consistent(d: Switch) {
    && Countable(d.counters)
    && forall e :: e in d.counters && e.DirectCounterEntry? ==> e.key in d.entries
  }

  ghost predicate CountersInSync(s: State) {
    && Countable(s.bank)
    && forall i :: 0 <= i < |s.targets| ==> Consistent(s.targets[i].device)
  }

  // ----- counting -----

  lemma {:induction false} WeightAppend(xs: seq<Entity>, ys: seq<Entity>, p: Entity -> bool, unit: Unit)
    ensures Weight(xs + ys, p, unit) == Weight(xs, p, unit) + Weight(ys, p, unit)
  {
    if ys == [] {
      assert xs + ys == xs;
    } else {
      var all := xs + ys;
      assert all[..|all| - 1] == xs + ys[..|ys| - 1];
      WeightAppend(xs, ys[..|ys| - 1], p, unit);
    }
  }

  lemma {:induction false} WeightOne(e: Entity, p: Entity -> bool, unit: Unit)
    ensures Weight([e], p, unit) == if p(e) then Amount(e, unit) else 0
  {
    assert [e][..0] == [];
  }

  /** Selecting and counting is counting both conditions. */
  lemma {:induction false} WeightOfSelection(
    xs: seq<Entity>, q: Entity -> bool, p: Entity -> bool, both: Entity -> bool, unit: Unit)
    requires forall e :: e in xs && Amount(e, unit) != 0 ==> (both(e) <==> p(e) && q(e))
    ensures Weight(Select(xs, q), p, unit) == Weight(xs, both, unit)
  {
    if xs != [] {
      var init, e := xs[..|xs| - 1], xs[|xs| - 1];
      assert e in xs;
      WeightOfSelection(init, q, p, both, unit);
      WeightOne(e, p, unit);
      WeightAppend(Select(init, q), [e], p, unit);
    }
  }

  lemma {:induction false} WeightOfNothing(xs: seq<Entity>, p: Entity -> bool, unit: Unit)
    requires forall e :: e in xs ==> !p(e)
    ensures Weight(xs, p, unit) == 0
  {
    if xs != [] {
      assert xs[|xs| - 1] in xs;
      WeightOfNothing(xs[..|xs| - 1], p, unit);
    }
  }

  lemma {:induction false} SelectionIsPart(xs: seq<Entity>, q: Entity -> bool, e: Entity)
    requires e in Select(xs, q)
    ensures e in xs && q(e)
  {
    if e in Select(xs[..|xs| - 1], q) {
      SelectionIsPart(xs[..|xs| - 1], q, e);
    }
  }

  lemma {:induction false} SelectionIsCountable(xs: seq<Entity>, q: Entity -> bool)
    requires Countable(xs)
    ensures Countable(Select(xs, q))
  {
    forall e | e in Select(xs, q)
      ensures IsCounter(e)
    {
      SelectionIsPart(xs, q, e);
    }
  }

  lemma {:induction false} NotReported(xs: seq<Entity>, id: Identifier, unit: Unit)
    requires !Reports(xs, id)
    ensures CountOf(xs, id, unit) == 0
  {
    WeightOfNothing(xs, Under(id), unit);
  }

  lemma {:induction false} CountWithoutEntry(xs: seq<Entity>, k: Key, id: Identifier, unit: Unit)
    requires Countable(xs)
    ensures CountOf(WithoutEntry(xs, k), id, unit) == if id == EntryId(k) then 0 else CountOf(xs, id, unit)
  {
    var q := NotOf(k);
    if id == EntryId(k) {
      WeightOfSelection(xs, q, Under(id), _ => false, unit);
      WeightOfNothing(xs, _ => false, unit);
    } else {
      WeightOfSelection(xs, q, Under(id), Under(id), unit);
    }
  }

  lemma {:induction false} CountNonEmpty(xs: seq<Entity>, id: Identifier, unit: Unit)
    ensures CountOf(NonEmpty(xs), id, unit) == CountOf(xs, id, unit)
  {
    WeightOfSelection(xs, HasData(), Under(id), Under(id), unit);
  }

  lemma {:induction false} CountDeparting(xs: seq<Entity>, k: Key, id: Identifier, unit: Unit)
    requires Countable(xs)
    ensures Countable(Departing(xs, k))
    ensures CountOf(Departing(xs, k), id, unit) ==
      if id.EntryId? && LooksAlike(k, id.key) then CountOf(xs, id, unit) else 0
  {
    var q := Matching(k);
    SelectionIsCountable(xs, q);
    if id.EntryId? && LooksAlike(k, id.key) {
      WeightOfSelection(xs, q, Under(id), Under(id), unit);
    } else {
      WeightOfSelection(xs, q, Under(id), _ => false, unit);
      WeightOfNothing(xs, _ => false, unit);
    }
  }

  /** A hit changes the data of a counter, not which counters there are. */
  lemma {:induction false} HitKeepsCounters(xs: seq<Entity>, p: Entity -> bool, amount: Count, e: Entity)
    requires e in Hit(xs, p, amount)
    ensures e in xs || exists e' :: e' in xs && e == WithData(e', Data(e))
  {
    var first := xs[0];
    assert first in xs;
    if p(first) {
      assert e == WithData(first, Data(e)) || e in xs;
    } else if e != first {
      HitKeepsCounters(xs[1..], p, amount, e);
    }
  }

  lemma {:induction false} WeightOfHit(
    xs: seq<Entity>, p: Entity -> bool, amount: Count, r: Entity -> bool, same: bool, unit: Unit)
    requires Countable(xs)
    requires forall e, d :: r(e) <==> r(WithData(e, d))
    requires forall e :: e in xs && p(e) ==> (r(e) <==> same)
    ensures Weight(Hit(xs, p, amount), r, unit) ==
      Weight(xs, r, unit) + if same && exists e :: e in xs && p(e) then In(amount, unit) else 0
  {
    if xs != [] {
      var e, rest := xs[0], xs[1..];
      assert e in xs && xs == [e] + rest;
      WeightAppend([e], rest, r, unit);
      WeightOne(e, r, unit);
      if p(e) {
        var e' := WithData(e, Plus(Data(e), amount));
        WeightAppend([e'], rest, r, unit);
        WeightOne(e', r, unit);
      } else {
        WeightOfHit(rest, p, amount, r, same, unit);
        WeightAppend([e], Hit(rest, p, amount), r, unit);
      }
    }
  }

  lemma {:induction false} CountHit(xs: seq<Entity>, hit: Identifier, amount: Count, id: Identifier, unit: Unit)
    requires Countable(xs)
    ensures CountOf(Hit(xs, Under(hit), amount), id, unit) ==
      CountOf(xs, id, unit) + if id == hit && Reports(xs, hit) then In(amount, unit) else 0
  {
    WeightOfHit(xs, Under(hit), amount, Under(id), id == hit, unit);
  }

  lemma {:induction false} LiveAppend(a: seq<Target>, b: seq<Target>, id: Identifier, unit: Unit)
    ensures LiveCount(a + b, id, unit) == (LiveCount(a, id, unit) + LiveCount(b, id, unit))
  {
    if b == [] {
      assert a + b == a;
    } else {
      var all := a + b;
      assert all[..|all| - 1] == a + b[..|b| - 1];
      LiveAppend(a, b[..|b| - 1], id, unit);
    }
  }

  /** The live count around one target. */
  lemma {:induction false} LiveSplit(ts: seq<Target>, i: nat, id: Identifier, unit: Unit)
    requires i < |ts|
    ensures LiveCount(ts, id, unit) ==
      ((LiveCount(ts[..i], id, unit) + CountOf(ts[i].device.counters, id, unit)) + LiveCount(ts[i + 1..], id, unit))
    ensures LiveCount(ts[..i] + ts[i + 1..], id, unit) ==
      (LiveCount(ts[..i], id, unit) + LiveCount(ts[i + 1..], id, unit))
  {
    var one := [ts[i]];
    assert ts == ts[..i] + one + ts[i + 1..];
    assert one[..0] == [];
    LiveAppend(ts[..i] + one, ts[i + 1..], id, unit);
    LiveAppend(ts[..i], one, id, unit);
    LiveAppend(ts[..i], ts[i + 1..], id, unit);
  }

  lemma {:induction false} LiveReplaced(ts: seq<Target>, i: nat, t: Target, id: Identifier, unit: Unit)
    requires i < |ts|
    ensures (LiveCount(ts[i := t], id, unit) + CountOf(ts[i].device.counters, id, unit)) ==
      (LiveCount(ts, id, unit) + CountOf(t.device.counters, id, unit))
  {
    var ts' := ts[i := t];
    LiveSplit(ts, i, id, unit);
    LiveSplit(ts', i, id, unit);
    assert ts'[..i] == ts[..i] && ts'[i + 1..] == ts[i + 1..];
  }

  // ----- writes -----

  predicate Deletes(us: seq<Update>, id: Identifier) {
    exists i :: 0 <= i < |us| && us[i].kind.Delete? && EntryId(us[i].key) == id
  }

  lemma {:induction false} StepStaysConsistent(counted: set<nat>, d: Switch, u: Update)
    requires Consistent(d)
    ensures Consistent(DeviceStep(counted, d, u))
  {
    var d' := DeviceStep(counted, d, u);
    forall e | e in d'.counters
      ensures IsCounter(e) && (e.DirectCounterEntry? ==> e.key in d'.entries)
    {
      if u.kind.Delete? {
        SelectionIsPart(d.counters, NotOf(u.key), e);
      }
    }
  }

  /** Every entry of a counted table has its counter. */
  ghost predicate Covered(counted: set<nat>, d: Switch) {
    forall k :: k in d.entries && k.table in counted ==> Reports(d.counters, EntryId(k))
  }

  lemma {:induction false} StepStaysCovered(counted: set<nat>, d: Switch, u: Update)
    requires Covered(counted, d)
    ensures Covered(counted, DeviceStep(counted, d, u))
  {
    var d' := DeviceStep(counted, d, u);
    forall k | k in d'.entries && k.table in counted
      ensures Reports(d'.counters, EntryId(k))
    {
      if k in d.entries {
        var e :| e in d.counters && Carries(e, EntryId(k));
        if u.kind.Delete? {
          SelectionHas(d.counters, NotOf(u.key), e);
        }
        assert e in d'.counters;
      } else {
        assert d'.counters[|d.counters|] == DirectCounterEntry(k, ZERO);
        assert Carries(d'.counters[|d.counters|], EntryId(k));
      }
    }
  }

  lemma {:induction false} SelectionHas(xs: seq<Entity>, p: Entity -> bool, e: Entity)
    requires e in xs && p(e)
    ensures e in Select(xs, p)
  {
    if e in xs[..|xs| - 1] {
      SelectionHas(xs[..|xs| - 1], p, e);
    }
  }

  lemma {:induction false} StepCounters(counted: set<nat>, d: Switch, u: Update, id: Identifier, unit: Unit)
    requires Consistent(d)
    ensures Consistent(DeviceStep(counted, d, u))
    ensures CountOf(DeviceStep(counted, d, u).counters, id, unit) ==
      if u.kind.Delete? && id == EntryId(u.key) then 0 else CountOf(d.counters, id, unit)
  {
    StepStaysConsistent(counted, d, u);
    if u.kind.Delete? {
      CountWithoutEntry(d.counters, u.key, id, unit);
    } else if u.kind.Insert? && Valid(d.entries, u) && u.key.table in counted {
      var blank := DirectCounterEntry(u.key, ZERO);
      WeightAppend(d.counters, [blank], Under(id), unit);
      WeightOne(blank, Under(id), unit);
    }
  }

  lemma {:induction false} ReplayCounters(counted: set<nat>, d: Switch, us: seq<Update>, id: Identifier, unit: Unit)
    requires Consistent(d)
    ensures Consistent(DeviceReplay(counted, d, us))
    ensures CountOf(DeviceReplay(counted, d, us).counters, id, unit) ==
      if Deletes(us, id) then 0 else CountOf(d.counters, id, unit)
  {
    if us != [] {
      var init, u := us[..|us| - 1], us[|us| - 1];
      ReplayCounters(counted, d, init, id, unit);
      StepCounters(counted, DeviceReplay(counted, d, init), u, id, unit);
      assert us == init + [u];
      DeletesAppend(init, u, id);
    }
  }

  lemma {:induction false} DeletesOnly(us: seq<Update>, p: Key -> bool, k: Key)
    ensures Deletes(Only(us, p), EntryId(k)) <==> p(k) && Deletes(us, EntryId(k))
  {
    if us != [] {
      var init, u := us[..|us| - 1], us[|us| - 1];
      DeletesOnly(init, p, k);
      DeletesAppend(init, u, EntryId(k));
      assert us == init + [u];
      DeletesAppend(Only(init, p), u, EntryId(k));
    }
  }

  lemma {:induction false} DeletesAppend(us: seq<Update>, u: Update, id: Identifier)
    ensures Deletes(us + [u], id) <==> Deletes(us, id) || (u.kind.Delete? && EntryId(u.key) == id)
  {
    var all := us + [u];
    if i :| 0 <= i < |us| && us[i].kind.Delete? && EntryId(us[i].key) == id {
      assert all[i] == us[i];
    }
    if u.kind.Delete? && EntryId(u.key) == id {
      assert all[|us|] == u;
    }
  }

  /** A switch counts nothing for entries it does not hold. */
  lemma {:induction false} AbsentCountsNothing(d: Switch, k: Key, unit: Unit)
    requires Consistent(d) && k !in d.entries
    ensures CountOf(d.counters, EntryId(k), unit) == 0
  {
    NotReported(d.counters, EntryId(k), unit);
  }

  /** Replaying a part of a valid log never throws a count away: an entry the switch already holds stops
      the replay at its INSERT, before any DELETE of it. */
  lemma {:induction false} FillKeepsCounts(counted: set<nat>, d: Switch, us: seq<Update>, id: Identifier, unit: Unit)
    requires Consistent(d) && AllValid(map[], us)
    ensures Consistent(DeviceFill(counted, d, us).0)
    ensures CountOf(DeviceFill(counted, d, us).0.counters, id, unit) == CountOf(d.counters, id, unit)
  {
    if us != [] {
      var n := |us| - 1;
      var init, u := us[..n], us[n];
      AllValidPrefix(map[], us, n);
      FillKeepsCounts(counted, d, init, id, unit);
      var (d1, ok) := DeviceFill(counted, d, init);
      if ok && Accepted(d1.entries, u) {
        StepCounters(counted, d1, u, id, unit);
        if u.kind.Delete? && id == EntryId(u.key) {
          assert Valid(Replay(map[], us[..n]), us[n]);
          LiveIsTouched(init, u.key);
          DeviceFillMeaning(counted, d, init);
          if u.key in d.entries {
            PresentKeyIsRefused(d.entries, init, u.key);
          }
          AbsentCountsNothing(d, u.key, unit);
        }
      }
    }
  }

  // ----- the purge -----

  /** How often the purge banks the counter of `k`: once for every update that compares equal to it, up
      to and including the one that deletes it. */
  ghost function TimesBanked(us: seq<Update>, k: Key): nat {
    if us == [] then 0
    else
      var init, u := us[..|us| - 1], us[|us| - 1];
      TimesBanked(init, k) + if LooksAlike(u.key, k) && !Touches(init, k) then 1 else 0
  }

  function Times(n: nat, c: nat): nat {
    if n == 0 then 0 else (Times(n - 1, c) + c)
  }

  /** What the purge did to the count of one identifier. */
  ghost predicate PurgedCount(
    d: Switch, bank: seq<Entity>, us: seq<Update>, d': Switch, b: seq<Entity>, id: Identifier, unit: Unit)
  {
    if id.EntryId? then
      && CountOf(d'.counters, id, unit) == (if Touches(us, id.key) then 0 else CountOf(d.counters, id, unit))
      && CountOf(b, id, unit) ==
        (CountOf(bank, id, unit) + Times(TimesBanked(us, id.key), CountOf(d.counters, id, unit)))
    else
      && CountOf(d'.counters, id, unit) == CountOf(d.counters, id, unit)
      && CountOf(b, id, unit) == CountOf(bank, id, unit)
  }

  lemma {:induction false} PurgeStepCounts(
    counted: set<nat>, d: Switch, bank: seq<Entity>, init: seq<Update>, u: Update, d1: Switch, b1: seq<Entity>,
    id: Identifier, unit: Unit)
    requires Consistent(d1) && Countable(b1) && PurgedCount(d, bank, init, d1, b1, id, unit)
    ensures var d2, b2 := DeviceStep(counted, d1, u.(kind := Delete)), b1 + Departing(d1.counters, u.key);
      Consistent(d2) && Countable(b2) && PurgedCount(d, bank, init + [u], d2, b2, id, unit)
  {
    StepCounters(counted, d1, u.(kind := Delete), id, unit);
    CountDeparting(d1.counters, u.key, id, unit);
    WeightAppend(b1, Departing(d1.counters, u.key), Under(id), unit);
    if id.EntryId? {
      TouchesAppend(init, u, id.key);
      assert (init + [u])[..|init|] == init;
    }
  }

  lemma {:induction false} PurgeCounts(
    counted: set<nat>, d: Switch, bank: seq<Entity>, us: seq<Update>, id: Identifier, unit: Unit)
    requires Consistent(d) && Countable(bank)
    ensures var (d', b) := Purge(counted, true, d, bank, us);
      Consistent(d') && Countable(b) && PurgedCount(d, bank, us, d', b, id, unit)
  {
    if us != [] {
      var init, u := us[..|us| - 1], us[|us| - 1];
      PurgeCounts(counted, d, bank, init, id, unit);
      var (d1, b1) := Purge(counted, true, d, bank, init);
      PurgeStepCounts(counted, d, bank, init, u, d1, b1, id, unit);
      assert us == init + [u];
    }
  }

  /** Before the entry of `k` is deleted, if it ever is, the purge deletes another one that compares equal: the
      same table and match, but for instance another priority. */
  ghost predicate LookalikeFirst(us: seq<Update>, k: Key) {
    exists i :: 0 <= i < |us| && IsLookalike(us, i, k)
  }

  ghost predicate IsLookalike(us: seq<Update>, i: nat, k: Key)
    requires i < |us|
  {
    LooksAlike(us[i].key, k) && us[i].key != k && !Touches(us[..i], k)
  }

  /** How often the counter of `k` is banked for other entries. */
  ghost function Lookalikes(us: seq<Update>, k: Key): nat {
    if us == [] then 0
    else
      var n := |us| - 1;
      Lookalikes(us[..n], k) + if IsLookalike(us, n, k) then 1 else 0
  }

  lemma {:induction false} BankedForOthers(us: seq<Update>, k: Key)
    ensures TimesBanked(us, k) == Lookalikes(us, k) + if Touches(us, k) then 1 else 0
  {
    if us != [] {
      var n := |us| - 1;
      BankedForOthers(us[..n], k);
      assert us == us[..n] + [us[n]];
      TouchesAppend(us[..n], us[n], k);
      SameAsItself(k);
    }
  }

  lemma {:induction false} SameAsItself(k: Key)
    ensures LooksAlike(k, k)
  {
  }

  lemma {:induction false} LookalikesExactly(us: seq<Update>, k: Key)
    ensures Lookalikes(us, k) == 0 <==> !LookalikeFirst(us, k)
  {
    if us != [] {
      var n := |us| - 1;
      var init := us[..n];
      LookalikesExactly(init, k);
      forall i | 0 <= i < n
        ensures IsLookalike(init, i, k) <==> IsLookalike(us, i, k)
      {
        assert init[..i] == us[..i];
      }
    }
  }

  /** What the purge does to the count of an entry: nothing is lost, and everything the entry counted is
      added once more for every lookalike. */
  lemma {:induction false} PurgeAccounts(
    counted: set<nat>, d: Switch, bank: seq<Entity>, us: seq<Update>, k: Key, unit: Unit)
    requires Consistent(d) && Countable(bank)
    ensures var (d', b) := Purge(counted, true, d, bank, us);
      CountOf(d'.counters, EntryId(k), unit) + CountOf(b, EntryId(k), unit) ==
        CountOf(d.counters, EntryId(k), unit) + CountOf(bank, EntryId(k), unit)
        + Times(Lookalikes(us, k), CountOf(d.counters, EntryId(k), unit))
  {
    PurgeCounts(counted, d, bank, us, EntryId(k), unit);
    BankedForOthers(us, k);
    var c, n := CountOf(d.counters, EntryId(k), unit), Lookalikes(us, k);
    assert Times(n + 1, c) == Times(n, c) + c;
  }

  lemma {:induction false} NoMultiple(n: nat, c: nat)
    ensures Times(n, c) == 0 <==> c == 0 || n == 0
  {
    if n > 0 {
      NoMultiple(n - 1, c);
    }
  }

  /** The purge conserves the count of an entry exactly when it counted nothing or no lookalike is purged
      before it. */
  lemma {:induction false} PurgeConservesExactly(
    counted: set<nat>, d: Switch, bank: seq<Entity>, us: seq<Update>, k: Key, unit: Unit)
    requires Consistent(d) && Countable(bank)
    ensures var (d', b) := Purge(counted, true, d, bank, us);
      CountOf(d'.counters, EntryId(k), unit) + CountOf(b, EntryId(k), unit) ==
        CountOf(d.counters, EntryId(k), unit) + CountOf(bank, EntryId(k), unit)
      <==> CountOf(d.counters, EntryId(k), unit) == 0 || !LookalikeFirst(us, k)
  {
    PurgeAccounts(counted, d, bank, us, k, unit);
    LookalikesExactly(us, k);
    NoMultiple(Lookalikes(us, k), CountOf(d.counters, EntryId(k), unit));
  }

  /** Two entries that compare equal without being equal, for instance because only their priorities
      differ, make the second one count twice: it is banked with the first and again on its own. */
  lemma {:induction false} LookalikeIsBankedTwice(
    counted: set<nat>, d: Switch, bank: seq<Entity>, u1: Update, u2: Update, unit: Unit)
    requires Consistent(d) && Countable(bank)
    requires u1.key != u2.key && LooksAlike(u1.key, u2.key)
    ensures var id := EntryId(u2.key);
      CountOf(Purge(counted, true, d, bank, [u1, u2]).1, id, unit) ==
        CountOf(bank, id, unit) + 2 * CountOf(d.counters, id, unit)
  {
    assert [u1, u2][..1] == [u1] && [u1][..0] == [];
    PurgeCounts(counted, d, bank, [u1, u2], EntryId(u2.key), unit);
    assert TimesBanked([u1], u2.key) == TimesBanked([], u2.key) + 1;
    assert [u1, u2][..1] == [u1] && !Touches([u1], u2.key);
    assert TimesBanked([u1, u2], u2.key) == 2;
    var c := CountOf(d.counters, EntryId(u2.key), unit);
    assert Times(2, c) == Times(1, c) + c == Times(0, c) + c + c;
  }

  // ----- whole runs -----

  /** Traffic counted by a call: packets hitting a reported counter. */
  function Gain(s: State, op: Op, id: Identifier, unit: Unit): nat {
    match op
    case Traffic(address, hit, amount) =>
      var i := Find(s.targets, address);
      if i < |s.targets| && hit == id && Reports(s.targets[i].device.counters, id) then In(amount, unit) else 0
    case _ => 0
  }

  /** What a switch reports already when it is added.  Nobody knows whether it was banked before. */
  function Brought(op: Op, id: Identifier, unit: Unit): nat {
    if op.AddTarget? then CountOf(op.target.device.counters, id, unit) else 0
  }

  /** What nobody banks: the counters of entries that the controller deletes, and those of a target whose
      address is registered again. */
  function Loss(s: State, op: Op, id: Identifier, unit: Unit): nat {
    match op
    case Write(us) => if Deletes(us, id) then LiveCount(s.targets, id, unit) else 0
    case AddTarget(t) =>
      var i := Find(s.targets, t.address);
      if i < |s.targets| then CountOf(s.targets[i].device.counters, id, unit) else 0
    case _ => 0
  }

  /** The updates for which removing allow-list values purges the target. */
  function PurgedBy(s: State, address: string, removals: AllowList): seq<Update> {
    var i := Find(s.targets, address);
    if i == |s.targets| then []
    else PurgeUpdates(s, s.targets[i].filter, ShorterFilter(s.targets[i].filter, removals))
  }

  function CountAt(s: State, address: string, id: Identifier, unit: Unit): nat {
    var i := Find(s.targets, address);
    if i == |s.targets| then 0 else CountOf(s.targets[i].device.counters, id, unit)
  }

  /** What is counted twice: the counter of an entry, once for every lookalike purged before it. */
  ghost function Doubled(s: State, op: Op, id: Identifier, unit: Unit): nat {
    match op
    case RemoveFilter(a, removals) =>
      if id.EntryId? then Times(Lookalikes(PurgedBy(s, a, removals), id.key), CountAt(s, a, id, unit)) else 0
    case _ => 0
  }

  /** A new switch reports no counter of an entry that it does not hold. */
  ghost predicate Arrives(op: Op) {
    op.AddTarget? ==> Consistent(op.target.device)
  }

  lemma {:induction false} LiveAfterWrite(ts: seq<Target>, ts': seq<Target>, deleted: bool, id: Identifier, unit: Unit)
    requires |ts| == |ts'|
    requires forall i :: 0 <= i < |ts| ==>
      CountOf(ts'[i].device.counters, id, unit) == if deleted then 0 else CountOf(ts[i].device.counters, id, unit)
    ensures LiveCount(ts', id, unit) == if deleted then 0 else LiveCount(ts, id, unit)
  {
    if ts != [] {
      var n := |ts| - 1;
      assert forall i :: 0 <= i < n ==> ts[..n][i] == ts[i] && ts'[..n][i] == ts'[i];
      LiveAfterWrite(ts[..n], ts'[..n], deleted, id, unit);
    }
  }

  lemma {:induction false} WriteToCounts(
    counted: set<nat>, log: seq<Update>, t: Target, us: seq<Update>, id: Identifier, unit: Unit)
    requires TargetInSync(log, t) && Consistent(t.device)
    ensures Consistent(WriteTo(counted, t, us).device)
    ensures CountOf(WriteTo(counted, t, us).device.counters, id, unit) ==
      if Deletes(us, id) then 0 else CountOf(t.device.counters, id, unit)
  {
    var p := AllowedBy(t.filter);
    ReplayCounters(counted, t.device, Only(us, p), id, unit);
    if id.EntryId? {
      DeletesOnly(us, p, id.key);
      if !p(id.key) {
        AbsentCountsNothing(t.device, id.key, unit);
      }
    }
  }

  lemma {:induction false} WriteConserves(s: State, us: seq<Update>, id: Identifier, unit: Unit)
    requires InSync(s) && CountersInSync(s) && Proper(s, Write(us))
    ensures CountersInSync(DoWrite(s, us).state)
    ensures Total(DoWrite(s, us).state, id, unit) + Loss(s, Write(us), id, unit) == Total(s, id, unit)
  {
    var ts' := DoWrite(s, us).state.targets;
    forall i | 0 <= i < |s.targets|
      ensures Consistent(ts'[i].device)
      ensures CountOf(ts'[i].device.counters, id, unit) ==
        if Deletes(us, id) then 0 else CountOf(s.targets[i].device.counters, id, unit)
    {
      WriteToCounts(s.countedTables, s.log, s.targets[i], us, id, unit);
    }
    LiveAfterWrite(s.targets, ts', Deletes(us, id), id, unit);
  }

  /** Replacing one target by one that counts the same, and the bank by one that counts the rest. */
  lemma {:induction false} TotalAfterChange(
    s: State, i: nat, t: Target, bank: seq<Entity>, gain: nat, id: Identifier, unit: Unit)
    requires CountersInSync(s) && i < |s.targets| && Consistent(t.device) && Countable(bank)
    requires CountOf(t.device.counters, id, unit) + CountOf(bank, id, unit) ==
      CountOf(s.targets[i].device.counters, id, unit) + CountOf(s.bank, id, unit) + gain
    ensures CountersInSync(s.(targets := s.targets[i := t], bank := bank))
    ensures Total(s.(targets := s.targets[i := t], bank := bank), id, unit) == Total(s, id, unit) + gain
  {
    LiveReplaced(s.targets, i, t, id, unit);
  }

  lemma {:induction false} FillUpdatesCounts(s: State, d: Switch, used: Filter, f: Filter, id: Identifier, unit: Unit)
    requires InSync(s) && Consistent(d)
    ensures var d' := DeviceFill(s.countedTables, d, FillUpdates(s, used, f)).0;
      Consistent(d') && CountOf(d'.counters, id, unit) == CountOf(d.counters, id, unit)
  {
    var p := Both(used, f);
    OnlyValid(map[], s.log, p);
    assert Restrict(map[], p) == map[];
    FillKeepsCounts(s.countedTables, d, Only(s.log, p), id, unit);
  }

  lemma {:induction false} AddTargetAccounts(s: State, t: Target, id: Identifier, unit: Unit)
    requires InSync(s) && CountersInSync(s) && Consistent(t.device)
    ensures CountersInSync(DoAddTarget(s, t).state)
    ensures Total(DoAddTarget(s, t).state, id, unit) + Loss(s, AddTarget(t), id, unit) ==
      Total(s, id, unit) + CountOf(t.device.counters, id, unit)
  {
    FillUpdatesCounts(s, t.device, t.filter, t.filter, id, unit);
    var (d, _) := DeviceFill(s.countedTables, t.device, FillUpdates(s, t.filter, t.filter));
    var t1 := t.(device := d);
    var i := Find(s.targets, t.address);
    if i < |s.targets| {
      LiveReplaced(s.targets, i, t1, id, unit);
    } else {
      var ts' := s.targets + [t1];
      assert ts'[..|ts'| - 1] == s.targets;
    }
  }

  lemma {:induction false} AddFilterConserves(s: State, address: string, adds: AllowList, id: Identifier, unit: Unit)
    requires InSync(s) && CountersInSync(s)
    ensures CountersInSync(DoAddFilter(s, address, adds).state)
    ensures Total(DoAddFilter(s, address, adds).state, id, unit) == Total(s, id, unit)
  {
    var i := Find(s.targets, address);
    if i < |s.targets| {
      var t := s.targets[i];
      var f, used := AllowOnly(Extended(Lists(t.filter), adds)), AllowOnly(Added(Lists(t.filter), adds));
      FillUpdatesCounts(s, t.device, used, f, id, unit);
      var d := DeviceFill(s.countedTables, t.device, FillUpdates(s, used, f)).0;
      TotalAfterChange(s, i, Target(address, f, d), s.bank, 0, id, unit);
    }
  }

  lemma {:induction false} RemoveTargetConserves(s: State, address: string, id: Identifier, unit: Unit)
    requires InSync(s) && CountersInSync(s)
    ensures CountersInSync(DoRemoveTarget(s, address).state)
    ensures Total(DoRemoveTarget(s, address).state, id, unit) == Total(s, id, unit)
  {
    var i := Find(s.targets, address);
    if i < |s.targets| {
      LiveSplit(s.targets, i, id, unit);
      BankedCounts(s.bank, s.targets[i].device.counters, id, unit);
    }
  }

  lemma {:induction false} BankedCounts(bank: seq<Entity>, counters: seq<Entity>, id: Identifier, unit: Unit)
    requires Countable(bank) && Countable(counters)
    ensures Countable(bank + NonEmpty(counters))
    ensures CountOf(bank + NonEmpty(counters), id, unit) == CountOf(bank, id, unit) + CountOf(counters, id, unit)
  {
    SelectionIsCountable(counters, HasData());
    CountNonEmpty(counters, id, unit);
    WeightAppend(bank, NonEmpty(counters), Under(id), unit);
  }

  lemma {:induction false} RemoveFilterAccounts(
    s: State, address: string, removals: AllowList, id: Identifier, unit: Unit)
    requires InSync(s) && CountersInSync(s) && Proper(s, RemoveFilter(address, removals))
    ensures CountersInSync(DoRemoveFilter(s, address, removals).state)
    ensures Total(DoRemoveFilter(s, address, removals).state, id, unit) ==
      Total(s, id, unit) + Doubled(s, RemoveFilter(address, removals), id, unit)
  {
    var i := Find(s.targets, address);
    var t := s.targets[i];
    var f := ShorterFilter(t.filter, removals);
    var us := PurgeUpdates(s, t.filter, f);
    var (d, b) := Purge(s.countedTables, true, t.device, s.bank, us);
    PurgeCounts(s.countedTables, t.device, s.bank, us, id, unit);
    if id.EntryId? {
      PurgeAccounts(s.countedTables, t.device, s.bank, us, id.key, unit);
    }
    TotalAfterChange(
      s, i, Target(address, f, d), b, Doubled(s, RemoveFilter(address, removals), id, unit), id, unit);
  }

  /** Removing allow-list values conserves the count of an entry exactly when the target counted nothing for
      it or no lookalike is purged before it; counter cells are always conserved. */
  lemma {:induction false} RemoveFilterConservesExactly(
    s: State, address: string, removals: AllowList, id: Identifier, unit: Unit)
    requires InSync(s) && CountersInSync(s) && Proper(s, RemoveFilter(address, removals))
    ensures Total(DoRemoveFilter(s, address, removals).state, id, unit) == Total(s, id, unit)
      <==> !CountsTwice(s, RemoveFilter(address, removals), id, unit)
  {
    RemoveFilterAccounts(s, address, removals, id, unit);
    DoubledExactly(s, RemoveFilter(address, removals), id, unit);
  }

  /** In the table of `k` every update purged has a match of the same length. */
  predicate SameLengths(us: seq<Update>, k: Key) {
    forall i :: 0 <= i < |us| && us[i].key.table == k.table ==> |us[i].key.fields| == |k.fields|
  }

  /** An update of the same table and fields but another priority is purged before any of `k` itself. */
  ghost predicate OtherPriorityFirst(us: seq<Update>, k: Key) {
    exists i :: 0 <= i < |us| && IsOtherPriority(us, i, k)
  }

  ghost predicate IsOtherPriority(us: seq<Update>, i: nat, k: Key)
    requires i < |us|
  {
    && us[i].key.table == k.table && us[i].key.fields == k.fields && us[i].key.priority != k.priority
    && forall j :: 0 <= j < i ==> us[j].key != k
  }

  lemma {:induction false} LookalikesDifferInPriority(us: seq<Update>, k: Key)
    requires SameLengths(us, k)
    ensures LookalikeFirst(us, k) <==> OtherPriorityFirst(us, k)
  {
    forall i | 0 <= i < |us|
      ensures IsLookalike(us, i, k) <==> IsOtherPriority(us, i, k)
    {
      SameExactly(us[i].key, k);
      PrefixTouches(us, i, k);
    }
  }

  lemma {:induction false} PrefixTouches(us: seq<Update>, i: nat, k: Key)
    requires i <= |us|
    ensures Touches(us[..i], k) <==> exists j :: 0 <= j < i && us[j].key == k
  {
    if j :| 0 <= j < i && us[j].key == k {
      assert us[..i][j].key == k;
    }
    if Touches(us[..i], k) {
      var j :| 0 <= j < i && us[..i][j].key == k;
      assert us[j].key == k;
    }
  }

  /** With one match length in the table of the entry, removing allow-list values conserves its count unless it
      counted something and an entry of the same table and fields but another priority is purged first. */
  lemma {:induction false} RemoveFilterConservesByPriority(
    s: State, address: string, removals: AllowList, k: Key, unit: Unit)
    requires InSync(s) && CountersInSync(s) && Proper(s, RemoveFilter(address, removals))
    requires SameLengths(PurgedBy(s, address, removals), k)
    ensures Total(DoRemoveFilter(s, address, removals).state, EntryId(k), unit) == Total(s, EntryId(k), unit) <==>
      CountAt(s, address, EntryId(k), unit) == 0 || !OtherPriorityFirst(PurgedBy(s, address, removals), k)
  {
    RemoveFilterConservesExactly(s, address, removals, EntryId(k), unit);
    LookalikesDifferInPriority(PurgedBy(s, address, removals), k);
  }

  /** The call counts something twice. */
  ghost predicate CountsTwice(s: State, op: Op, id: Identifier, unit: Unit) {
    && op.RemoveFilter? && id.EntryId?
    && CountAt(s, op.address, id, unit) != 0
    && LookalikeFirst(PurgedBy(s, op.address, op.removals), id.key)
  }

  lemma {:induction false} DoubledExactly(s: State, op: Op, id: Identifier, unit: Unit)
    ensures Doubled(s, op, id, unit) == 0 <==> !CountsTwice(s, op, id, unit)
  {
    if op.RemoveFilter? && id.EntryId? {
      var us := PurgedBy(s, op.address, op.removals);
      LookalikesExactly(us, id.key);
      NoMultiple(Lookalikes(us, id.key), CountAt(s, op.address, id, unit));
    }
  }

  lemma {:induction false} TrafficConserves(
    s: State, address: string, hit: Identifier, amount: Count, id: Identifier, unit: Unit)
    requires CountersInSync(s)
    ensures CountersInSync(DoTraffic(s, address, hit, amount).state)
    ensures Total(DoTraffic(s, address, hit, amount).state, id, unit) ==
      Total(s, id, unit) + Gain(s, Traffic(address, hit, amount), id, unit)
  {
    var i := Find(s.targets, address);
    if i < |s.targets| {
      var t := s.targets[i];
      var p := Under(hit);
      var counters := Hit(t.device.counters, p, amount);
      var t' := t.(device := t.device.(counters := counters));
      forall e | e in counters
        ensures IsCounter(e) && (e.DirectCounterEntry? ==> e.key in t.device.entries)
      {
        HitKeepsCounters(t.device.counters, p, amount, e);
      }
      CountHit(t.device.counters, hit, amount, id, unit);
      TotalAfterChange(s, i, t', s.bank, Gain(s, Traffic(address, hit, amount), id, unit), id, unit);
    }
  }

  /** The balance of one call. */
  lemma {:induction false} StepAccounts(s: State, op: Op, id: Identifier, unit: Unit)
    requires InSync(s) && CountersInSync(s) && Proper(s, op) && Arrives(op)
    ensures CountersInSync(Do(s, op).state)
    ensures Total(Do(s, op).state, id, unit) + Loss(s, op, id, unit) ==
      Total(s, id, unit) + Gain(s, op, id, unit) + Brought(op, id, unit) + Doubled(s, op, id, unit)
  {
    match op
    case Write(us) => WriteConserves(s, us, id, unit);
    case AddTarget(t) => AddTargetAccounts(s, t, id, unit);
    case RemoveTarget(a) => RemoveTargetConserves(s, a, id, unit);
    case AddFilter(a, adds) => AddFilterConserves(s, a, adds, id, unit);
    case RemoveFilter(a, removals) => RemoveFilterAccounts(s, a, removals, id, unit);
    case Traffic(a, hit, amount) => TrafficConserves(s, a, hit, amount, id, unit);
  }

  /** What the calls of a run amount to together. */
  ghost function Over(s: State, ops: seq<Op>, f: (State, Op) -> nat): nat {
    if ops == [] then 0
    else Over(s, ops[..|ops| - 1], f) + f(Run(s, ops[..|ops| - 1]), ops[|ops| - 1])
  }

  ghost predicate IsZero(f: (State, Op) -> nat, s: State, op: Op) {
    f(s, op) == 0
  }

  lemma {:induction false} OverIsZero(s: State, ops: seq<Op>, f: (State, Op) -> nat)
    ensures Over(s, ops, f) == 0 <==> Each(s, ops, (s, op) => IsZero(f, s, op))
  {
    if ops != [] {
      OverIsZero(s, ops[..|ops| - 1], f);
      EachNext(s, ops, (s, op) => IsZero(f, s, op));
    }
  }

  ghost function Gains(id: Identifier, unit: Unit): (State, Op) -> nat {
    (s: State, op: Op) => Gain(s, op, id, unit)
  }

  ghost function Losses(id: Identifier, unit: Unit): (State, Op) -> nat {
    (s: State, op: Op) => Loss(s, op, id, unit)
  }

  /** What a call adds to the total without a packet being counted. */
  ghost function Surplus(id: Identifier, unit: Unit): (State, Op) -> nat {
    (s: State, op: Op) => Brought(op, id, unit) + Doubled(s, op, id, unit)
  }

  /** All traffic counted in a run. */
  ghost function Counted(s: State, ops: seq<Op>, id: Identifier, unit: Unit): nat {
    Over(s, ops, Gains(id, unit))
  }

  ghost function Discarded(s: State, ops: seq<Op>, id: Identifier, unit: Unit): nat {
    Over(s, ops, Losses(id, unit))
  }

  ghost predicate AllArrive(ops: seq<Op>) {
    forall i :: 0 <= i < |ops| ==> Arrives(ops[i])
  }

  /** The balance of every run: what is live, banked or thrown away is the traffic counted, what new switches
      brought along, and what was counted twice. */
  lemma {:induction false} RunAccounts(s: State, ops: seq<Op>, id: Identifier, unit: Unit)
    requires InSync(s) && CountersInSync(s) && ProperRun(s, ops) && IssuedRun(s, ops) && AllArrive(ops)
    ensures CountersInSync(Run(s, ops))
    ensures Total(Run(s, ops), id, unit) + Discarded(s, ops, id, unit) ==
      Total(s, id, unit) + Counted(s, ops, id, unit) + Over(s, ops, Surplus(id, unit))
  {
    if ops != [] {
      var n := |ops| - 1;
      var init := ops[..n];
      EachNext(s, ops, Proper);
      EachNext(s, ops, Issued);
      assert At(s, ops, n, Proper) && At(s, ops, n, Issued);
      RunAccounts(s, init, id, unit);
      RunKeepsInSync(s, init);
      StepAccounts(Run(s, init), ops[n], id, unit);
    }
  }

  /** The call adds nothing to the total but traffic: it purges no counting entry after a lookalike, and a
      switch it adds reports no count yet. */
  ghost predicate CountsOnce(s: State, op: Op, id: Identifier, unit: Unit) {
    !CountsTwice(s, op, id, unit) && (op.AddTarget? ==> CountOf(op.target.device.counters, id, unit) == 0)
  }

  ghost predicate EachCountsOnce(s: State, ops: seq<Op>, id: Identifier, unit: Unit) {
    Each(s, ops, (s, op) => CountsOnce(s, op, id, unit))
  }

  lemma {:induction false} NoSurplus(s: State, ops: seq<Op>, id: Identifier, unit: Unit)
    ensures Over(s, ops, Surplus(id, unit)) == 0 <==> EachCountsOnce(s, ops, id, unit)
  {
    OverIsZero(s, ops, Surplus(id, unit));
    forall s, op
      ensures IsZero(Surplus(id, unit), s, op) <==> CountsOnce(s, op, id, unit)
    {
      DoubledExactly(s, op, id, unit);
    }
    EachSame(s, ops, (s, op) => IsZero(Surplus(id, unit), s, op), (s, op) => CountsOnce(s, op, id, unit));
  }

  /** Conservation over whole runs, exactly: what is live, banked or thrown away is what was there at the start
      and the traffic counted since if and only if no removal of allow-list values purged a counting entry
      after a lookalike and no added switch brought a count along. */
  lemma {:induction false} RunConservesExactly(s: State, ops: seq<Op>, id: Identifier, unit: Unit)
    requires InSync(s) && CountersInSync(s) && ProperRun(s, ops) && IssuedRun(s, ops) && AllArrive(ops)
    ensures Total(Run(s, ops), id, unit) + Discarded(s, ops, id, unit) ==
      Total(s, id, unit) + Counted(s, ops, id, unit)
      <==> EachCountsOnce(s, ops, id, unit)
  {
    RunAccounts(s, ops, id, unit);
    NoSurplus(s, ops, id, unit);
  }

  /** A switch that is removed and added back without being reset is counted twice: what it counted is in the
      bank, and it still reports it. */
  lemma {:induction false} ReaddedSwitchCountsTwice(s: State, address: string, id: Identifier, unit: Unit)
    requires InSync(s) && CountersInSync(s) && Find(s.targets, address) < |s.targets|
    requires s.targets[Find(s.targets, address)].device.entries == map[]
    ensures var t := s.targets[Find(s.targets, address)];
      var ops := [RemoveTarget(address), AddTarget(t)];
      && ProperRun(s, ops) && IssuedRun(s, ops) && AllArrive(ops)
      && Counted(s, ops, id, unit) == 0 && Discarded(s, ops, id, unit) == 0
      && Total(Run(s, ops), id, unit) == Total(s, id, unit) + CountOf(t.device.counters, id, unit)
  {
    var t := s.targets[Find(s.targets, address)];
    ReaddingIsProper(s, address);
    ReaddingCounts(s, address, id, unit);
  }

  lemma {:induction false} ReaddingCounts(s: State, address: string, id: Identifier, unit: Unit)
    requires InSync(s) && CountersInSync(s) && Find(s.targets, address) < |s.targets|
    ensures var t := s.targets[Find(s.targets, address)];
      var ops := [RemoveTarget(address), AddTarget(t)];
      && Counted(s, ops, id, unit) == 0 && Discarded(s, ops, id, unit) == 0
      && Total(Run(s, ops), id, unit) == Total(s, id, unit) + CountOf(t.device.counters, id, unit)
  {
    var t := s.targets[Find(s.targets, address)];
    ReaddingTotals(s, address, id, unit);
    RunOfTwo(s, RemoveTarget(address), AddTarget(t));
    OverTwo(s, RemoveTarget(address), AddTarget(t), Gains(id, unit));
    OverTwo(s, RemoveTarget(address), AddTarget(t), Losses(id, unit));
  }

  lemma {:induction false} ReaddingTotals(s: State, address: string, id: Identifier, unit: Unit)
    requires InSync(s) && CountersInSync(s) && Find(s.targets, address) < |s.targets|
    ensures var t := s.targets[Find(s.targets, address)];
      var s1 := DoRemoveTarget(s, address).state;
      && Total(DoAddTarget(s1, t).state, id, unit) == Total(s, id, unit) + CountOf(t.device.counters, id, unit)
      && Loss(s1, AddTarget(t), id, unit) == 0
  {
    RemoveTargetConserves(s, address, id, unit);
    RemoveTargetKeeps(s, address);
    RemovedIsGone(s.targets, address);
    AddTargetAccounts(DoRemoveTarget(s, address).state, s.targets[Find(s.targets, address)], id, unit);
  }

  lemma {:induction false} ReaddingIsProper(s: State, address: string)
    requires InSync(s) && Find(s.targets, address) < |s.targets|
    requires s.targets[Find(s.targets, address)].device.entries == map[]
    ensures InSync(DoRemoveTarget(s, address).state)
    ensures var ops := [RemoveTarget(address), AddTarget(s.targets[Find(s.targets, address)])];
      ProperRun(s, ops) && IssuedRun(s, ops)
  {
    var t := s.targets[Find(s.targets, address)];
    RemoveTargetKeeps(s, address);
    FillOfValidLog(s.log, t);
    EachOfTwo(s, RemoveTarget(address), AddTarget(t), Proper);
    EachOfTwo(s, RemoveTarget(address), AddTarget(t), Issued);
  }

  lemma {:induction false} RemovedIsGone(targets: seq<Target>, address: string)
    requires UniqueAddresses(targets) && Find(targets, address) < |targets|
    ensures var i := Find(targets, address);
      Find(targets[..i] + targets[i + 1..], address) == |targets| - 1
  {
    var i := Find(targets, address);
    var rest := targets[..i] + targets[i + 1..];
    assert forall j :: 0 <= j < |rest| ==> rest[j] == if j < i then targets[j] else targets[j + 1];
    assert forall j :: 0 <= j < |rest| ==> rest[j].address != address;
  }

  lemma {:induction false} RunOfTwo(s: State, a: Op, b: Op)
    ensures Run(s, [a]) == Do(s, a).state && Run(s, [a, b]) == Do(Do(s, a).state, b).state
  {
    var both, one, none: seq<Op> := [a, b], [a], [];
    assert both[..1] == one && one[..0] == none;
    assert Run(s, none) == s;
  }

  lemma {:induction false} EachOfTwo(s: State, a: Op, b: Op, p: (State, Op) -> bool)
    ensures Each(s, [a, b], p) <==> p(s, a) && p(Do(s, a).state, b)
  {
    RunOfTwo(s, a, b);
    var both, one := [a, b], [a];
    assert both[..0] == [] && both[..1] == one && Run(s, []) == s;
    assert At(s, both, 0, p) <==> p(s, a);
    assert At(s, both, 1, p) <==> p(Do(s, a).state, b);
  }

  lemma {:induction false} OverTwo(s: State, a: Op, b: Op, f: (State, Op) -> nat)
    ensures Over(s, [a, b], f) == f(s, a) + f(Do(s, a).state, b)
  {
    RunOfTwo(s, a, b);
    var both, one, none: seq<Op> := [a, b], [a], [];
    assert both[..1] == one && one[..0] == none && Run(s, none) == s;
    assert Over(s, one, f) == Over(s, none, f) + f(s, a);
  }
}
