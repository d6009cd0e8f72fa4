/** The proxy object itself: its management calls with their loops, each proved to do what the state
    machine of `Replicas` says (`ProxyP4RuntimeServicer` in `proxy.py`). */
module Servicer {
  import opened Tables
  import opened AllowLists
  import opened Entities
  import opened Replicas
  import opened Conservation
  import opened Reads
  import opened Effects

  lemma {:induction false} FillStops(counted: set<nat>, d: Switch, us: seq<Update>, vs: seq<Update>)
    requires !DeviceFill(counted, d, us).1
    ensures DeviceFill(counted, d, us + vs) == DeviceFill(counted, d, us)
  {
    if vs == [] {
      assert us + vs == us;
    } else {
      assert (us + vs)[..|us + vs| - 1] == us + vs[..|vs| - 1];
      FillStops(counted, d, us, vs[..|vs| - 1]);
    }
  }

  lemma {:induction false} OnlyNext(us: seq<Update>, i: nat, p: Key -> bool)
    requires i < |us|
    ensures Only(us[..i + 1], p) == if p(us[i].key) then Only(us[..i], p) + [us[i]] else Only(us[..i], p)
  {
    assert us[..i + 1][..i] == us[..i];
  }

  lemma {:induction false} ReplayNext(counted: set<nat>, d: Switch, us: seq<Update>, i: nat)
    requires i < |us|
    ensures DeviceReplay(counted, d, us[..i + 1]) == DeviceStep(counted, DeviceReplay(counted, d, us[..i]), us[i])
    ensures AllAccepted(d.entries, us[..i + 1]) <==>
      AllAccepted(d.entries, us[..i]) && Accepted(DeviceReplay(counted, d, us[..i]).entries, us[i])
  {
    assert us[..i + 1] == us[..i] + [us[i]];
    DeviceReplayEntries(counted, d, us[..i]);
    AllAcceptedAppend(d.entries, us[..i], us[i]);
  }

  /** The switch's side of one Write request. */
  method SendUpdates(counted: set<nat>, d: Switch, us: seq<Update>) returns (after: Switch, ok: bool)
    ensures after == DeviceReplay(counted, d, us)
    ensures ok <==> AllAccepted(d.entries, us)
  {
    after, ok := d, true;
    for i := 0 to |us|
      invariant after == DeviceReplay(counted, d, us[..i])
      invariant ok <==> AllAccepted(d.entries, us[..i])
    {
      ReplayNext(counted, d, us, i);
      ok := ok && Accepted(after.entries, us[i]);
      after := DeviceStep(counted, after, us[i]);
    }
    assert us[..|us|] == us;
  }

  method ExtendValues(known: seq<Value>, vs: seq<Value>) returns (values: seq<Value>, news: seq<Value>)
    ensures news == Fresh(known, vs) && values == known + news
    ensures forall v :: v in values <==> v in known || v in vs
  {
    values, news := known, [];
    for i := 0 to |vs|
      invariant values == known + news
      invariant news == Fresh(known, vs[..i])
    {
      assert vs[..i + 1][..i] == vs[..i];
      if vs[i] !in values {
        values, news := values + [vs[i]], news + [vs[i]];
      }
    }
    assert vs[..|vs|] == vs;
  }

  /** Lengthens the lists in place and collects what was new. */
  method ExtendLists(lists: AllowList, adds: AllowList) returns (actual: AllowList, added: AllowList)
    ensures actual == Extended(lists, adds) && added == Added(lists, adds)
    ensures forall k :: Allows(AllowOnly(actual), k) <==> AdmittedByEither(lists, adds, k)
    ensures forall k :: Allows(AllowOnly(added), k) <==> CarriesOnlyNew(lists, adds, k)
  {
    ListsExtended(lists, adds);
    actual, added := lists, map[];
    var todo := adds.Keys;
    while todo != {}
      invariant todo <= adds.Keys
      invariant ExtendedExcept(lists, Extended(lists, adds), adds.Keys, todo, actual)
      invariant AddedExcept(Added(lists, adds), todo, added)
    {
      var p :| p in todo;
      var values, unlisted := adds[p], adds[p];
      if p in lists {
        values, unlisted := ExtendValues(lists[p], adds[p]);
      }
      ExtendedNext(lists, Extended(lists, adds), adds.Keys, todo, actual, p, values);
      AddedNext(Added(lists, adds), todo, added, p, unlisted);
      actual, added := actual[p := values], added[p := unlisted];
      todo := todo - {p};
    }
  }

  lemma {:induction false} ListsExtended(lists: AllowList, adds: AllowList)
    ensures forall k :: Allows(AllowOnly(Extended(lists, adds)), k) <==> AdmittedByEither(lists, adds, k)
    ensures forall k :: Allows(AllowOnly(Added(lists, adds)), k) <==> CarriesOnlyNew(lists, adds, k)
  {
    forall k
      ensures Allows(AllowOnly(Extended(lists, adds)), k) <==> AdmittedByEither(lists, adds, k)
      ensures Allows(AllowOnly(Added(lists, adds)), k) <==> CarriesOnlyNew(lists, adds, k)
    {
      ExtendedAdmitsExactly(lists, adds, k);
      AddedSelectsExactly(lists, adds, k);
    }
  }

  /** All parameters but those in `todo` have their longer list. */
  predicate ExtendedExcept(
    lists: AllowList, longer: AllowList, params: set<string>, todo: set<string>, actual: AllowList)
  {
    && longer.Keys == lists.Keys + params && actual.Keys == lists.Keys + (params - todo)
    && forall p :: p in actual ==> actual[p] == if p in todo then lists[p] else longer[p]
  }

  lemma {:induction false} ExtendedNext(
    lists: AllowList, longer: AllowList, params: set<string>, todo: set<string>, actual: AllowList, p: string,
    values: seq<Value>)
    requires ExtendedExcept(lists, longer, params, todo, actual) && p in todo && p in params && longer[p] == values
    ensures ExtendedExcept(lists, longer, params, todo - {p}, actual[p := values])
  {
  }

  predicate AddedExcept(news: AllowList, todo: set<string>, added: AllowList) {
    added.Keys == news.Keys - todo && forall p :: p in added ==> added[p] == news[p]
  }

  lemma {:induction false} AddedNext(
    news: AllowList, todo: set<string>, added: AllowList, p: string, values: seq<Value>)
    requires AddedExcept(news, todo, added) && p in todo && p in news && news[p] == values
    ensures AddedExcept(news, todo - {p}, added[p := values])
  {
  }

  method ShortenValues(listed: seq<Value>, vs: seq<Value>) returns (values: seq<Value>)
    ensures values == Without(listed, vs)
  {
    values := listed;
    for i := 0 to |vs|
      invariant values == Without(listed, vs[..i])
    {
      assert vs[..i + 1][..i] == vs[..i];
      if vs[i] in values {
        values := RemoveFirst(values, vs[i]);
      } else {
        RemoveAbsent(values, vs[i]);
      }
    }
    assert vs[..|vs|] == vs;
  }

  /** Every list has lost one occurrence of a value for every occurrence among the removals. */
  ghost predicate AreShortened(lists: AllowList, removals: AllowList, actual: AllowList) {
    && actual.Keys == lists.Keys
    && forall p :: p in lists ==>
      multiset(actual[p]) == if p in removals then multiset(lists[p]) - multiset(removals[p]) else multiset(lists[p])
  }

  lemma {:induction false} ListsShortened(lists: AllowList, removals: AllowList)
    ensures AreShortened(lists, removals, Shortened(lists, removals))
  {
    forall p | p in lists && p in removals
      ensures multiset(Without(lists[p], removals[p])) == multiset(lists[p]) - multiset(removals[p])
    {
      WithoutRemoves(lists[p], removals[p]);
    }
  }

  method ShortenLists(lists: AllowList, removals: AllowList) returns (actual: AllowList)
    ensures actual == Shortened(lists, removals) && AreShortened(lists, removals, actual)
  {
    actual := lists;
    var todo := removals.Keys;
    while todo != {}
      invariant todo <= removals.Keys && ShortenedExcept(lists, Shortened(lists, removals), todo, actual)
    {
      var p :| p in todo;
      ShortenedNext(lists, removals, todo, actual, p);
      if p in actual {
        var values := ShortenValues(lists[p], removals[p]);
        actual := actual[p := values];
      }
      todo := todo - {p};
    }
    ListsShortened(lists, removals);
  }

  method ShortenFilter(f: Filter, removals: AllowList) returns (after: Filter)
    ensures after == ShorterFilter(f, removals)
  {
    after := f;
    if f.AllowOnly? {
      var actual := ShortenLists(f.lists, removals);
      after := AllowOnly(actual);
    }
  }

  lemma {:induction false} ShortenedNext(
    lists: AllowList, removals: AllowList, todo: set<string>, actual: AllowList, p: string)
    requires ShortenedExcept(lists, Shortened(lists, removals), todo, actual) && p in todo && p in removals
    ensures p in actual <==> p in lists
    ensures p in actual ==> ShortenedExcept(
      lists, Shortened(lists, removals), todo - {p}, actual[p := Without(lists[p], removals[p])])
    ensures p !in actual ==> ShortenedExcept(lists, Shortened(lists, removals), todo - {p}, actual)
  {
  }

  /** All parameters but those in `todo` have their shorter list. */
  predicate ShortenedExcept(lists: AllowList, shorter: AllowList, todo: set<string>, actual: AllowList) {
    && actual.Keys == lists.Keys == shorter.Keys
    && forall p :: p in actual ==> actual[p] == if p in todo then lists[p] else shorter[p]
  }

  lemma {:induction false} RemoveAbsent(s: seq<Value>, v: Value)
    requires v !in s
    ensures RemoveFirst(s, v) == s
  {
    if s != [] {
      RemoveAbsent(s[1..], v);
      assert s == [s[0]] + s[1..];
    }
  }

  /** What a restart promises. */
  lemma {:induction false} RestartConclusions(s: State)
    ensures s.p4infoStored && UniqueAddresses(s.targets) ==>
      (DoFill(s).ok && InStep(s.log, DoFill(s).state.targets) <==> WorkUpTo(s.log, s.targets, |s.targets|))
    ensures s.p4infoStored && LogIsValid(s) && UniqueAddresses(s.targets) ==>
      (DoFill(s).ok && InStep(s.log, DoFill(s).state.targets) <==> AllEmpty(s.targets))
  {
    if s.p4infoStored && UniqueAddresses(s.targets) {
      RestartExactly(s);
      if LogIsValid(s) {
        RestartOnValidLog(s);
      }
    }
  }

  lemma {:induction false} FillingStops(s: State, n: nat, m: nat)
    requires n <= m <= |s.targets| && !FilledTargets(s, n).1
    ensures FilledTargets(s, m) == FilledTargets(s, n)
  {
    if n < m {
      FillingStops(s, n, m - 1);
    }
  }

  /** What a Write promises about the replicas. */
  lemma {:induction false} WriteConclusions(s: State, us: seq<Update>)
    ensures Replicated(s) && HandledPrefix(us) == |us| ==> Replicated(DoWrite(s, us).state)
    ensures Replicated(s) ==> (DoWrite(s, us).ok && Replicated(DoWrite(s, us).state) <==> Proper(s, Op.Write(us)))
    ensures InSync(s) && AllValid(Virtual(s), us) ==> DoWrite(s, us).ok && InSync(DoWrite(s, us).state)
  {
    if Replicated(s) {
      WriteKeeps(s, us);
      LoggedWrite(s, us);
      if AllValid(Virtual(s), us) {
        ValidWriteIsProper(s, us);
      }
    }
  }

  /** A registered target is found where it was put, and can be replaced there. */
  lemma {:induction false} RegisteredAt(targets: seq<Target>, t: Target)
    ensures var r, i := Registered(targets, t), Find(Registered(targets, t), t.address);
      i < |r| && r[i] == t && forall t1: Target :: t1.address == t.address ==> r[i := t1] == Registered(targets, t1)
  {
    FindRegistered(targets, t);
  }

  class ProxyServicer {
    const mode: RedisMode
    const countedTables: set<nat>
    var p4infoStored: bool
    var log: seq<Update>
    var targets: seq<Target>
    var bank: seq<Entity>

    /** Takes what is stored as it is and registers the configured targets, without sending them anything. */
    constructor (
      mode: RedisMode, countedTables: set<nat>, p4infoStored: bool, log: seq<Update>, bank: seq<Entity>,
      configured: seq<Target>)
      ensures Now() == State(mode, p4infoStored, countedTables, log, RegisterAll(configured), bank)
      ensures UniqueAddresses(targets)
    {
      this.mode, this.countedTables, this.p4infoStored, this.log, this.bank :=
        mode, countedTables, p4infoStored, log, bank;
      targets := [];
      new;
      for i := 0 to |configured|
        invariant targets == RegisterAll(configured[..i])
        invariant this.p4infoStored == p4infoStored && this.log == log && this.bank == bank
      {
        assert configured[..i + 1][..i] == configured[..i];
        targets := Registered(targets, configured[i]);
      }
      assert configured[..|configured|] == configured;
      RegisterAllAddresses(configured);
    }

    ghost function Now(): State
      reads this
    {
      State(mode, p4infoStored, countedTables, log, targets, bank)
    }

    /** Appends the update to the list of every target that allows it. */
    method Distribute(distributed: seq<seq<Update>>, updates: seq<Update>, i: nat) returns (next: seq<seq<Update>>)
      requires i < |updates| && |distributed| == |targets|
      requires forall t :: 0 <= t < |targets| ==> distributed[t] == Only(updates[..i], AllowedBy(targets[t].filter))
      ensures |next| == |targets|
      ensures forall t :: 0 <= t < |targets| ==> next[t] == Only(updates[..i + 1], AllowedBy(targets[t].filter))
    {
      next := distributed;
      for t := 0 to |targets|
        invariant |next| == |targets|
        invariant forall s :: t <= s < |targets| ==> next[s] == distributed[s]
        invariant forall s :: 0 <= s < t ==> next[s] == Only(updates[..i + 1], AllowedBy(targets[s].filter))
      {
        OnlyNext(updates, i, AllowedBy(targets[t].filter));
        if Allows(targets[t].filter, updates[i].key) {
          next := next[t := next[t] + [updates[i]]];
        }
      }
    }

    /** Sends every target its list as one request. */
    method SendAll(distributed: seq<seq<Update>>, ghost updates: seq<Update>) returns (ok: bool)
      requires |distributed| == |targets|
      requires forall t :: 0 <= t < |targets| ==> distributed[t] == Only(updates, AllowedBy(targets[t].filter))
      modifies this`targets
      ensures |targets| == |old(targets)|
      ensures forall t :: 0 <= t < |targets| ==> targets[t] == WriteTo(countedTables, old(targets)[t], updates)
      ensures ok <==> forall t :: 0 <= t < |targets| ==>
        AllAccepted(old(targets)[t].device.entries, Only(updates, AllowedBy(old(targets)[t].filter)))
    {
      ok := true;
      for t := 0 to |targets|
        invariant |targets| == |old(targets)|
        invariant forall s :: t <= s < |targets| ==> targets[s] == old(targets)[s]
        invariant forall s :: 0 <= s < t ==> targets[s] == WriteTo(countedTables, old(targets)[s], updates)
        invariant ok <==> forall s :: 0 <= s < t ==>
          AllAccepted(old(targets)[s].device.entries, Only(updates, AllowedBy(old(targets)[s].filter)))
      {
        var device, accepted := SendUpdates(countedTables, targets[t].device, distributed[t]);
        targets := targets[t := targets[t].(device := device)];
        ok := ok && accepted;
      }
    }

    /** Logs every update, distributes it over the targets that allow it, then sends each target its part
        in one request. */
    method Write(updates: seq<Update>) returns (ok: bool)
      modifies this`log, this`targets
      ensures Now() == DoWrite(old(Now()), updates).state
      ensures ok <==> DoWrite(old(Now()), updates).ok
      ensures WriteEffect(old(Now()), updates, Now(), ok)
      ensures old(Replicated(Now())) && HandledPrefix(updates) == |updates| ==> Replicated(Now())
      ensures old(Replicated(Now())) ==> (ok && Replicated(Now()) <==> Proper(old(Now()), Op.Write(updates)))
      ensures old(InSync(Now())) && AllValid(Virtual(old(Now())), updates) ==> ok && InSync(Now())
    {
      WriteConclusions(Now(), updates);
      WriteHasEffect(Now(), updates);
      ok := LogAndSend(updates);
    }

    method LogAndSend(updates: seq<Update>) returns (ok: bool)
      modifies this`log, this`targets
      ensures Now() == DoWrite(old(Now()), updates).state && ok == DoWrite(old(Now()), updates).ok
    {
      var known, distributed := LogAndDistribute(updates);
      if !known {
        return false;
      }
      assert updates[..|updates|] == updates;
      ok := SendAll(distributed, updates);
      assert targets == DoWrite(old(Now()), updates).state.targets;
    }

    /** Logs the updates one by one and collects for every target those that it allows, up to the first update
        of an unknown kind. */
    method LogAndDistribute(updates: seq<Update>) returns (known: bool, distributed: seq<seq<Update>>)
      modifies this`log
      ensures known <==> HandledPrefix(updates) == |updates|
      ensures log == if mode.IsWriting() then old(log) + updates[..HandledPrefix(updates)] else old(log)
      ensures known ==> |distributed| == |targets|
      ensures known ==>
        forall t :: 0 <= t < |targets| ==> distributed[t] == Only(updates, AllowedBy(targets[t].filter))
    {
      distributed := seq(|targets|, _ => []);
      for i := 0 to |updates|
        invariant i <= HandledPrefix(updates)
        invariant log == if mode.IsWriting() then old(log) + updates[..i] else old(log)
        invariant |distributed| == |targets|
        invariant forall t :: 0 <= t < |targets| ==> distributed[t] == Only(updates[..i], AllowedBy(targets[t].filter))
      {
        HandledNext(updates, i);
        if updates[i].kind.Unspecified? {
          return false, distributed;
        }
        if mode.IsWriting() {
          log := log + [updates[i]];
        }
        distributed := Distribute(distributed, updates, i);
      }
      assert updates[..|updates|] == updates;
      known := true;
    }

    /** Replays the logged updates that pass both the selection and the target's own filter, one request
        each, up to the first error. */
    method FillOneTarget(t: nat, used: Filter) returns (ok: bool)
      requires t < |targets|
      modifies this`targets
      ensures var (d, done) :=
        DeviceFill(countedTables, old(targets[t].device), FillUpdates(old(Now()), used, old(targets[t].filter)));
        targets == old(targets)[t := old(targets[t]).(device := d)] && ok == done
    {
      if !p4infoStored {
        return true;
      }
      ghost var f := targets[t].filter;
      ghost var p := Both(used, f);
      ghost var d0 := targets[t].device;
      for i := 0 to |log|
        invariant log == old(log) && p4infoStored
        invariant |targets| == |old(targets)| &&
          targets == old(targets)[t := old(targets[t]).(device := targets[t].device)]
        invariant DeviceFill(countedTables, d0, Only(log[..i], p)) == (targets[t].device, true)
      {
        var update := log[i];
        OnlyNext(log, i, p);
        if !Allows(used, update.key) || !Allows(targets[t].filter, update.key) {
          continue;
        }
        if !Accepted(targets[t].device.entries, update) {
          FillEndsHere(countedTables, d0, log, i, p);
          return false;
        }
        targets := targets[t := targets[t].(device := DeviceStep(countedTables, targets[t].device, update))];
      }
      assert log[..|log|] == log;
      return true;
    }

    /** Brings the targets of a restarted proxy in step with the log, up to the first error. */
    method FillFromRedis() returns (ok: bool)
      modifies this`targets
      ensures Now() == DoFill(old(Now())).state && ok == DoFill(old(Now())).ok
      ensures FillAllEffect(old(Now()), Now(), ok)
      ensures old(p4infoStored && UniqueAddresses(targets)) ==>
        (ok && InStep(log, targets) <==> WorkUpTo(log, old(targets), |old(targets)|))
      ensures old(p4infoStored && LogIsValid(Now()) && UniqueAddresses(targets)) ==>
        (ok && InStep(log, targets) <==> AllEmpty(old(targets)))
    {
      RestartConclusions(Now());
      FillAllHasEffect(Now());
      ok := FillTargets();
    }

    method FillTargets() returns (ok: bool)
      modifies this`targets
      ensures targets == DoFill(old(Now())).state.targets && ok == DoFill(old(Now())).ok
    {
      ok := true;
      ghost var s := Now();
      for t := 0 to |targets|
        invariant |targets| == |s.targets| && ok
        invariant (targets, true) == FilledTargets(s, t)
      {
        ok := FillOneTarget(t, targets[t].filter);
        if !ok {
          FillingStops(s, t + 1, |s.targets|);
          return;
        }
      }
    }

    /** Start of the server around the proxy: a proxy that reads the store fills its targets. */
    method Start() returns (ok: bool)
      modifies this`targets
      ensures mode.ReadWrite? || mode.OnlyRead? ==> FillAllEffect(old(Now()), Now(), ok)
      ensures mode.OnlyWrite? || mode.Off? ==> ok && Now() == old(Now())
    {
      ok := true;
      if mode.IsReading() {
        ok := FillFromRedis();
      }
    }

    method AddTargetSwitch(target: Target) returns (ok: bool)
      modifies this`targets
      ensures Now() == DoAddTarget(old(Now()), target).state && ok == DoAddTarget(old(Now()), target).ok
      ensures AddTargetEffect(old(Now()), target, Now(), ok)
      ensures old(Replicated(Now())) ==> (ok && Replicated(Now()) <==> Proper(old(Now()), AddTarget(target)))
      ensures old(InSync(Now())) ==> (ok && InSync(Now()) <==> target.device.entries == map[])
    {
      if Replicated(Now()) {
        AddTargetExactly(Now(), target);
        if InSync(Now()) {
          FillOfValidLog(log, target);
        }
      }
      AddTargetHasEffect(Now(), target);
      RegisteredAt(targets, target);
      targets := Registered(targets, target);
      ok := true;
      if mode.IsWriting() {
        ok := FillOneTarget(Find(targets, target.address), target.filter);
      }
    }

    method RemoveTargetSwitch(address: string) returns (ok: bool)
      modifies this`targets, this`bank
      ensures Now() == DoRemoveTarget(old(Now()), address).state && ok == DoRemoveTarget(old(Now()), address).ok
      ensures RemoveTargetEffect(old(Now()), address, Now(), ok)
      ensures old(Replicated(Now())) ==> (ok && Replicated(Now()) <==> Proper(old(Now()), RemoveTarget(address)))
    {
      if Replicated(Now()) {
        RemoveTargetKeeps(Now(), address);
      }
      RemoveTargetHasEffect(Now(), address);
      var i := Find(targets, address);
      if i == |targets| {
        return false;
      }
      var counters := targets[i].device.counters;
      targets := targets[..i] + targets[i + 1..];
      if mode.IsWriting() {
        SaveRemovedCounters(counters);
      }
      assert old(bank) + [] == old(bank);
      return true;
    }

    method SaveRemovedCounters(counters: seq<Entity>)
      modifies this`bank
      ensures bank == old(bank) + NonEmpty(counters)
    {
      for n := 0 to |counters|
        invariant bank == old(bank) + NonEmpty(counters[..n])
      {
        assert counters[..n + 1][..n] == counters[..n];
        if IsCounter(counters[n]) && counters[n].data != ZERO {
          bank := bank + [counters[n]];
        }
      }
      assert counters[..|counters|] == counters;
    }

    method AddFilterParams(address: string, adds: AllowList) returns (ok: bool)
      modifies this`targets
      ensures Now() == DoAddFilter(old(Now()), address, adds).state && ok == DoAddFilter(old(Now()), address, adds).ok
      ensures AddFilterEffect(old(Now()), address, adds, Now(), ok)
      ensures old(Replicated(Now())) ==> (ok && Replicated(Now()) <==> Proper(old(Now()), AddFilter(address, adds)))
    {
      if Replicated(Now()) {
        AddFilterExactly(Now(), address, adds);
      }
      AddFilterHasEffect(Now(), address, adds);
      var i := Find(targets, address);
      if i == |targets| {
        return false;
      }
      var actual, added := ExtendLists(Lists(targets[i].filter), adds);
      targets := targets[i := targets[i].(filter := AllowOnly(actual))];
      ok := FillOneTarget(i, AllowOnly(added));
    }

    method RemoveFilterParams(address: string, removals: AllowList) returns (ok: bool)
      modifies this`targets, this`bank
      ensures Now() == DoRemoveFilter(old(Now()), address, removals).state
      ensures ok == DoRemoveFilter(old(Now()), address, removals).ok
      ensures RemoveFilterEffect(old(Now()), address, removals, Now(), ok)
      ensures old(Replicated(Now())) ==>
        Replicated(Now()) && (ok <==> Proper(old(Now()), RemoveFilter(address, removals)))
    {
      if Replicated(Now()) {
        RemoveFilterExactly(Now(), address, removals);
      }
      RemoveFilterHasEffect(Now(), address, removals);
      ok := ShortenAndPurge(address, removals);
    }

    method ShortenAndPurge(address: string, removals: AllowList) returns (ok: bool)
      modifies this`targets, this`bank
      ensures Now() == DoRemoveFilter(old(Now()), address, removals).state
      ensures ok == DoRemoveFilter(old(Now()), address, removals).ok
    {
      var t := Find(targets, address);
      if t == |targets| {
        return false;
      }
      var before := targets[t].filter;
      if before.NoFilter? && removals != map[] {
        return false;
      }
      var after := ShortenFilter(before, removals);
      targets := targets[t := targets[t].(filter := after)];
      PurgeTarget(t, before);
      return true;
    }

    method PurgeOne(t: nat, update: Update)
      requires t < |targets|
      modifies this`targets, this`bank
      ensures var d := DeviceStep(countedTables, old(targets[t].device), update.(kind := Delete));
        targets == old(targets)[t := old(targets[t]).(device := d)]
      ensures bank ==
        if mode.IsWriting() then old(bank) + Departing(old(targets[t].device.counters), update.key) else old(bank)
    {
      if mode.IsWriting() {
        var entities := MatchingCounters(targets[t].device.counters, update.key);
        bank := bank + entities;
      }
      var device := DeviceStep(countedTables, targets[t].device, update.(kind := Delete));
      targets := targets[t := targets[t].(device := device)];
    }

    /** For every logged update whose entry was allowed and no longer is: bank its direct counters, then
        delete it. */
    method PurgeTarget(t: nat, before: Filter)
      requires t < |targets|
      modifies this`targets, this`bank
      ensures var us := PurgeUpdates(old(Now()), before, old(targets[t].filter));
        var (d, b) := Purge(countedTables, mode.IsWriting(), old(targets[t].device), old(bank), us);
        targets == old(targets)[t := old(targets[t]).(device := d)] && bank == b
    {
      if !p4infoStored {
        return;
      }
      ghost var after := targets[t].filter;
      ghost var d0 := targets[t].device;
      ghost var p := Leaving(before, after);
      for i := 0 to |log|
        invariant log == old(log) && p4infoStored
        invariant |targets| == |old(targets)| &&
          targets == old(targets)[t := old(targets[t]).(device := targets[t].device)]
        invariant Purge(countedTables, mode.IsWriting(), d0, old(bank), Only(log[..i], p)) == (targets[t].device, bank)
      {
        PurgeNext(countedTables, mode.IsWriting(), d0, old(bank), log, i, p);
        if Allows(before, log[i].key) && !Allows(targets[t].filter, log[i].key) {
          PurgeOne(t, log[i]);
        }
      }
      assert log[..|log|] == log;
    }

    method MatchingCounters(counters: seq<Entity>, k: Key) returns (found: seq<Entity>)
      ensures found == Departing(counters, k)
      ensures ExactlyThose(found, counters, (e: Entity) =>
        e.DirectCounterEntry? && Counts(e) && e.key.table == k.table &&
        (e.key.fields <= k.fields || k.fields <= e.key.fields))
    {
      SelectionIsExact(counters, Matching(k));
      found := [];
      for n := 0 to |counters|
        invariant found == Departing(counters[..n], k)
      {
        assert counters[..n + 1][..n] == counters[..n];
        var e := counters[n];
        if e.DirectCounterEntry? {
          SameExactly(k, e.key);
        }
        if e.DirectCounterEntry? && e.data != ZERO && SameTableAndMatch(k, e.key) {
          found := found + [e];
        }
      }
      assert counters[..|counters|] == counters;
    }

    method CollectCounters(counters: seq<Entity>, q: Query) returns (answers: seq<Entity>)
      ensures answers == Select(counters, Answering(q))
    {
      answers := [];
      for n := 0 to |counters|
        invariant answers == Select(counters[..n], Answering(q))
      {
        assert counters[..n + 1][..n] == counters[..n];
        if Answers(q, counters[n]) {
          answers := answers + [counters[n]];
        }
      }
      assert counters[..|counters|] == counters;
    }

    /** A switch lists the entries it is asked for in an order of its own. */
    method CollectEntries(entries: Table, q: Query) returns (answers: seq<Entity>)
      ensures forall e :: e in answers <==> AnsweredOnce(entries, q, e)
    {
      answers := [];
      var todo := entries.Keys;
      while todo != {}
        invariant todo <= entries.Keys
        invariant forall e :: e in answers <==> AnsweredOnce(entries, q, e) && e.key !in todo
      {
        var k :| k in todo;
        if Wants(q, k) {
          answers := answers + [TableEntry(k, entries[k])];
        }
        todo := todo - {k};
      }
    }

    /** The answers of one target to a request. */
    method CollectAnswers(t: Target, qs: seq<Query>) returns (answers: seq<Entity>)
      requires Consistent(t.device)
      ensures Collected([t], qs, answers)
    {
      answers := [];
      NothingCollected([t], []);
      for n := 0 to |qs|
        invariant Collected([t], qs[..n], answers)
      {
        var more: seq<Entity>;
        if AsksForEntries(qs[n]) {
          more := CollectEntries(t.device.entries, qs[n]);
          EntriesAnswered(t, qs[n], more);
        } else {
          more := CollectCounters(t.device.counters, qs[n]);
          CountersAnswered(t, qs[n]);
        }
        OneMoreQuery([t], qs[..n], qs[n], answers, more);
        assert qs[..n + 1] == qs[..n] + [qs[n]];
        answers := answers + more;
      }
      assert qs[..|qs|] == qs;
    }

    method JoinBank(live: seq<Entity>) returns (received: seq<Entity>)
      requires Supported(live) && Countable(bank)
      ensures received == Joined(live, bank)
    {
      received := live;
      for n := 0 to |bank|
        invariant received == Joined(live, bank[..n])
      {
        assert bank[..n + 1][..n] == bank[..n];
        assert bank[n] in bank;
        if Mergeable(bank[n], received) {
          received := received + [bank[n]];
        }
      }
      assert bank[..|bank|] == bank;
    }

    method CollectAll(qs: seq<Query>) returns (received: seq<Entity>)
      requires CountersInSync(Now())
      ensures Collected(targets, qs, received)
    {
      received := [];
      NothingCollected([], qs);
      for t := 0 to |targets|
        invariant Collected(targets[..t], qs, received)
      {
        var answers := CollectAnswers(targets[t], qs);
        MoreTargets(targets[..t], [targets[t]], qs, received, answers);
        assert targets[..t + 1] == targets[..t] + [targets[t]];
        received := received + answers;
      }
      assert targets[..|targets|] == targets;
    }

    /** Collects the answers of all targets to all entities of the request, appends what the bank adds to
        them, and merges.  The answer depends only on what was collected; when the replicas are in step it
        is an error exactly if two of the table entries asked for lie in one table. */
    method Read(qs: seq<Query>) returns (r: MergeResult)
      requires CountersInSync(Now())
      ensures exists xs :: Collected(targets, qs, xs) && r == AnswerFor(Now(), xs)
      ensures !r.Unhandled? && (r.Differs? <==> Clash(targets, qs))
      ensures r.Merged? ==> forall e: Entity | e.TableEntry? :: e in r.entities <==> AnsweredBySome(targets, qs, e)
      ensures r.Merged? ==> forall id: Identifier | !id.NumberId? :: ShowsCounter(Now(), qs, r.entities, id)
      ensures InStep(log, targets) ==> (r.Differs? <==> TwoInOneTable(Now(), qs))
      ensures InStep(log, targets) && r.Merged? ==>
        forall e: Entity | e.TableEntry? :: e in r.entities <==> IsShown(Now(), qs, e)
    {
      var received := CollectAll(qs);
      ghost var xs := received;
      AnswersAreSupported(received);
      if mode.IsReading() {
        received := JoinBank(received);
      }
      r := MergeDuplicates(received);
      assert Collected(targets, qs, xs) && r == AnswerFor(Now(), xs);
      ReadConclusions(Now(), qs, xs);
    }
  }

  /** What a Read promises. */
  lemma {:induction false} ReadConclusions(s: State, qs: seq<Query>, xs: seq<Entity>)
    requires Countable(s.bank) && Collected(s.targets, qs, xs)
    ensures var r := AnswerFor(s, xs);
      && !r.Unhandled? && (r.Differs? <==> Clash(s.targets, qs))
      && (r.Merged? ==> forall e: Entity | e.TableEntry? :: e in r.entities <==> AnsweredBySome(s.targets, qs, e))
    ensures AnswerFor(s, xs).Merged? ==>
      forall id: Identifier | !id.NumberId? :: ShowsCounter(s, qs, AnswerFor(s, xs).entities, id)
    ensures InStep(s.log, s.targets) ==> (Clash(s.targets, qs) <==> TwoInOneTable(s, qs))
    ensures InStep(s.log, s.targets) ==>
      forall e: Entity | e.TableEntry? :: AnsweredBySome(s.targets, qs, e) <==> IsShown(s, qs, e)
  {
    ReadFailsExactly(s, qs, xs);
    if AnswerFor(s, xs).Merged? {
      forall e: Entity | e.TableEntry?
        ensures e in AnswerFor(s, xs).entities <==> AnsweredBySome(s.targets, qs, e)
      {
        ReadAnswersEntries(s, qs, xs, e);
      }
      forall id: Identifier | !id.NumberId?
        ensures ShowsCounter(s, qs, AnswerFor(s, xs).entities, id)
      {
        ReadAnswersCounters(s, qs, xs, id);
      }
    }
    if InStep(s.log, s.targets) {
      ClashExactly(s, qs);
      forall e: Entity | e.TableEntry?
        ensures AnsweredBySome(s.targets, qs, e) <==> IsShown(s, qs, e)
      {
        AnsweredExactly(s, qs, e);
      }
    }
  }

  lemma {:induction false} PurgeNext(
    counted: set<nat>, writing: bool, d: Switch, bank: seq<Entity>, log: seq<Update>, i: nat, p: Key -> bool)
    requires i < |log|
    ensures var (d1, b1) := Purge(counted, writing, d, bank, Only(log[..i], p));
      Purge(counted, writing, d, bank, Only(log[..i + 1], p)) ==
        if !p(log[i].key) then (d1, b1)
        else (
          DeviceStep(counted, d1, log[i].(kind := Delete)),
          if writing then b1 + Departing(d1.counters, log[i].key) else b1)
  {
    OnlyNext(log, i, p);
    var us := Only(log[..i], p);
    assert (us + [log[i]])[..|us|] == us;
  }

  lemma {:induction false} HandledNext(us: seq<Update>, i: nat)
    requires i < |us| && i <= HandledPrefix(us)
    ensures us[i].kind.Unspecified? <==> i == HandledPrefix(us)
  {
  }

  lemma {:induction false} FillEndsHere(counted: set<nat>, d: Switch, log: seq<Update>, i: nat, p: Key -> bool)
    requires i < |log| && p(log[i].key)
    requires DeviceFill(counted, d, Only(log[..i], p)).1
    requires !Accepted(DeviceFill(counted, d, Only(log[..i], p)).0.entries, log[i])
    ensures DeviceFill(counted, d, Only(log, p)) == (DeviceFill(counted, d, Only(log[..i], p)).0, false)
  {
    OnlyNext(log, i, p);
    var part := Only(log[..i], p);
    assert (part + [log[i]])[..|part|] == part;
    assert log == log[..i + 1] + log[i + 1..];
    OnlyAppend(log[..i + 1], log[i + 1..], p);
    FillStops(counted, d, part + [log[i]], Only(log[i + 1..], p));
  }
}
