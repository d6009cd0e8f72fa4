/** What every management call does, in any mode and from any state, said without the state machine: on the
    lists, on the log, on the entries key by key, and on the bank (`proxy.py`). */
module Effects {
  import opened Tables
  import opened AllowLists
  import opened Entities
  import opened Replicas

  /** Everything but the log, the targets and the bank. */
  predicate SameRest(s: State, s': State) {
    s'.mode == s.mode && s'.p4infoStored == s.p4infoStored && s'.countedTables == s.countedTables
  }

  /** Only the target at `i` differs, and it keeps its address. */
  predicate OnlyAt(before: seq<Target>, after: seq<Target>, i: nat) {
    && |after| == |before| && i < |before| && after[i].address == before[i].address
    && forall j :: 0 <= j < |before| && j != i ==> after[j] == before[j]
  }

  /** The first target with the address. */
  predicate FirstAt(targets: seq<Target>, address: string, i: nat) {
    i < |targets| && targets[i].address == address && forall j :: 0 <= j < i ==> targets[j].address != address
  }

  predicate NoneAt(targets: seq<Target>, address: string) {
    forall j :: 0 <= j < |targets| ==> targets[j].address != address
  }

  lemma {:induction false} FoundAt(targets: seq<Target>, address: string)
    ensures Find(targets, address) < |targets| <==> !NoneAt(targets, address)
    ensures Find(targets, address) < |targets| ==> FirstAt(targets, address, Find(targets, address))
  {
    var i := Find(targets, address);
    if i == |targets| {
      assert NoneAt(targets, address);
    } else {
      assert targets[i].address == address;
    }
  }

  // ----- Write -----

  predicate AllKnown(us: seq<Update>) {
    forall i :: 0 <= i < |us| ==> !us[i].kind.Unspecified?
  }

  /** Outside of what `p` selects the table is as before; there it is as the updates leave it. */
  ghost predicate UpdatedWhere(before: Table, after: Table, us: seq<Update>, p: Key -> bool) {
    forall k :: Same(after, if p(k) then Replay(before, us) else before, k)
  }

  /** A target after a Write: the updates of entries that its lists admit have been applied. */
  ghost predicate Wrote(t: Target, t': Target, us: seq<Update>) {
    && t'.address == t.address && t'.filter == t.filter
    && UpdatedWhere(t.device.entries, t'.device.entries, us, AllowedBy(t.filter))
  }

  /** A Write reaches every target in every mode; only the logging depends on it.  An unknown update kind stops
      the call when the updates before it have been logged and nothing has been sent. */
  ghost predicate WriteEffect(s: State, us: seq<Update>, s': State, ok: bool) {
    && SameRest(s, s') && s'.bank == s.bank
    && if AllKnown(us) then
      && s'.log == (if s.mode.ReadWrite? || s.mode.OnlyWrite? then s.log + us else s.log)
      && |s'.targets| == |s.targets|
      && (forall i :: 0 <= i < |s.targets| ==> Wrote(s.targets[i], s'.targets[i], us))
      && (ok <==> forall i :: 0 <= i < |s.targets| ==>
        AcceptedWhere(s.targets[i].device.entries, us, AllowedBy(s.targets[i].filter)))
    else
      && !ok && s'.targets == s.targets
      && exists n: nat ::
        && StopsAt(us, n)
        && s'.log == if s.mode.ReadWrite? || s.mode.OnlyWrite? then s.log + us[..n] else s.log
  }

  predicate StopsAt(us: seq<Update>, n: nat) {
    n < |us| && us[n].kind.Unspecified? && AllKnown(us[..n])
  }

  lemma {:induction false} WriteHasEffect(s: State, us: seq<Update>)
    ensures WriteEffect(s, us, DoWrite(s, us).state, DoWrite(s, us).ok)
  {
    var n, s' := HandledPrefix(us), DoWrite(s, us).state;
    if n < |us| {
      assert StopsAt(us, n);
      assert !AllKnown(us);
    } else {
      assert us[..n] == us;
      forall i | 0 <= i < |s.targets|
        ensures Wrote(s.targets[i], s'.targets[i], us)
        ensures AllAccepted(s.targets[i].device.entries, Only(us, AllowedBy(s.targets[i].filter))) <==>
          AcceptedWhere(s.targets[i].device.entries, us, AllowedBy(s.targets[i].filter))
      {
        TargetIsWritten(s.countedTables, s.targets[i], us);
      }
    }
  }

  lemma {:induction false} TargetIsWritten(counted: set<nat>, t: Target, us: seq<Update>)
    ensures Wrote(t, WriteTo(counted, t, us), us)
    ensures AllAccepted(t.device.entries, Only(us, AllowedBy(t.filter))) <==>
      AcceptedWhere(t.device.entries, us, AllowedBy(t.filter))
  {
    var p := AllowedBy(t.filter);
    DeviceReplayEntries(counted, t.device, Only(us, p));
    SelectionAcceptedExactly(t.device.entries, us, p);
    forall k
      ensures Same(Replay(t.device.entries, Only(us, p)),
        if p(k) then Replay(t.device.entries, us) else t.device.entries, k)
    {
      SelectionReplayed(t.device.entries, us, p, k);
    }
  }

  // ----- adding and removing targets -----

  /** A fill with the part of the log that `p` selects: one logged update after the other, up to the first that
      is refused. */
  ghost predicate FillEffect(s: State, before: Table, after: Table, p: Key -> bool, ok: bool) {
    if s.p4infoStored then exists n: nat :: FilledUpTo(s.log, n, before, after, p) && (ok <==> n == |s.log|)
    else ok && after == before
  }

  /** The first `n` updates were handled, and the next one, if any, is refused. */
  ghost predicate FilledUpTo(log: seq<Update>, n: nat, before: Table, after: Table, p: Key -> bool) {
    && n <= |log| && AcceptedWhere(before, log[..n], p) && UpdatedWhere(before, after, log[..n], p)
    && (n < |log| ==> p(log[n].key) && !Accepted(Replay(before, log[..n]), log[n]))
  }

  lemma {:induction false} SameAccepted(a: Table, b: Table, u: Update)
    requires Same(a, b, u.key)
    ensures Accepted(a, u) <==> Accepted(b, u)
  {
  }

  /** Where a fill stops. */
  lemma {:induction false} FillStopsAt(counted: set<nat>, d: Switch, log: seq<Update>, p: Key -> bool) returns (n: nat)
    ensures n <= |log| && AcceptedWhere(d.entries, log[..n], p)
    ensures n < |log| ==> p(log[n].key) && !Accepted(Replay(d.entries, log[..n]), log[n])
    ensures DeviceFill(counted, d, Only(log, p)) == (DeviceReplay(counted, d, Only(log[..n], p)), n == |log|)
  {
    if log == [] {
      n := 0;
    } else {
      var init, u := log[..|log| - 1], log[|log| - 1];
      assert log == init + [u];
      n := FillStopsAt(counted, d, init, p);
      if n < |init| {
        assert log[..n] == init[..n] && Only(log, p) == if p(u.key) then Only(init, p) + [u] else Only(init, p);
        FillOnceStopped(counted, d, Only(init, p), u);
      } else {
        assert init[..n] == init && log[..n] == init && log[..n + 1] == log;
        FillGoesOn(counted, d, init, u, p);
        AcceptedWhereAppend(d.entries, init, u, p);
        if !p(u.key) || Accepted(Replay(d.entries, init), u) {
          n := n + 1;
        }
      }
    }
  }

  lemma {:induction false} FillOnceStopped(counted: set<nat>, d: Switch, us: seq<Update>, u: Update)
    requires !DeviceFill(counted, d, us).1
    ensures DeviceFill(counted, d, us + [u]) == DeviceFill(counted, d, us)
  {
    assert (us + [u])[..|us|] == us;
  }

  lemma {:induction false} FillGoesOn(counted: set<nat>, d: Switch, init: seq<Update>, u: Update, p: Key -> bool)
    requires DeviceFill(counted, d, Only(init, p)) == (DeviceReplay(counted, d, Only(init, p)), true)
    ensures DeviceFill(counted, d, Only(init + [u], p)) ==
      if !p(u.key) || Accepted(Replay(d.entries, init), u)
      then (DeviceReplay(counted, d, Only(init + [u], p)), true)
      else (DeviceReplay(counted, d, Only(init, p)), false)
  {
    var us := Only(init, p);
    assert (init + [u])[..|init|] == init;
    if p(u.key) {
      assert (us + [u])[..|us|] == us;
      DeviceReplayEntries(counted, d, us);
      SelectionReplayed(d.entries, init, p, u.key);
      SameAccepted(Replay(d.entries, us), Replay(d.entries, init), u);
    }
  }

  lemma {:induction false} FillHasEffect(s: State, d: Switch, used: Filter, f: Filter, p: Key -> bool)
    requires forall k :: p(k) <==> Allows(used, k) && Allows(f, k)
    ensures var (d', ok) := DeviceFill(s.countedTables, d, FillUpdates(s, used, f));
      FillEffect(s, d.entries, d'.entries, p, ok)
  {
    var q := Both(used, f);
    var n := FillStopsAt(s.countedTables, d, s.log, q);
    DeviceReplayEntries(s.countedTables, d, Only(s.log[..n], q));
    SameAcceptance(d.entries, s.log[..n], q, p);
    var after := Replay(d.entries, Only(s.log[..n], q));
    forall k
      ensures Same(after, if p(k) then Replay(d.entries, s.log[..n]) else d.entries, k)
    {
      SelectionReplayed(d.entries, s.log[..n], q, k);
    }
    assert FilledUpTo(s.log, n, d.entries, after, p);
  }

  /** All targets are filled in turn, up to the first whose fill stops. */
  ghost predicate FillAllEffect(s: State, s': State, ok: bool) {
    && SameRest(s, s') && s'.log == s.log && s'.bank == s.bank && |s'.targets| == |s.targets|
    && exists m: nat :: FilledThrough(s, s'.targets, m, |s.targets|) && (ok <==> m == |s.targets|)
  }

  /** Of the first `n` targets those before `m` have been filled, the fill of the next has stopped, and the others
      are as before. */
  ghost predicate FilledThrough(s: State, after: seq<Target>, m: nat, n: nat) {
    && m <= n <= |s.targets| == |after|
    && (forall i :: 0 <= i < m ==> TargetFilled(s, s.targets[i], after[i], true))
    && (m < n ==> TargetFilled(s, s.targets[m], after[m], false))
    && forall i :: m < i < |s.targets| ==> after[i] == s.targets[i]
  }

  ghost predicate TargetFilled(s: State, t: Target, t': Target, ok: bool) {
    && t'.address == t.address && t'.filter == t.filter
    && FillEffect(s, t.device.entries, t'.device.entries, AllowedBy(t.filter), ok)
  }

  lemma {:induction false} FilledUntil(s: State, n: nat) returns (m: nat)
    requires n <= |s.targets|
    ensures FilledThrough(s, FilledTargets(s, n).0, m, n) && (FilledTargets(s, n).1 <==> m == n)
  {
    if n == 0 {
      m := 0;
    } else {
      m := FilledUntil(s, n - 1);
      var t := s.targets[n - 1];
      FillHasEffect(s, t.device, t.filter, t.filter, AllowedBy(t.filter));
      if m == n - 1 && Filled(s, t).1 {
        m := n;
      }
    }
  }

  lemma {:induction false} FillAllHasEffect(s: State)
    ensures FillAllEffect(s, DoFill(s).state, DoFill(s).ok)
  {
    var m := FilledUntil(s, |s.targets|);
    assert DoFill(s).state.targets == FilledTargets(s, |s.targets|).0;
    assert DoFill(s).ok == FilledTargets(s, |s.targets|).1;
  }

  /** A new target takes the place of one with its address, or comes last; a writing proxy fills it. */
  ghost predicate AddTargetEffect(s: State, t: Target, s': State, ok: bool) {
    && SameRest(s, s') && s'.bank == s.bank && s'.log == s.log
    && exists i: nat, t' :: IsRegistered(s.targets, s'.targets, i, t') && IsFilled(s, t, t', ok)
  }

  predicate IsRegistered(before: seq<Target>, after: seq<Target>, i: nat, t: Target) {
    if NoneAt(before, t.address) then i == |before| && after == before + [t]
    else FirstAt(before, t.address, i) && OnlyAt(before, after, i) && after[i] == t
  }

  ghost predicate IsFilled(s: State, t: Target, t': Target, ok: bool) {
    && t'.address == t.address && t'.filter == t.filter
    && if s.mode.ReadWrite? || s.mode.OnlyWrite?
      then FillEffect(s, t.device.entries, t'.device.entries, AllowedBy(t.filter), ok)
      else ok && t' == t
  }

  lemma {:induction false} AddTargetHasEffect(s: State, t: Target)
    ensures AddTargetEffect(s, t, DoAddTarget(s, t).state, DoAddTarget(s, t).ok)
  {
    var (t', ok) := if s.mode.IsWriting() then Filled(s, t) else (t, true);
    FoundAt(s.targets, t.address);
    FillHasEffect(s, t.device, t.filter, t.filter, AllowedBy(t.filter));
    assert IsRegistered(s.targets, DoAddTarget(s, t).state.targets, Find(s.targets, t.address), t');
    assert IsFilled(s, t, t', ok);
  }

  predicate Counts(e: Entity) {
    IsCounter(e) && (e.data.packets != 0 || e.data.bytes != 0)
  }

  /** The list has every counter of `counters` that satisfies `p`, as often, and nothing else. */
  ghost predicate ExactlyThose(list: seq<Entity>, counters: seq<Entity>, p: Entity -> bool) {
    forall e :: multiset(list)[e] == if p(e) then multiset(counters)[e] else 0
  }

  lemma {:induction false} SelectionIsExact(xs: seq<Entity>, p: Entity -> bool)
    ensures ExactlyThose(Select(xs, p), xs, p)
  {
    if xs != [] {
      var init, e := xs[..|xs| - 1], xs[|xs| - 1];
      assert xs == init + [e];
      SelectionIsExact(init, p);
      forall x
        ensures multiset(Select(xs, p))[x] == if p(x) then multiset(xs)[x] else 0
      {
        assert multiset(Select(init, p))[x] == if p(x) then multiset(init)[x] else 0;
      }
    }
  }

  /** The target leaves; a writing proxy banks exactly its counters that counted something. */
  ghost predicate RemoveTargetEffect(s: State, address: string, s': State, ok: bool) {
    if NoneAt(s.targets, address) then !ok && s' == s
    else
      && ok && SameRest(s, s') && s'.log == s.log
      && exists i: nat, banked ::
        && FirstAt(s.targets, address, i)
        && s'.targets == s.targets[..i] + s.targets[i + 1..] && s'.bank == s.bank + banked
        && if s.mode.ReadWrite? || s.mode.OnlyWrite?
          then ExactlyThose(banked, s.targets[i].device.counters, e => Counts(e))
          else banked == []
  }

  lemma {:induction false} RemoveTargetHasEffect(s: State, address: string)
    ensures RemoveTargetEffect(s, address, DoRemoveTarget(s, address).state, DoRemoveTarget(s, address).ok)
  {
    FoundAt(s.targets, address);
    var i := Find(s.targets, address);
    if i < |s.targets| {
      var counters := s.targets[i].device.counters;
      var banked := if s.mode.IsWriting() then NonEmpty(counters) else [];
      SelectionIsExact(counters, HasData());
      assert forall e :: HasData()(e) <==> Counts(e);
      assert DoRemoveTarget(s, address).state.bank == s.bank + banked;
    }
  }

  // ----- lengthening and shortening lists -----

  /** No lists admit everything, as empty ones do. */
  function ListsOf(f: Filter): AllowList {
    match f
    case NoFilter => map[]
    case AllowOnly(lists) => lists
  }

  /** What is replayed when lists are lengthened: entries that the longer lists admit and that carry a new value
      of every lengthened parameter they have. */
  function Lengthening(lists: AllowList, adds: AllowList): Key -> bool {
    k => AdmittedByEither(lists, adds, k) && CarriesOnlyNew(lists, adds, k)
  }

  /** The target's lists admit what has its values in the old lists or among the added values, and the selection
      is filled in. */
  ghost predicate AddFilterEffect(s: State, address: string, adds: AllowList, s': State, ok: bool) {
    if NoneAt(s.targets, address) then !ok && s' == s
    else
      && SameRest(s, s') && s'.log == s.log && s'.bank == s.bank
      && exists i: nat ::
        && FirstAt(s.targets, address, i) && OnlyAt(s.targets, s'.targets, i)
        && IsLengthened(s, s.targets[i], s'.targets[i], adds, ok)
  }

  ghost predicate IsLengthened(s: State, t: Target, t': Target, adds: AllowList, ok: bool) {
    && (forall k :: Allows(t'.filter, k) <==> AdmittedByEither(ListsOf(t.filter), adds, k))
    && FillEffect(s, t.device.entries, t'.device.entries, Lengthening(ListsOf(t.filter), adds), ok)
  }

  lemma {:induction false} AddFilterHasEffect(s: State, address: string, adds: AllowList)
    ensures AddFilterEffect(s, address, adds, DoAddFilter(s, address, adds).state, DoAddFilter(s, address, adds).ok)
  {
    FoundAt(s.targets, address);
    var i := Find(s.targets, address);
    if i < |s.targets| {
      TargetIsLengthened(s, s.targets[i], adds);
    }
  }

  lemma {:induction false} TargetIsLengthened(s: State, t: Target, adds: AllowList)
    ensures var (t', ok) := Lengthened(s, t, adds); t'.address == t.address && IsLengthened(s, t, t', adds, ok)
  {
    var lists := ListsOf(t.filter);
    assert Lists(t.filter) == lists;
    forall k
      ensures Allows(AllowOnly(Extended(lists, adds)), k) <==> AdmittedByEither(lists, adds, k)
      ensures Allows(AllowOnly(Added(lists, adds)), k) <==> CarriesOnlyNew(lists, adds, k)
    {
      ExtendedAdmitsExactly(lists, adds, k);
      AddedSelectsExactly(lists, adds, k);
    }
    FillHasEffect(
      s, t.device, AllowOnly(Added(lists, adds)), AllowOnly(Extended(lists, adds)), Lengthening(lists, adds));
  }

  /** When the call keeps the replicas in step, the target holds exactly the live entries that have their values
      in the old lists or among the added values, the newly admitted ones included. */
  lemma {:induction false} NewlyAdmittedIsHeld(s: State, address: string, adds: AllowList, i: nat, k: Key)
    requires Replicated(s) && FirstAt(s.targets, address, i) && Proper(s, AddFilter(address, adds))
    ensures var o := DoAddFilter(s, address, adds);
      && o.ok && i < |o.state.targets|
      && (k in o.state.targets[i].device.entries <==>
        k in Virtual(s) && AdmittedByEither(ListsOf(s.targets[i].filter), adds, k))
      && (k in o.state.targets[i].device.entries ==> o.state.targets[i].device.entries[k] == Virtual(s)[k])
  {
    var o := DoAddFilter(s, address, adds);
    FindIsFirst(s.targets, address, i);
    AddFilterExactly(s, address, adds);
    TargetIsLengthened(s, s.targets[i], adds);
    assert TargetInSync(s.log, o.state.targets[i]);
  }

  /** Duplicate-free lists admit what they admitted unless it carries a removed value; the logged entries that
      are no longer admitted are deleted. */
  ghost predicate RemoveFilterEffect(s: State, address: string, removals: AllowList, s': State, ok: bool) {
    if NoneAt(s.targets, address) then !ok && s' == s
    else
      && SameRest(s, s') && s'.log == s.log
      && exists i: nat ::
        && FirstAt(s.targets, address, i) && OnlyAt(s.targets, s'.targets, i)
        && if s.targets[i].filter.NoFilter? && removals != map[] then !ok && s' == s
        else
          && ok && IsShortened(s, s.targets[i], s'.targets[i], removals)
          && (s.mode.ReadWrite? || s.mode.OnlyWrite? || s'.bank == s.bank)
  }

  ghost predicate IsShortened(s: State, t: Target, t': Target, removals: AllowList) {
    && (DuplicateFree(ListsOf(t.filter)) ==> forall k ::
      Allows(t'.filter, k) <==> Allows(t.filter, k) && !CarriesRemoved(ListsOf(t.filter), removals, k))
    && forall k :: Same(t'.device.entries, if IsPurged(s, t, t', k) then map[] else t.device.entries, k)
  }

  ghost predicate IsPurged(s: State, t: Target, t': Target, k: Key) {
    s.p4infoStored && Touches(s.log, k) && Allows(t.filter, k) && !Allows(t'.filter, k)
  }

  lemma {:induction false} RemoveFilterHasEffect(s: State, address: string, removals: AllowList)
    ensures RemoveFilterEffect(
      s, address, removals, DoRemoveFilter(s, address, removals).state, DoRemoveFilter(s, address, removals).ok)
  {
    FoundAt(s.targets, address);
    var i := Find(s.targets, address);
    if i < |s.targets| {
      var t := s.targets[i];
      var f := ShorterFilter(t.filter, removals);
      var us := PurgeUpdates(s, t.filter, f);
      var (d, b) := Purge(s.countedTables, s.mode.IsWriting(), t.device, s.bank, us);
      UnbankedPurge(s.countedTables, t.device, s.bank, us);
      if !(t.filter.NoFilter? && removals != map[]) {
        TargetIsShortened(s, t, removals);
        assert DoRemoveFilter(s, address, removals).state.targets[i] == Target(address, f, d);
      }
    }
  }

  lemma {:induction false} UnbankedPurge(counted: set<nat>, d: Switch, bank: seq<Entity>, us: seq<Update>)
    ensures Purge(counted, false, d, bank, us).1 == bank
  {
    if us != [] {
      UnbankedPurge(counted, d, bank, us[..|us| - 1]);
    }
  }

  lemma {:induction false} TargetIsShortened(s: State, t: Target, removals: AllowList)
    requires t.filter.NoFilter? ==> removals == map[]
    ensures var f := ShorterFilter(t.filter, removals);
      var (d, _) := Purge(s.countedTables, s.mode.IsWriting(), t.device, s.bank, PurgeUpdates(s, t.filter, f));
      IsShortened(s, t, Target(t.address, f, d), removals)
  {
    var f := ShorterFilter(t.filter, removals);
    var (d, _) := Purge(s.countedTables, s.mode.IsWriting(), t.device, s.bank, PurgeUpdates(s, t.filter, f));
    TargetIsPurged(s, t, f, Target(t.address, f, d));
    if t.filter.AllowOnly? && DuplicateFree(t.filter.lists) {
      forall k
        ensures Allows(f, k) <==> Allows(t.filter, k) && !CarriesRemoved(t.filter.lists, removals, k)
      {
        ShortenedAdmitsExactly(t.filter.lists, removals, k);
      }
    }
  }

  lemma {:induction false} TargetIsPurged(s: State, t: Target, f: Filter, t': Target)
    requires t'.filter == f
    requires t'.device ==
      Purge(s.countedTables, s.mode.IsWriting(), t.device, s.bank, PurgeUpdates(s, t.filter, f)).0
    ensures forall k :: Same(t'.device.entries, if IsPurged(s, t, t', k) then map[] else t.device.entries, k)
  {
    var us := PurgeUpdates(s, t.filter, f);
    PurgeEntries(s.countedTables, s.mode.IsWriting(), t.device, s.bank, us);
    forall k
      ensures Touches(us, k) <==> IsPurged(s, t, t', k)
    {
      OnlyTouches(s.log, Leaving(t.filter, f), k);
    }
  }

  /** From a target in step with duplicate-free lists exactly the entries go that carry a removed value. */
  lemma {:induction false} RemovedValuesAreGone(s: State, address: string, removals: AllowList, i: nat, k: Key)
    requires Replicated(s) && FirstAt(s.targets, address, i)
    requires s.targets[i].filter.AllowOnly? && DuplicateFree(s.targets[i].filter.lists)
    ensures var o := DoRemoveFilter(s, address, removals);
      && o.ok && i < |o.state.targets|
      && (k in o.state.targets[i].device.entries <==>
        k in s.targets[i].device.entries && !CarriesRemoved(s.targets[i].filter.lists, removals, k))
  {
    FindIsFirst(s.targets, address, i);
    RemoveFilterExactly(s, address, removals);
    var o := DoRemoveFilter(s, address, removals);
    assert TargetInSync(s.log, s.targets[i]) && TargetInSync(s.log, o.state.targets[i]);
    ShortenedAdmitsExactly(s.targets[i].filter.lists, removals, k);
  }
}
