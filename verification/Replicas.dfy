/** The proxy's replicas as a state machine: what every management call does to the stored log, to the
    targets and to the bank of removed counters (`proxy.py`, identity conversion). */
module Replicas {
  import opened Tables
  import opened AllowLists
  import opened Entities

  datatype RedisMode = ReadWrite | OnlyWrite | OnlyRead | Off {
    predicate IsWriting() {
      ReadWrite? || OnlyWrite?
    }

    predicate IsReading() {
      ReadWrite? || OnlyRead?
    }
  }

  /** A physical switch: its entries, and its counters in the order in which it reports them. */
  datatype Switch = Switch(entries: Table, counters: seq<Entity>)

  datatype Target = Target(address: string, filter: Filter, device: Switch)

  /** `countedTables` are the tables with a direct counter in the P4INFO. */
  datatype State = State(
    mode: RedisMode,
    p4infoStored: bool,
    countedTables: set<nat>,
    log: seq<Update>,
    targets: seq<Target>,
    bank: seq<Entity>)

  datatype Outcome = Outcome(state: State, ok: bool)

  /** A management call or, for `Traffic`, packets counted by a switch. */
  datatype Op =
    | Write(updates: seq<Update>)
    | AddTarget(target: Target)
    | RemoveTarget(address: string)
    | AddFilter(address: string, adds: AllowList)
    | RemoveFilter(address: string, removals: AllowList)
    | Traffic(address: string, id: Identifier, amount: Count)

  // ----- the switch -----

  /** The counters that satisfy `p`, in order. */
  function Select(xs: seq<Entity>, p: Entity -> bool): seq<Entity> {
    if xs == [] then []
    else
      var init := Select(xs[..|xs| - 1], p);
      if p(xs[|xs| - 1]) then init + [xs[|xs| - 1]] else init
  }

  predicate IsDirect(e: Entity, k: Key) {
    e.DirectCounterEntry? && e.key == k
  }

  function NotOf(k: Key): Entity -> bool {
    e => !IsDirect(e, k)
  }

  function WithoutEntry(counters: seq<Entity>, k: Key): seq<Entity> {
    Select(counters, NotOf(k))
  }

  /** A new entry of a counted table starts a counter at zero; a deleted entry loses its counter. */
  function CountersAfter(counted: set<nat>, device: Switch, u: Update): seq<Entity> {
    if u.kind.Insert? && Valid(device.entries, u) && u.key.table in counted then
      device.counters + [DirectCounterEntry(u.key, ZERO)]
    else if u.kind.Delete? then WithoutEntry(device.counters, u.key)
    else device.counters
  }

  function DeviceStep(counted: set<nat>, device: Switch, u: Update): Switch {
    Switch(Step(device.entries, u), CountersAfter(counted, device, u))
  }

  /** One Write request: every update is handled, whatever happened to the ones before. */
  function DeviceReplay(counted: set<nat>, device: Switch, us: seq<Update>): Switch {
    if us == [] then device else DeviceStep(counted, DeviceReplay(counted, device, us[..|us| - 1]), us[|us| - 1])
  }

  /** One request per update, up to the first that is refused. */
  function DeviceFill(counted: set<nat>, device: Switch, us: seq<Update>): (Switch, bool) {
    if us == [] then (device, true)
    else
      var (d, ok) := DeviceFill(counted, device, us[..|us| - 1]);
      if ok && Accepted(d.entries, us[|us| - 1]) then (DeviceStep(counted, d, us[|us| - 1]), true) else (d, false)
  }

  function Matching(k: Key): Entity -> bool {
    (e: Entity) => e.DirectCounterEntry? && e.data != ZERO && LooksAlike(k, e.key)
  }

  /** The counters that are banked before the entry of `k` is deleted. */
  function Departing(counters: seq<Entity>, k: Key): seq<Entity> {
    Select(counters, Matching(k))
  }

  /** For every update of `us`: bank the matching direct counters, then delete the entry. */
  function Purge(
    counted: set<nat>, writing: bool, device: Switch, bank: seq<Entity>, us: seq<Update>): (Switch, seq<Entity>)
  {
    if us == [] then (device, bank)
    else
      var (d, b), u := Purge(counted, writing, device, bank, us[..|us| - 1]), us[|us| - 1];
      (DeviceStep(counted, d, u.(kind := Delete)), if writing then b + Departing(d.counters, u.key) else b)
  }

  function HasData(): Entity -> bool {
    e => IsCounter(e) && e.data != ZERO
  }

  function NonEmpty(counters: seq<Entity>): seq<Entity> {
    Select(counters, HasData())
  }

  function Under(id: Identifier): Entity -> bool {
    e => Carries(e, id)
  }

  /** Traffic is added to the first counter that satisfies `p`. */
  function Hit(counters: seq<Entity>, p: Entity -> bool, amount: Count): seq<Entity> {
    if counters == [] then []
    else if p(counters[0]) then [WithData(counters[0], Plus(Data(counters[0]), amount))] + counters[1..]
    else [counters[0]] + Hit(counters[1..], p, amount)
  }

  // ----- the calls -----

  /** The position of a registered address, or the number of targets. */
  function Find(targets: seq<Target>, address: string): (i: nat)
    ensures i <= |targets|
    ensures i < |targets| ==> targets[i].address == address
    ensures forall j :: 0 <= j < i ==> targets[j].address != address
  {
    if targets == [] then 0 else if targets[0].address == address then 0 else 1 + Find(targets[1..], address)
  }

  /** How many updates come before the first one of an unknown kind. */
  function HandledPrefix(us: seq<Update>): (n: nat)
    ensures n <= |us| && (n < |us| ==> us[n].kind.Unspecified?)
    ensures forall i :: 0 <= i < n ==> !us[i].kind.Unspecified?
  {
    if us == [] || us[0].kind.Unspecified? then 0 else 1 + HandledPrefix(us[1..])
  }

  function AllowedBy(f: Filter): Key -> bool {
    k => Allows(f, k)
  }

  function WriteTo(counted: set<nat>, t: Target, us: seq<Update>): Target {
    t.(device := DeviceReplay(counted, t.device, Only(us, AllowedBy(t.filter))))
  }

  /** The log is extended before anything is sent; an unknown update kind stops the call in between. */
  ghost function DoWrite(s: State, us: seq<Update>): Outcome {
    var n := HandledPrefix(us);
    var s1 := if s.mode.IsWriting() then s.(log := s.log + us[..n]) else s;
    if n < |us| then Outcome(s1, false)
    else Outcome(
      s1.(targets := seq(|s.targets|, i requires 0 <= i < |s.targets| => WriteTo(s.countedTables, s.targets[i], us))),
      forall i :: 0 <= i < |s.targets| ==>
        AllAccepted(s.targets[i].device.entries, Only(us, AllowedBy(s.targets[i].filter))))
  }

  function Both(used: Filter, f: Filter): Key -> bool {
    k => Allows(used, k) && Allows(f, k)
  }

  function Leaving(before: Filter, after: Filter): Key -> bool {
    k => Allows(before, k) && !Allows(after, k)
  }

  /** What a fill of a target with this filter sends. */
  function FillUpdates(s: State, used: Filter, f: Filter): seq<Update> {
    if s.p4infoStored then Only(s.log, Both(used, f)) else []
  }

  /** Registering a target under an address that is free or taken. */
  function Registered(targets: seq<Target>, t: Target): seq<Target> {
    var i := Find(targets, t.address);
    if i < |targets| then targets[i := t] else targets + [t]
  }

  function DoAddTarget(s: State, t: Target): Outcome {
    var (t1, ok) := if s.mode.IsWriting() then Filled(s, t) else (t, true);
    Outcome(s.(targets := Registered(s.targets, t1)), ok)
  }

  /** A target filled with what the log holds for it. */
  function Filled(s: State, t: Target): (Target, bool) {
    var (d, ok) := DeviceFill(s.countedTables, t.device, FillUpdates(s, t.filter, t.filter));
    (t.(device := d), ok)
  }

  /** Registering the configured targets, one after the other; nothing is sent to them yet. */
  function RegisterAll(configured: seq<Target>): seq<Target> {
    if configured == [] then []
    else Registered(RegisterAll(configured[..|configured| - 1]), configured[|configured| - 1])
  }

  /** The first `n` targets filled with what the log holds for them, up to the first error. */
  function FilledTargets(s: State, n: nat): (r: (seq<Target>, bool))
    requires n <= |s.targets|
    ensures |r.0| == |s.targets| && forall i :: n <= i < |s.targets| ==> r.0[i] == s.targets[i]
  {
    if n == 0 then (s.targets, true)
    else
      var (ts, ok) := FilledTargets(s, n - 1);
      if !ok then (ts, false)
      else
        var (t, done) := Filled(s, s.targets[n - 1]);
        (ts[n - 1 := t], done)
  }

  /** What a proxy that starts on an existing log does with its targets. */
  function DoFill(s: State): Outcome {
    var (ts, ok) := FilledTargets(s, |s.targets|);
    Outcome(s.(targets := ts), ok)
  }

  function DoRemoveTarget(s: State, address: string): Outcome {
    var i := Find(s.targets, address);
    if i == |s.targets| then Outcome(s, false)
    else
      var banked := if s.mode.IsWriting() then NonEmpty(s.targets[i].device.counters) else [];
      Outcome(s.(targets := s.targets[..i] + s.targets[i + 1..], bank := s.bank + banked), true)
  }

  /** The target after its lists were lengthened and the selection was replayed. */
  function Lengthened(s: State, t: Target, adds: AllowList): (Target, bool) {
    var f := AllowOnly(Extended(Lists(t.filter), adds));
    var (d, ok) := DeviceFill(s.countedTables, t.device, FillUpdates(s, AllowOnly(Added(Lists(t.filter), adds)), f));
    (Target(t.address, f, d), ok)
  }

  function DoAddFilter(s: State, address: string, adds: AllowList): Outcome {
    var i := Find(s.targets, address);
    if i == |s.targets| then Outcome(s, false)
    else
      var (t, ok) := Lengthened(s, s.targets[i], adds);
      Outcome(s.(targets := s.targets[i := t]), ok)
  }

  function PurgeUpdates(s: State, before: Filter, after: Filter): seq<Update> {
    if s.p4infoStored then Only(s.log, Leaving(before, after)) else []
  }

  function ShorterFilter(f: Filter, removals: AllowList): Filter {
    if f.NoFilter? then NoFilter else AllowOnly(Shortened(f.lists, removals))
  }

  /** Looking up a parameter when the target has no allow lists at all is an error. */
  function DoRemoveFilter(s: State, address: string, removals: AllowList): Outcome {
    var i := Find(s.targets, address);
    if i == |s.targets| || (s.targets[i].filter.NoFilter? && removals != map[]) then Outcome(s, false)
    else
      var t := s.targets[i];
      var f := ShorterFilter(t.filter, removals);
      var (d, b) := Purge(s.countedTables, s.mode.IsWriting(), t.device, s.bank, PurgeUpdates(s, t.filter, f));
      Outcome(s.(targets := s.targets[i := Target(address, f, d)], bank := b), true)
  }

  function DoTraffic(s: State, address: string, id: Identifier, amount: Count): Outcome {
    var i := Find(s.targets, address);
    if i == |s.targets| then Outcome(s, true)
    else
      var t := s.targets[i];
      var d := t.device.(counters := Hit(t.device.counters, Under(id), amount));
      Outcome(s.(targets := s.targets[i := t.(device := d)]), true)
  }

  ghost function Do(s: State, op: Op): Outcome {
    match op
    case Write(us) => DoWrite(s, us)
    case AddTarget(t) => DoAddTarget(s, t)
    case RemoveTarget(a) => DoRemoveTarget(s, a)
    case AddFilter(a, adds) => DoAddFilter(s, a, adds)
    case RemoveFilter(a, removals) => DoRemoveFilter(s, a, removals)
    case Traffic(a, id, amount) => DoTraffic(s, a, id, amount)
  }

  ghost function Run(s: State, ops: seq<Op>): State {
    if ops == [] then s else Do(Run(s, ops[..|ops| - 1]), ops[|ops| - 1]).state
  }

  // ----- the invariant -----

  /** The table the controller believes in. */
  function Virtual(s: State): Table {
    Replay(map[], s.log)
  }

  /** What a target with this filter should hold. */
  function View(log: seq<Update>, f: Filter): Table {
    Restrict(Replay(map[], log), AllowedBy(f))
  }

  predicate TargetInSync(log: seq<Update>, t: Target) {
    t.device.entries == View(log, t.filter)
  }

  ghost predicate UniqueAddresses(targets: seq<Target>) {
    forall i, j :: 0 <= i < j < |targets| ==> targets[i].address != targets[j].address
  }

  ghost predicate InStep(log: seq<Update>, targets: seq<Target>) {
    UniqueAddresses(targets) && forall i :: 0 <= i < |targets| ==> TargetInSync(log, targets[i])
  }

  /** Every replica of a proxy that writes its log equals the recomputation from it. */
  ghost predicate Replicated(s: State) {
    s.mode.IsWriting() && s.p4infoStored && InStep(s.log, s.targets)
  }

  /** Every logged update was valid when it was issued. */
  ghost predicate LogIsValid(s: State) {
    AllValid(map[], s.log)
  }

  ghost predicate InSync(s: State) {
    Replicated(s) && LogIsValid(s)
  }

  // ----- lemmas about the switch -----

  lemma {:induction false} DeviceReplayEntries(counted: set<nat>, d: Switch, us: seq<Update>)
    ensures DeviceReplay(counted, d, us).entries == Replay(d.entries, us)
  {
    if us != [] {
      DeviceReplayEntries(counted, d, us[..|us| - 1]);
    }
  }

  lemma {:induction false} DeviceFillMeaning(counted: set<nat>, d: Switch, us: seq<Update>)
    ensures DeviceFill(counted, d, us).1 <==> AllAccepted(d.entries, us)
    ensures DeviceFill(counted, d, us).1 ==> DeviceFill(counted, d, us).0 == DeviceReplay(counted, d, us)
  {
    if us != [] {
      var init, u := us[..|us| - 1], us[|us| - 1];
      assert us == init + [u];
      DeviceFillMeaning(counted, d, init);
      DeviceReplayEntries(counted, d, init);
      AllAcceptedAppend(d.entries, init, u);
    }
  }

  /** Filling with a part of the log, valid or not: it succeeds exactly if the log is accepted on the device
      wherever it concerns that part, and then changes those keys as the log does, and no others. */
  lemma {:induction false} FillOnAnyLog(counted: set<nat>, d: Switch, log: seq<Update>, p: Key -> bool)
    ensures var (d', ok) := DeviceFill(counted, d, Only(log, p));
      && (ok <==> AcceptedWhere(d.entries, log, p))
      && (ok ==> forall k :: Same(d'.entries, if p(k) then Replay(d.entries, log) else d.entries, k))
  {
    DeviceFillMeaning(counted, d, Only(log, p));
    DeviceReplayEntries(counted, d, Only(log, p));
    SelectionAcceptedExactly(d.entries, log, p);
    forall k
      ensures Same(Replay(d.entries, Only(log, p)), if p(k) then Replay(d.entries, log) else d.entries, k)
    {
      SelectionReplayed(d.entries, log, p, k);
    }
  }

  /** Filling with a part of a valid log: it succeeds exactly when the device holds no key of that part, and
      then adds what that part builds. */
  lemma {:induction false} FillExactly(counted: set<nat>, d: Switch, log: seq<Update>, p: Key -> bool)
    requires AllValid(map[], log)
    ensures var (d', ok) := DeviceFill(counted, d, Only(log, p));
      && (ok <==> forall k :: k in d.entries && p(k) ==> !Touches(log, k))
      && (ok ==> d'.entries == d.entries + Restrict(Replay(map[], log), p))
  {
    var us := Only(log, p);
    DeviceFillMeaning(counted, d, us);
    DeviceReplayEntries(counted, d, us);
    OnlyValid(map[], log, p);
    assert Restrict(map[], p) == map[];
    if forall k :: k in d.entries && p(k) ==> !Touches(log, k) {
      forall k | k in d.entries
        ensures !Touches(us, k)
      {
        OnlyTouches(log, p, k);
      }
      ReplayOverDisjoint(d.entries, us);
      ReplayOnly(map[], log, p);
    } else {
      var k :| k in d.entries && p(k) && Touches(log, k);
      OnlyTouches(log, p, k);
      PresentKeyIsRefused(d.entries, us, k);
    }
  }

  lemma {:induction false} LiveIsTouched(log: seq<Update>, k: Key)
    requires k in Replay(map[], log)
    ensures Touches(log, k)
  {
    if !Touches(log, k) {
      Untouched(map[], log, k);
    }
  }

  // ----- each call, exactly -----

  /** On the key `k` the lengthened lists, the old filter and the replayed selection agree. */
  predicate AdditionFitsKey(t: Target, k: Key, adds: AllowList) {
    var added := AllowOnly(Added(Lists(t.filter), adds));
    var after := AllowOnly(Extended(Lists(t.filter), adds));
    if Allows(t.filter, k) then Allows(after, k) && !Allows(added, k) else Allows(after, k) ==> Allows(added, k)
  }

  /** The selection adds to a target exactly what the lengthened lists newly allow. */
  predicate AdditionFits(t: Target, live: Table, adds: AllowList) {
    forall k :: k in live ==> AdditionFitsKey(t, k, adds)
  }

  /** A fill works if everything it sends is accepted, and every entry that the switch holds beforehand is
      admitted and deleted by the log at some point. */
  ghost predicate FillWorks(log: seq<Update>, t: Target) {
    && AcceptedWhere(t.device.entries, log, AllowedBy(t.filter))
    && forall k :: k in t.device.entries ==> Allows(t.filter, k) && Removes(log, k)
  }

  /** What is replayed when lists are lengthened. */
  function Selection(t: Target, adds: AllowList): Key -> bool {
    Both(AllowOnly(Added(Lists(t.filter), adds)), AllowOnly(Extended(Lists(t.filter), adds)))
  }

  /** Lengthening lists works if everything it sends is accepted, and where it sends nothing the longer lists
      allow the live entries that were allowed before. */
  ghost predicate AdditionWorks(log: seq<Update>, t: Target, adds: AllowList) {
    && AcceptedWhere(t.device.entries, log, Selection(t, adds))
    && forall k :: k in Replay(map[], log) && !Selection(t, adds)(k) ==>
      (Allows(t.filter, k) <==> Allows(AllowOnly(Extended(Lists(t.filter), adds)), k))
  }

  /** Some target admits the entry. */
  predicate Admitted(targets: seq<Target>, k: Key) {
    exists i :: 0 <= i < |targets| && Allows(targets[i].filter, k)
  }

  function AdmittedBy(targets: seq<Target>): Key -> bool {
    k => Admitted(targets, k)
  }

  /** The condition under which a call succeeds and keeps the replicas in step. */
  ghost predicate Proper(s: State, op: Op) {
    match op
    case Write(us) => HandledPrefix(us) == |us| && AcceptedWhere(Virtual(s), us, AdmittedBy(s.targets))
    case AddTarget(t) => FillWorks(s.log, t)
    case RemoveTarget(a) => Find(s.targets, a) < |s.targets|
    case AddFilter(a, adds) =>
      Find(s.targets, a) < |s.targets| && AdditionWorks(s.log, s.targets[Find(s.targets, a)], adds)
    case RemoveFilter(a, removals) =>
      Find(s.targets, a) < |s.targets| && (s.targets[Find(s.targets, a)].filter.NoFilter? ==> removals == map[])
    case Traffic(_, _, _) => true
  }

  /** The updates that the call logs are valid when issued. */
  ghost predicate Issued(s: State, op: Op) {
    op.Write? ==> AllValid(Virtual(s), op.updates[..HandledPrefix(op.updates)])
  }

  lemma {:induction false} HandledIsValid(t: Table, us: seq<Update>)
    requires AllValid(t, us)
    ensures HandledPrefix(us) == |us|
  {
    forall i | 0 <= i < |us|
      ensures !us[i].kind.Unspecified?
    {
      assert Valid(Replay(t, us[..i]), us[i]);
    }
  }

  lemma {:induction false} ValidIsAccepted(t: Table, us: seq<Update>)
    requires AllValid(t, us)
    ensures AllAccepted(t, us)
  {
    forall i | 0 <= i < |us|
      ensures Accepted(Replay(t, us[..i]), us[i])
    {
      assert Valid(Replay(t, us[..i]), us[i]);
    }
  }

  lemma {:induction false} SuffixIsValid(t: Table, us: seq<Update>, vs: seq<Update>, i: nat)
    requires AllValid(t, us + vs) && i < |vs|
    ensures Valid(Replay(Replay(t, us), vs[..i]), vs[i])
  {
    var all, n := us + vs, |us| + i;
    assert Valid(Replay(t, all[..n]), all[n]);
    ReplayOfPrefix(t, us, vs, n);
    assert n - |us| == i;
  }

  lemma {:induction false} AllValidSuffix(t: Table, us: seq<Update>, vs: seq<Update>)
    requires AllValid(t, us + vs)
    ensures AllValid(Replay(t, us), vs)
  {
    forall i | 0 <= i < |vs|
      ensures Valid(Replay(Replay(t, us), vs[..i]), vs[i])
    {
      SuffixIsValid(t, us, vs, i);
    }
  }

  /** A target follows a Write whatever the updates are. */
  lemma {:induction false} WriteToInSync(counted: set<nat>, log: seq<Update>, t: Target, us: seq<Update>)
    requires TargetInSync(log, t)
    ensures TargetInSync(log + us, WriteTo(counted, t, us))
    ensures AllAccepted(t.device.entries, Only(us, AllowedBy(t.filter))) <==>
      AcceptedWhere(Replay(map[], log), us, AllowedBy(t.filter))
  {
    var p := AllowedBy(t.filter);
    ReplayAppend(map[], log, us);
    DeviceReplayEntries(counted, t.device, Only(us, p));
    ReplayOnly(Replay(map[], log), us, p);
    OnlyAcceptedExactly(Replay(map[], log), us, p);
  }

  lemma {:induction false} AcceptedByAll(live: Table, us: seq<Update>, targets: seq<Target>)
    ensures (forall i :: 0 <= i < |targets| ==> AcceptedWhere(live, us, AllowedBy(targets[i].filter))) <==>
      AcceptedWhere(live, us, AdmittedBy(targets))
  {
    if AcceptedWhere(live, us, AdmittedBy(targets)) {
      forall i | 0 <= i < |targets|
        ensures AcceptedWhere(live, us, AllowedBy(targets[i].filter))
      {
        assert forall k :: Allows(targets[i].filter, k) ==> Admitted(targets, k);
      }
    } else {
      var j :| 0 <= j < |us| && Admitted(targets, us[j].key) && !Accepted(Replay(live, us[..j]), us[j]);
      var i :| 0 <= i < |targets| && Allows(targets[i].filter, us[j].key);
      assert AllowedBy(targets[i].filter)(us[j].key);
      assert !AcceptedWhere(live, us, AllowedBy(targets[i].filter));
    }
  }

  /** A Write whose updates are all of known kinds keeps every replica equal to the recomputation, valid or
      not.  It succeeds exactly if every update that some target admits is accepted on the controller's
      view. */
  lemma {:induction false} HandledWrite(s: State, us: seq<Update>)
    requires Replicated(s) && HandledPrefix(us) == |us|
    ensures Replicated(DoWrite(s, us).state)
    ensures DoWrite(s, us).ok <==> AcceptedWhere(Virtual(s), us, AdmittedBy(s.targets))
  {
    var s' := DoWrite(s, us).state;
    assert us[..|us|] == us;
    forall i | 0 <= i < |s.targets|
      ensures TargetInSync(s'.log, s'.targets[i])
      ensures AllAccepted(s.targets[i].device.entries, Only(us, AllowedBy(s.targets[i].filter))) <==>
        AcceptedWhere(Virtual(s), us, AllowedBy(s.targets[i].filter))
    {
      WriteToInSync(s.countedTables, s.log, s.targets[i], us);
    }
    AcceptedByAll(Virtual(s), us, s.targets);
  }

  /** Of a Write that an unknown update kind stops, the part before it is logged and nothing is sent.  The
      replicas are still equal to the recomputation exactly if, for every entry that some target admits, the
      logged update that has the last word on it restores what the controller's view has. */
  lemma {:induction false} StoppedWrite(s: State, us: seq<Update>)
    requires Replicated(s) && HandledPrefix(us) < |us|
    ensures !DoWrite(s, us).ok
    ensures Replicated(DoWrite(s, us).state) <==>
      forall k :: Admitted(s.targets, k) ==> Restored(Virtual(s), us[..HandledPrefix(us)], k)
  {
    var s', part := DoWrite(s, us).state, us[..HandledPrefix(us)];
    ReplayAppend(map[], s.log, part);
    forall k
      ensures Same(Virtual(s'), Virtual(s), k) <==> Restored(Virtual(s), part, k)
    {
      UnchangedExactly(Virtual(s), part, k);
    }
    UnsentExactly(s.log, s'.log, s.targets);
  }

  /** Targets in step with one log are in step with another exactly if both build the same on all admitted
      keys. */
  lemma {:induction false} UnsentExactly(log: seq<Update>, log': seq<Update>, targets: seq<Target>)
    requires InStep(log, targets)
    ensures InStep(log', targets) <==>
      forall k :: Admitted(targets, k) ==> Same(Replay(map[], log'), Replay(map[], log), k)
  {
    forall i | 0 <= i < |targets|
      ensures TargetInSync(log', targets[i]) <==> SameWhereAllowed(log', log, targets[i].filter)
    {
      assert TargetInSync(log, targets[i]);
      SameViews(log', log, targets[i].filter);
    }
    if InStep(log', targets) {
      forall k | Admitted(targets, k)
        ensures Same(Replay(map[], log'), Replay(map[], log), k)
      {
        var i :| 0 <= i < |targets| && Allows(targets[i].filter, k);
        assert SameWhereAllowed(log', log, targets[i].filter);
      }
    }
    if forall k :: Admitted(targets, k) ==> Same(Replay(map[], log'), Replay(map[], log), k) {
      forall i | 0 <= i < |targets|
        ensures SameWhereAllowed(log', log, targets[i].filter)
      {
        assert forall k :: Allows(targets[i].filter, k) ==> Admitted(targets, k);
      }
    }
  }

  ghost predicate SameWhereAllowed(log': seq<Update>, log: seq<Update>, f: Filter) {
    forall k :: Allows(f, k) ==> Same(Replay(map[], log'), Replay(map[], log), k)
  }

  lemma {:induction false} SameViews(log': seq<Update>, log: seq<Update>, f: Filter)
    ensures View(log', f) == View(log, f) <==> SameWhereAllowed(log', log, f)
  {
    forall k
      ensures Same(View(log', f), View(log, f), k) <==>
        (Allows(f, k) ==> Same(Replay(map[], log'), Replay(map[], log), k))
    {
    }
    SameEverywhere(View(log', f), View(log, f));
  }

  /** The log stays valid exactly if what a Write appends to it is valid on the controller's view. */
  lemma {:induction false} LoggedWrite(s: State, us: seq<Update>)
    requires s.mode.IsWriting()
    ensures LogIsValid(DoWrite(s, us).state) <==> LogIsValid(s) && AllValid(Virtual(s), us[..HandledPrefix(us)])
  {
    var part := us[..HandledPrefix(us)];
    assert us[..|us|] == us;
    if LogIsValid(s) && AllValid(Virtual(s), part) {
      AllValidAppend(map[], s.log, part);
    }
    if AllValid(map[], s.log + part) {
      AllValidSuffix(map[], s.log, part);
      AllValidPrefix(map[], s.log + part, |s.log|);
      assert (s.log + part)[..|s.log|] == s.log;
    }
  }

  lemma {:induction false} WriteKeeps(s: State, us: seq<Update>)
    requires Replicated(s)
    ensures HandledPrefix(us) == |us| ==> Replicated(DoWrite(s, us).state)
    ensures DoWrite(s, us).ok && Replicated(DoWrite(s, us).state) <==> Proper(s, Write(us))
  {
    if HandledPrefix(us) == |us| {
      HandledWrite(s, us);
    } else {
      StoppedWrite(s, us);
    }
  }

  lemma {:induction false} WriteExactly(s: State, us: seq<Update>)
    requires Replicated(s)
    ensures DoWrite(s, us).ok && Replicated(DoWrite(s, us).state) <==> Proper(s, Write(us))
    ensures LogIsValid(DoWrite(s, us).state) <==> LogIsValid(s) && Issued(s, Write(us))
  {
    WriteKeeps(s, us);
    LoggedWrite(s, us);
  }

  /** A Write of updates that are valid when issued meets both conditions. */
  lemma {:induction false} ValidWriteIsProper(s: State, us: seq<Update>)
    requires AllValid(Virtual(s), us)
    ensures Proper(s, Write(us)) && Issued(s, Write(us))
  {
    HandledIsValid(Virtual(s), us);
    ValidIsAccepted(Virtual(s), us);
    assert us[..|us|] == us;
  }

  /** What an invalid update in the log does later: the fill of an empty switch succeeds exactly if every
      logged update that the switch admits was accepted when issued.  So an INSERT of a present entry or a
      MODIFY of an absent one stops every later fill of a target that admits it. */
  lemma {:induction false} FillOfEmptySwitchExactly(s: State, t: Target)
    requires Replicated(s) && t.device.entries == map[]
    ensures DoAddTarget(s, t).ok <==> AcceptedWhere(map[], s.log, AllowedBy(t.filter))
    ensures DoAddTarget(s, t).ok ==> Replicated(DoAddTarget(s, t).state)
  {
    AddTargetExactly(s, t);
    FillOnAnyLog(s.countedTables, t.device, s.log, Both(t.filter, t.filter));
    SameAcceptance(map[], s.log, Both(t.filter, t.filter), AllowedBy(t.filter));
  }

  lemma {:induction false} SameAcceptance(t: Table, log: seq<Update>, p: Key -> bool, q: Key -> bool)
    requires forall k :: p(k) <==> q(k)
    ensures AcceptedWhere(t, log, p) <==> AcceptedWhere(t, log, q)
  {
  }

  /** Changing one target, and nothing else the invariant depends on. */
  lemma {:induction false} OneTargetChanged(s: State, i: nat, t: Target, bank: seq<Entity>)
    requires Replicated(s) && i < |s.targets| && t.address == s.targets[i].address
    ensures Replicated(s.(targets := s.targets[i := t], bank := bank)) <==> TargetInSync(s.log, t)
  {
    var s' := s.(targets := s.targets[i := t], bank := bank);
    assert s'.targets[i] == t;
  }

  lemma {:induction false} OneTargetAdded(s: State, t: Target)
    requires Replicated(s) && Find(s.targets, t.address) == |s.targets|
    ensures Replicated(s.(targets := s.targets + [t])) <==> TargetInSync(s.log, t)
  {
    var s' := s.(targets := s.targets + [t]);
    assert s'.targets[|s.targets|] == t;
  }

  lemma {:induction false} FindRegistered(targets: seq<Target>, t: Target)
    ensures Find(Registered(targets, t), t.address) == Find(targets, t.address)
  {
    var i, r := Find(targets, t.address), Registered(targets, t);
    FindIsFirst(r, t.address, i);
  }

  lemma {:induction false} FindIsFirst(targets: seq<Target>, address: string, i: nat)
    requires i < |targets| && targets[i].address == address
    requires forall j :: 0 <= j < i ==> targets[j].address != address
    ensures Find(targets, address) == i
  {
    if i > 0 {
      FindIsFirst(targets[1..], address, i - 1);
    }
  }

  lemma {:induction false} RegisteredTarget(s: State, t: Target)
    requires Replicated(s)
    ensures Replicated(s.(targets := Registered(s.targets, t))) <==> TargetInSync(s.log, t)
  {
    var i := Find(s.targets, t.address);
    if i < |s.targets| {
      OneTargetChanged(s, i, t, s.bank);
    } else {
      OneTargetAdded(s, t);
    }
  }

  lemma {:induction false} RegisteredAddresses(targets: seq<Target>, t: Target)
    requires UniqueAddresses(targets)
    ensures UniqueAddresses(Registered(targets, t))
  {
  }

  lemma {:induction false} RegisterAllAddresses(configured: seq<Target>)
    ensures UniqueAddresses(RegisterAll(configured))
  {
    if configured != [] {
      var n := |configured| - 1;
      RegisterAllAddresses(configured[..n]);
      RegisteredAddresses(RegisterAll(configured[..n]), configured[n]);
    }
  }

  /** The fill of a target succeeds and brings it in step exactly if it works. */
  ghost predicate FillsExactly(s: State, t: Target) {
    Filled(s, t).1 && TargetInSync(s.log, Filled(s, t).0) <==> FillWorks(s.log, t)
  }

  lemma {:induction false} FilledTarget(s: State, t: Target)
    requires s.p4infoStored
    ensures FillsExactly(s, t)
  {
    var p := Both(t.filter, t.filter);
    FillOnAnyLog(s.countedTables, t.device, s.log, p);
    SameAcceptance(t.device.entries, s.log, p, AllowedBy(t.filter));
    if Filled(s, t).1 {
      forall k
        ensures Same(
          Filled(s, t).0.device.entries,
          if Allows(t.filter, k) then Replay(t.device.entries, s.log) else t.device.entries, k)
      {
        assert p(k) <==> Allows(t.filter, k);
      }
      RefillExactly(s.log, t, Filled(s, t).0.device.entries);
    }
  }

  lemma {:induction false} RefillExactly(log: seq<Update>, t: Target, after: Table)
    requires AcceptedWhere(t.device.entries, log, AllowedBy(t.filter))
    requires forall k ::
      Same(after, if Allows(t.filter, k) then Replay(t.device.entries, log) else t.device.entries, k)
    ensures after == View(log, t.filter) <==>
      forall k :: k in t.device.entries ==> Allows(t.filter, k) && Removes(log, k)
  {
    forall k
      ensures Same(after, View(log, t.filter), k) <==>
        (k in t.device.entries ==> Allows(t.filter, k) && Removes(log, k))
    {
      if Allows(t.filter, k) {
        ReplayForgets(t.device.entries, log, AllowedBy(t.filter), k);
      }
    }
    SameEverywhere(after, View(log, t.filter));
  }

  lemma {:induction false} SameEverywhere(a: Table, b: Table)
    ensures a == b <==> forall k :: Same(a, b, k)
  {
    if forall k :: Same(a, b, k) {
      assert forall k :: (k in a <==> k in b) && (k in a ==> a[k] == b[k]) by {
        forall k
          ensures (k in a <==> k in b) && (k in a ==> a[k] == b[k])
        {
          assert Same(a, b, k);
        }
      }
    }
  }

  /** On a valid log a fill works exactly for an empty switch: what it holds would be inserted again. */
  lemma {:induction false} FillOfValidLog(log: seq<Update>, t: Target)
    requires AllValid(map[], log)
    ensures FillWorks(log, t) <==> t.device.entries == map[]
  {
    var p := AllowedBy(t.filter);
    if k :| FillWorks(log, t) && k in t.device.entries {
      OnlyAcceptedExactly(t.device.entries, log, p);
      OnlyValid(map[], log, p);
      assert Restrict(map[], p) == map[];
      RemovesTouches(log, k);
      OnlyTouches(log, p, k);
      PresentKeyIsRefused(Restrict(t.device.entries, p), Only(log, p), k);
    }
    ValidIsAccepted(map[], log);
  }

  lemma {:induction false} RemovesTouches(us: seq<Update>, k: Key)
    requires Removes(us, k)
    ensures Touches(us, k)
  {
  }

  /** The first `n` targets are in step after their fills if and only if these fills work. */
  lemma {:induction false} FilledExactly(s: State, n: nat)
    requires n <= |s.targets| && forall i :: 0 <= i < n ==> FillsExactly(s, s.targets[i])
    ensures var (ts, ok) := FilledTargets(s, n);
      ok && InStepUpTo(s.log, ts, n) <==> WorkUpTo(s.log, s.targets, n)
  {
    if n > 0 {
      var (ts, ok) := FilledTargets(s, n - 1);
      FilledExactly(s, n - 1);
      var (t, done) := Filled(s, s.targets[n - 1]);
      InStepNext(s.log, ts, n, t);
      assert FilledTargets(s, n) == if ok then (ts[n - 1 := t], done) else (ts, false);
      assert FillsExactly(s, s.targets[n - 1]);
      WorkNext(s.log, s.targets, n);
    }
  }

  ghost predicate InStepUpTo(log: seq<Update>, targets: seq<Target>, n: nat)
    requires n <= |targets|
  {
    forall i :: 0 <= i < n ==> TargetInSync(log, targets[i])
  }

  ghost predicate WorkUpTo(log: seq<Update>, targets: seq<Target>, n: nat)
    requires n <= |targets|
  {
    forall i :: 0 <= i < n ==> FillWorks(log, targets[i])
  }

  lemma {:induction false} InStepNext(log: seq<Update>, targets: seq<Target>, n: nat, t: Target)
    requires 0 < n <= |targets|
    ensures InStepUpTo(log, targets[n - 1 := t], n) <==> InStepUpTo(log, targets, n - 1) && TargetInSync(log, t)
  {
    var next := targets[n - 1 := t];
    assert next[n - 1] == t && forall i :: 0 <= i < n - 1 ==> next[i] == targets[i];
    if InStepUpTo(log, next, n) {
      forall i | 0 <= i < n - 1
        ensures TargetInSync(log, targets[i])
      {
        assert TargetInSync(log, next[i]);
      }
    }
  }

  lemma {:induction false} WorkNext(log: seq<Update>, targets: seq<Target>, n: nat)
    requires 0 < n <= |targets|
    ensures WorkUpTo(log, targets, n) <==> WorkUpTo(log, targets, n - 1) && FillWorks(log, targets[n - 1])
  {
  }

  lemma {:induction false} FilledAddresses(s: State, n: nat)
    requires n <= |s.targets|
    ensures forall i :: 0 <= i < |s.targets| ==> FilledTargets(s, n).0[i].address == s.targets[i].address
  {
    if n > 0 {
      FilledAddresses(s, n - 1);
    }
  }

  /** A proxy that starts on an existing log, whether it writes the log itself or only reads it, brings every
      target in step if and only if every fill works. */
  lemma {:induction false} RestartExactly(s: State)
    requires s.p4infoStored && UniqueAddresses(s.targets)
    ensures DoFill(s).ok && InStep(s.log, DoFill(s).state.targets) <==> WorkUpTo(s.log, s.targets, |s.targets|)
  {
    forall i | 0 <= i < |s.targets|
      ensures FillsExactly(s, s.targets[i])
    {
      FilledTarget(s, s.targets[i]);
    }
    FilledExactly(s, |s.targets|);
    FilledAddresses(s, |s.targets|);
  }

  predicate AllEmpty(targets: seq<Target>) {
    forall i :: 0 <= i < |targets| ==> targets[i].device.entries == map[]
  }

  /** On a valid log that is: if and only if every switch is empty. */
  lemma {:induction false} RestartOnValidLog(s: State)
    requires s.p4infoStored && UniqueAddresses(s.targets) && LogIsValid(s)
    ensures DoFill(s).ok && InStep(s.log, DoFill(s).state.targets) <==> AllEmpty(s.targets)
  {
    RestartExactly(s);
    forall i | 0 <= i < |s.targets|
      ensures FillWorks(s.log, s.targets[i]) <==> s.targets[i].device.entries == map[]
    {
      FillOfValidLog(s.log, s.targets[i]);
    }
  }

  lemma {:induction false} AddTargetExactly(s: State, t: Target)
    requires Replicated(s)
    ensures DoAddTarget(s, t).ok && Replicated(DoAddTarget(s, t).state) <==> Proper(s, AddTarget(t))
  {
    FilledTarget(s, t);
    RegisteredTarget(s, Filled(s, t).0);
  }

  /** On a valid log a target can be added exactly if its switch is empty. */
  lemma {:induction false} AddTargetOnValidLog(s: State, t: Target)
    requires InSync(s)
    ensures DoAddTarget(s, t).ok && InSync(DoAddTarget(s, t).state) <==> t.device.entries == map[]
  {
    AddTargetExactly(s, t);
    FillOfValidLog(s.log, t);
  }

  lemma {:induction false} LengthenedExactly(s: State, t: Target, adds: AllowList)
    requires TargetInSync(s.log, t) && s.p4infoStored
    ensures Lengthened(s, t, adds).1 && TargetInSync(s.log, Lengthened(s, t, adds).0) <==> AdditionWorks(s.log, t, adds)
  {
    FillOnAnyLog(s.countedTables, t.device, s.log, Selection(t, adds));
    if Lengthened(s, t, adds).1 {
      AdditionExactly(s.log, t, adds, Lengthened(s, t, adds).0.device.entries);
    }
  }

  lemma {:induction false} AdditionExactly(log: seq<Update>, t: Target, adds: AllowList, after: Table)
    requires TargetInSync(log, t) && AcceptedWhere(t.device.entries, log, Selection(t, adds))
    requires forall k ::
      Same(after, if Selection(t, adds)(k) then Replay(t.device.entries, log) else t.device.entries, k)
    ensures after == View(log, AllowOnly(Extended(Lists(t.filter), adds))) <==> AdditionWorks(log, t, adds)
  {
    var p, f := Selection(t, adds), AllowOnly(Extended(Lists(t.filter), adds));
    forall k
      ensures Same(after, View(log, f), k) <==>
        (k in Replay(map[], log) && !p(k) ==> (Allows(t.filter, k) <==> Allows(f, k)))
    {
      if p(k) {
        ReplayForgets(t.device.entries, log, p, k);
      }
    }
    SameEverywhere(after, View(log, f));
  }

  lemma {:induction false} AddFilterExactly(s: State, address: string, adds: AllowList)
    requires Replicated(s)
    ensures DoAddFilter(s, address, adds).ok && Replicated(DoAddFilter(s, address, adds).state) <==>
      Proper(s, AddFilter(address, adds))
  {
    var i := Find(s.targets, address);
    if i < |s.targets| {
      assert TargetInSync(s.log, s.targets[i]);
      LengthenedExactly(s, s.targets[i], adds);
      OneTargetChanged(s, i, Lengthened(s, s.targets[i], adds).0, s.bank);
    }
  }

  /** On a valid log lengthening lists works exactly if the selection is what the longer lists newly allow. */
  lemma {:induction false} AdditionOnValidLog(s: State, t: Target, adds: AllowList)
    requires AllValid(map[], s.log) && TargetInSync(s.log, t) && s.p4infoStored
    ensures AdditionWorks(s.log, t, adds) <==> AdditionFits(t, Virtual(s), adds)
  {
    LengthenedExactly(s, t, adds);
    var p := Selection(t, adds);
    FillExactly(s.countedTables, t.device, s.log, p);
    var (d, ok) := DeviceFill(s.countedTables, t.device, Only(s.log, p));
    FillOfLongerLists(s.log, t, d.entries, ok, adds, p);
  }

  lemma {:induction false} AddFilterOnValidLog(s: State, address: string, adds: AllowList)
    requires InSync(s)
    ensures DoAddFilter(s, address, adds).ok && InSync(DoAddFilter(s, address, adds).state) <==>
      Find(s.targets, address) < |s.targets| &&
      AdditionFits(s.targets[Find(s.targets, address)], Virtual(s), adds)
  {
    AddFilterExactly(s, address, adds);
    var i := Find(s.targets, address);
    if i < |s.targets| {
      assert TargetInSync(s.log, s.targets[i]);
      AdditionOnValidLog(s, s.targets[i], adds);
    }
  }

  /** Adding the part `n && b` to the part `a` of a table gives the part `b`, without a collision,
      exactly when `n` selects what `b` adds to `a`. */
  lemma {:induction false} OverlayExactly(
    live: Table, a: Key -> bool, n: Key -> bool, b: Key -> bool, p: Key -> bool, after: Table, ok: bool)
    requires forall k :: p(k) <==> n(k) && b(k)
    requires ok <==> forall k :: k in live && a(k) ==> !p(k)
    requires ok ==> after == Restrict(live, a) + Restrict(live, p)
    ensures ok && after == Restrict(live, b) <==>
      forall k :: k in live ==> if a(k) then b(k) && !n(k) else b(k) ==> n(k)
  {
    if ok && after == Restrict(live, b) {
      forall k | k in live
        ensures if a(k) then b(k) && !n(k) else b(k) ==> n(k)
      {
        assert k in after <==> b(k);
      }
    }
  }

  lemma {:induction false} FillOfLongerLists(
    log: seq<Update>, t: Target, after: Table, ok: bool, adds: AllowList, p: Key -> bool)
    requires AllValid(map[], log) && TargetInSync(log, t)
    requires forall k :: p(k) <==>
      Allows(AllowOnly(Added(Lists(t.filter), adds)), k) && Allows(AllowOnly(Extended(Lists(t.filter), adds)), k)
    requires ok <==> forall k :: k in t.device.entries && p(k) ==> !Touches(log, k)
    requires ok ==> after == t.device.entries + Restrict(Replay(map[], log), p)
    ensures ok && after == View(log, AllowOnly(Extended(Lists(t.filter), adds))) <==>
      AdditionFits(t, Replay(map[], log), adds)
  {
    var live := Replay(map[], log);
    var f, added := AllowOnly(Extended(Lists(t.filter), adds)), AllowOnly(Added(Lists(t.filter), adds));
    forall k | k in live
      ensures Touches(log, k)
    {
      LiveIsTouched(log, k);
    }
    OverlayExactly(live, AllowedBy(t.filter), AllowedBy(added), AllowedBy(f), p, after, ok);
  }

  lemma {:induction false} PurgeEntries(counted: set<nat>, writing: bool, d: Switch, bank: seq<Entity>, us: seq<Update>)
    ensures Purge(counted, writing, d, bank, us).0.entries == map k | k in d.entries && !Touches(us, k) :: d.entries[k]
  {
    if us != [] {
      var init, u := us[..|us| - 1], us[|us| - 1];
      PurgeEntries(counted, writing, d, bank, init);
      assert us == init + [u];
      forall k {
        TouchesAppend(init, u, k);
      }
    }
  }

  lemma {:induction false} PurgeOfShorterLists(log: seq<Update>, t: Target, f: Filter, us: seq<Update>)
    requires TargetInSync(log, t)
    requires us == Only(log, Leaving(t.filter, f))
    requires forall k :: Allows(f, k) ==> Allows(t.filter, k)
    ensures (map k | k in t.device.entries && !Touches(us, k) :: t.device.entries[k]) == View(log, f)
  {
    forall k | k in Replay(map[], log)
      ensures Allows(f, k) <==> Allows(t.filter, k) && !Touches(us, k)
    {
      LiveIsTouched(log, k);
      OnlyTouches(log, Leaving(t.filter, f), k);
    }
  }

  lemma {:induction false} RemoveFilterExactly(s: State, address: string, removals: AllowList)
    requires Replicated(s)
    ensures Replicated(DoRemoveFilter(s, address, removals).state)
    ensures DoRemoveFilter(s, address, removals).ok <==> Proper(s, RemoveFilter(address, removals))
  {
    if Proper(s, RemoveFilter(address, removals)) {
      var i := Find(s.targets, address);
      var t := s.targets[i];
      var f := ShorterFilter(t.filter, removals);
      var us := PurgeUpdates(s, t.filter, f);
      var (d, b) := Purge(s.countedTables, s.mode.IsWriting(), t.device, s.bank, us);
      PurgeEntries(s.countedTables, s.mode.IsWriting(), t.device, s.bank, us);
      forall k | Allows(f, k)
        ensures Allows(t.filter, k)
      {
        if t.filter.AllowOnly? {
          ShorteningShrinks(t.filter.lists, removals, k);
        }
      }
      assert TargetInSync(s.log, t);
      PurgeOfShorterLists(s.log, t, f, us);
      OneTargetChanged(s, i, Target(address, f, d), b);
    }
  }

  /** Every call, in both directions and on any log: it succeeds and keeps every replica equal to the
      recomputation from the log exactly when its condition holds, and the log stays valid exactly when the
      call logs valid updates. */
  lemma {:induction false} StepExactly(s: State, op: Op)
    requires Replicated(s)
    ensures Do(s, op).ok && Replicated(Do(s, op).state) <==> Proper(s, op)
    ensures LogIsValid(Do(s, op).state) <==> LogIsValid(s) && Issued(s, op)
  {
    match op
    case Write(us) => WriteExactly(s, us);
    case AddTarget(t) => AddTargetExactly(s, t);
    case RemoveTarget(a) => RemoveTargetKeeps(s, a);
    case AddFilter(a, adds) => AddFilterExactly(s, a, adds);
    case RemoveFilter(a, removals) => RemoveFilterExactly(s, a, removals);
    case Traffic(a, id, amount) => TrafficExactly(s, a, id, amount);
  }

  lemma {:induction false} TrafficExactly(s: State, address: string, id: Identifier, amount: Count)
    requires Replicated(s)
    ensures Replicated(DoTraffic(s, address, id, amount).state)
  {
    var i := Find(s.targets, address);
    if i < |s.targets| {
      assert TargetInSync(s.log, s.targets[i]);
      OneTargetChanged(s, i, DoTraffic(s, address, id, amount).state.targets[i], s.bank);
    }
  }

  /** A condition holds of every call of a run and of the state in which it is made. */
  ghost predicate Each(s: State, ops: seq<Op>, p: (State, Op) -> bool) {
    forall i :: 0 <= i < |ops| ==> At(s, ops, i, p)
  }

  ghost predicate At(s: State, ops: seq<Op>, i: nat, p: (State, Op) -> bool)
    requires i < |ops|
  {
    p(Run(s, ops[..i]), ops[i])
  }

  lemma {:induction false} EachNext(s: State, ops: seq<Op>, p: (State, Op) -> bool)
    requires ops != []
    ensures Each(s, ops, p) <==> Each(s, ops[..|ops| - 1], p) && At(s, ops, |ops| - 1, p)
  {
    var n := |ops| - 1;
    forall i | 0 <= i < n
      ensures At(s, ops[..n], i, p) <==> At(s, ops, i, p)
    {
      assert ops[..n][..i] == ops[..i];
    }
    if Each(s, ops, p) {
      forall i | 0 <= i < n
        ensures At(s, ops[..n], i, p)
      {
        assert At(s, ops, i, p);
      }
    }
  }

  lemma {:induction false} EachSame(s: State, ops: seq<Op>, p: (State, Op) -> bool, q: (State, Op) -> bool)
    requires forall s, op :: p(s, op) <==> q(s, op)
    ensures Each(s, ops, p) <==> Each(s, ops, q)
  {
    assert forall i :: 0 <= i < |ops| ==> (At(s, ops, i, p) <==> At(s, ops, i, q));
  }

  /** The call succeeds and leaves every replica in step. */
  ghost predicate Keeps(s: State, op: Op) {
    Do(s, op).ok && Replicated(Do(s, op).state)
  }

  ghost predicate ProperRun(s: State, ops: seq<Op>) {
    Each(s, ops, Proper)
  }

  ghost predicate IssuedRun(s: State, ops: seq<Op>) {
    Each(s, ops, Issued)
  }

  /** Incremental view maintenance over whole runs, exactly: every call succeeds and leaves every replica
      equal to the recomputation from the log if and only if every call meets its condition. */
  lemma {:induction false} RunExactly(s: State, ops: seq<Op>)
    requires Replicated(s)
    ensures Each(s, ops, Keeps) <==> ProperRun(s, ops)
    ensures ProperRun(s, ops) ==> Replicated(Run(s, ops))
    ensures ProperRun(s, ops) ==> (LogIsValid(Run(s, ops)) <==> LogIsValid(s) && IssuedRun(s, ops))
  {
    if ops != [] {
      var n := |ops| - 1;
      RunExactly(s, ops[..n]);
      EachNext(s, ops, Proper);
      EachNext(s, ops, Issued);
      EachNext(s, ops, Keeps);
      if ProperRun(s, ops[..n]) {
        StepExactly(Run(s, ops[..n]), ops[n]);
      }
    }
  }

  lemma {:induction false} RunKeepsInSync(s: State, ops: seq<Op>)
    requires InSync(s) && ProperRun(s, ops) && IssuedRun(s, ops)
    ensures InSync(Run(s, ops))
  {
    RunExactly(s, ops);
  }

  /** Calls that replay nothing of the log. */
  predicate ReplaysNothing(op: Op) {
    match op
    case Write(us) => HandledPrefix(us) == |us|
    case AddTarget(_) => false
    case AddFilter(_, _) => false
    case _ => true
  }

  /** As long as nothing is replayed, the replicas stay equal to the recomputation whatever the controllers
      write, and whatever calls are refused. */
  lemma {:induction false} RunWithoutReplay(s: State, ops: seq<Op>)
    requires Replicated(s) && forall i :: 0 <= i < |ops| ==> ReplaysNothing(ops[i])
    ensures Replicated(Run(s, ops))
  {
    if ops != [] {
      var n := |ops| - 1;
      RunWithoutReplay(s, ops[..n]);
      StepWithoutReplay(Run(s, ops[..n]), ops[n]);
    }
  }

  lemma {:induction false} StepWithoutReplay(s: State, op: Op)
    requires Replicated(s) && ReplaysNothing(op)
    ensures Replicated(Do(s, op).state)
  {
    match op
    case Write(us) => HandledWrite(s, us);
    case RemoveTarget(a) => RemoveTargetKeeps(s, a);
    case RemoveFilter(a, removals) => RemoveFilterExactly(s, a, removals);
    case Traffic(a, id, amount) => TrafficExactly(s, a, id, amount);
  }

  lemma {:induction false} RemoveTargetKeeps(s: State, address: string)
    requires Replicated(s)
    ensures Replicated(DoRemoveTarget(s, address).state)
    ensures DoRemoveTarget(s, address).ok <==> Find(s.targets, address) < |s.targets|
  {
  }

  // ----- consequences -----

  /** Adding values of one parameter keeps the replica in step if and only if either the parameter is
      listed already and every entry the target holds carries it as an exact match, or the parameter is
      new and the target holds nothing. */
  lemma {:induction false} AddOneParameterExactly(s: State, address: string, param: string, vs: seq<Value>)
    requires InSync(s) && Find(s.targets, address) < |s.targets|
    requires forall k :: k in Virtual(s) ==> DistinctFields(k)
    ensures var t := s.targets[Find(s.targets, address)];
      var o := DoAddFilter(s, address, map[param := vs]);
      o.ok && InSync(o.state) <==>
        if param in Lists(t.filter) then forall k :: k in t.device.entries ==> HasExact(k, param)
        else t.device.entries == map[]
  {
    AddFilterOnValidLog(s, address, map[param := vs]);
    var t := s.targets[Find(s.targets, address)];
    assert TargetInSync(s.log, t);
    OneParameterFits(t, Virtual(s), param, vs);
  }

  lemma {:induction false} OneParameterFits(t: Target, live: Table, param: string, vs: seq<Value>)
    requires t.device.entries == Restrict(live, AllowedBy(t.filter))
    requires forall k :: k in live ==> DistinctFields(k)
    ensures AdditionFits(t, live, map[param := vs]) <==>
      if param in Lists(t.filter) then forall k :: k in t.device.entries ==> HasExact(k, param)
      else t.device.entries == map[]
  {
    forall k | k in live
      ensures AdditionFitsKey(t, k, map[param := vs]) <==>
        (k in t.device.entries ==> param in Lists(t.filter) && HasExact(k, param))
    {
      if param in Lists(t.filter) {
        ListedParameter(t.filter.lists, param, vs, k);
      } else {
        UnlistedParameter(t.filter, param, vs, k);
      }
    }
    assert forall k :: k in t.device.entries ==> k in live;
    if param !in Lists(t.filter) && t.device.entries != map[] {
      var k :| k in t.device.entries;
      assert !AdditionFitsKey(t, k, map[param := vs]);
    }
  }

  /** Taking a value off the list and putting it back restores the table of the target. */
  lemma {:induction false} RemoveAndAddBack(s: State, address: string, param: string, v: Value)
    requires InSync(s) && Find(s.targets, address) < |s.targets|
    requires param in Lists(s.targets[Find(s.targets, address)].filter)
    requires v in Lists(s.targets[Find(s.targets, address)].filter)[param]
    requires forall k :: k in Virtual(s) ==> DistinctFields(k) && HasExact(k, param)
    ensures var i := Find(s.targets, address);
      var o1 := DoRemoveFilter(s, address, map[param := [v]]);
      var o2 := DoAddFilter(o1.state, address, map[param := [v]]);
      && o1.ok && o2.ok && InSync(o2.state)
      && |o2.state.targets| == |s.targets|
      && o2.state.targets[i].device.entries == s.targets[i].device.entries
  {
    var i := Find(s.targets, address);
    var lists := s.targets[i].filter.lists;
    var change := map[param := [v]];
    AfterRemoval(s, address, change);
    var s1 := DoRemoveFilter(s, address, change).state;
    AddOneParameterExactly(s1, address, param, [v]);
    assert TargetInSync(s.log, s1.targets[i]);
    AfterAddition(s1, address, change);
    var s2 := DoAddFilter(s1, address, change).state;
    assert TargetInSync(s.log, s2.targets[i]) && TargetInSync(s.log, s.targets[i]);
    SameView(s.log, param, v, lists);
  }

  lemma {:induction false} AfterRemoval(s: State, address: string, removals: AllowList)
    requires InSync(s) && Find(s.targets, address) < |s.targets| &&
      s.targets[Find(s.targets, address)].filter.AllowOnly?
    ensures var o := DoRemoveFilter(s, address, removals);
      var i := Find(s.targets, address);
      && o.ok && InSync(o.state) && o.state.log == s.log && |o.state.targets| == |s.targets| &&
        Find(o.state.targets, address) == i
      && o.state.targets[i].filter == AllowOnly(Shortened(s.targets[i].filter.lists, removals))
  {
    RemoveFilterExactly(s, address, removals);
    SameFind(s.targets, DoRemoveFilter(s, address, removals).state.targets, address);
  }

  lemma {:induction false} AfterAddition(s: State, address: string, adds: AllowList)
    requires Find(s.targets, address) < |s.targets|
    ensures var s' := DoAddFilter(s, address, adds).state;
      var i := Find(s.targets, address);
      && s'.log == s.log && |s'.targets| == |s.targets|
      && s'.targets[i].filter == AllowOnly(Extended(Lists(s.targets[i].filter), adds))
  {
  }

  lemma {:induction false} SameView(log: seq<Update>, param: string, v: Value, lists: AllowList)
    requires param in lists && v in lists[param]
    ensures var change := map[param := [v]];
      View(log, AllowOnly(Extended(Shortened(lists, change), change))) == View(log, AllowOnly(lists))
  {
    var change := map[param := [v]];
    forall k
      ensures Allows(AllowOnly(Extended(Shortened(lists, change), change)), k) <==> Allows(AllowOnly(lists), k)
    {
      RemoveThenAdd(lists, param, v, k);
    }
  }

  lemma {:induction false} SameFind(a: seq<Target>, b: seq<Target>, address: string)
    requires |a| == |b| && forall i :: 0 <= i < |a| ==> a[i].address == b[i].address
    ensures Find(a, address) == Find(b, address)
  {
    if a != [] {
      SameFind(a[1..], b[1..], address);
    }
  }

  /** Lengthening two lists in one call loses the entries that need an old value of one and a new value
      of the other, because the selection that is replayed asks for a new value of both: a target in step
      loses its step, although the call may succeed. */
  lemma {:induction false} TwoParametersAtOnce(s: State, address: string, k: Key, a: Value, b: Value)
    requires InSync(s) && Find(s.targets, address) < |s.targets|
    requires s.targets[Find(s.targets, address)].filter == AllowOnly(map["src" := [a], "dst" := [a]])
    requires a != b && k in Virtual(s) && k.fields == [Exact("src", b), Exact("dst", a)]
    ensures var o := DoAddFilter(s, address, map["src" := [b], "dst" := [b]]);
      !(o.ok && Replicated(o.state))
  {
    var t, adds: AllowList := s.targets[Find(s.targets, address)], map["src" := [b], "dst" := [b]];
    AddFilterOnValidLog(s, address, adds);
    MissedByTwoParameters(t, k, a, b);
    assert !AdditionFits(t, Virtual(s), adds);
  }

  lemma {:induction false} MissedByTwoParameters(t: Target, k: Key, a: Value, b: Value)
    requires t.filter == AllowOnly(map["src" := [a], "dst" := [a]])
    requires a != b && k.fields == [Exact("src", b), Exact("dst", a)]
    ensures !AdditionFitsKey(t, k, map["src" := [b], "dst" := [b]])
  {
    var lists: AllowList := map["src" := [a], "dst" := [a]];
    var adds: AllowList := map["src" := [b], "dst" := [b]];
    assert !FieldAllowed(k.fields[0], lists);
    assert !FieldAllowed(k.fields[1], Added(lists, adds));
    var longer := Extended(lists, adds);
    assert longer["src"] == [a] + Fresh([a], [b]) && longer["dst"] == [a] + Fresh([a], [b]);
    forall i | 0 <= i < |k.fields|
      ensures FieldAllowed(k.fields[i], longer)
    {
    }
    assert Allows(AllowOnly(longer), k);
  }

  /** The purge on a switch that answers NOT_FOUND when an absent entry is deleted. */
  ghost predicate PurgeWithoutError(s: State, t: Target, us: seq<Update>) {
    forall i :: 0 <= i < |us| ==> DeletionIsValid(s, t, us, i)
  }

  ghost predicate DeletionIsValid(s: State, t: Target, us: seq<Update>, i: nat)
    requires i < |us|
  {
    Valid(Purge(s.countedTables, true, t.device, s.bank, us[..i]).0.entries, us[i].(kind := Delete))
  }

  lemma {:induction false} DeletionIsValidWhenFirst(s: State, t: Target, us: seq<Update>, i: nat)
    requires i < |us|
    ensures DeletionIsValid(s, t, us, i) <==>
      us[i].key in t.device.entries && forall j :: 0 <= j < i ==> us[j].key != us[i].key
  {
    PurgeEntries(s.countedTables, true, t.device, s.bank, us[..i]);
    assert Touches(us[..i], us[i].key) <==> exists j :: 0 <= j < i && us[j].key == us[i].key by {
      if j :| 0 <= j < i && us[j].key == us[i].key {
        assert us[..i][j].key == us[i].key;
      }
    }
  }

  /** On such a switch the purge of a replica runs through exactly when no departing entry has more than
      one update in the log: a later MODIFY, or a DELETE, makes a second deletion of the same entry. */
  lemma {:induction false} PurgeOnStrictSwitch(s: State, t: Target, f: Filter)
    requires InSync(s) && t in s.targets
    ensures var us := PurgeUpdates(s, t.filter, f);
      PurgeWithoutError(s, t, us) <==> forall i, j :: 0 <= i < j < |us| ==> us[i].key != us[j].key
  {
    var p := Leaving(t.filter, f);
    var us := PurgeUpdates(s, t.filter, f);
    assert us == Only(s.log, p);
    forall i | 0 <= i < |us|
      ensures DeletionIsValid(s, t, us, i) <==>
        us[i].key in t.device.entries && forall j :: 0 <= j < i ==> us[j].key != us[i].key
    {
      DeletionIsValidWhenFirst(s, t, us, i);
    }
    if forall i, j :: 0 <= i < j < |us| ==> us[i].key != us[j].key {
      forall i | 0 <= i < |us|
        ensures us[i].key in t.device.entries
      {
        DepartingKeyIsHeld(s.log, t, p, us, i);
      }
    } else {
      var i, j :| 0 <= i < j < |us| && us[i].key == us[j].key;
      assert !DeletionIsValid(s, t, us, j);
    }
  }

  lemma {:induction false} DepartingKeyIsHeld(log: seq<Update>, t: Target, p: Key -> bool, us: seq<Update>, i: nat)
    requires AllValid(map[], log) && TargetInSync(log, t)
    requires us == Only(log, p) && i < |us|
    requires forall k :: p(k) ==> Allows(t.filter, k)
    requires forall i, j :: 0 <= i < j < |us| ==> us[i].key != us[j].key
    ensures us[i].key in t.device.entries
  {
    OnlyValid(map[], log, p);
    ReplayOnly(map[], log, p);
    assert Restrict(map[], p) == map[];
    OnlyUpdateIsLive(us, i);
    assert us[i].key in Restrict(Replay(map[], log), p);
  }

  lemma {:induction false} OnlyUpdateIsLive(us: seq<Update>, i: nat)
    requires AllValid(map[], us) && i < |us|
    requires forall j :: 0 <= j < |us| && j != i ==> us[j].key != us[i].key
    ensures us[i].key in Replay(map[], us)
  {
    Untouched(map[], us[..i], us[i].key);
    assert Valid(Replay(map[], us[..i]), us[i]);
    assert us == us[..i + 1] + us[i + 1..] && us[..i + 1][..i] == us[..i];
    ReplayAppend(map[], us[..i + 1], us[i + 1..]);
    Untouched(Replay(map[], us[..i + 1]), us[i + 1..], us[i].key);
  }
}
