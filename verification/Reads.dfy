/** What a Read answers: the answers of all targets to all entities of the request, what the bank adds to
    them, and the merge (`proxy.py`, `common/entity_helper.py`). */
module Reads {
  import opened Tables
  import opened AllowLists
  import opened Entities
  import opened Replicas
  import opened Conservation

  // ----- requests -----

  /** One entity of a read request: counters, direct counters, or table entries; all of them, those of one
      array or table, or a single one. */
  datatype Query =
    | AllCells
    | CellsOf(counterId: nat)
    | OneCell(cell: Cell)
    | AllDirectCounters
    | DirectCountersOf(table: nat)
    | OneDirectCounter(key: Key)
    | AllTables
    | EntriesOf(table: nat)
    | OneEntry(key: Key)

  predicate AsksForEntries(q: Query) {
    q.AllTables? || q.EntriesOf? || q.OneEntry?
  }

  /** The query asks for the counter. */
  predicate Asks(q: Query, id: Identifier) {
    match q
    case AllCells => id.CellId?
    case CellsOf(c) => id.CellId? && id.cell.counterId == c
    case OneCell(c) => id == CellId(c)
    case AllDirectCounters => id.EntryId?
    case DirectCountersOf(t) => id.EntryId? && id.key.table == t
    case OneDirectCounter(k) => id == EntryId(k)
    case _ => false
  }

  /** The query asks for the table entry. */
  predicate Wants(q: Query, k: Key) {
    match q
    case AllTables => true
    case EntriesOf(t) => k.table == t
    case OneEntry(key) => k == key
    case _ => false
  }

  predicate AnyWants(qs: seq<Query>, k: Key) {
    exists i :: 0 <= i < |qs| && Wants(qs[i], k)
  }

  /** How often the request asks for the counter. */
  function TimesAsked(qs: seq<Query>, id: Identifier): nat {
    if qs == [] then 0 else TimesAsked(qs[..|qs| - 1], id) + if Asks(qs[|qs| - 1], id) then 1 else 0
  }

  predicate Answers(q: Query, e: Entity) {
    match e
    case CounterEntry(cell, _) => Asks(q, CellId(cell))
    case DirectCounterEntry(key, _) => Asks(q, EntryId(key))
    case _ => false
  }

  function Answering(q: Query): Entity -> bool {
    e => Answers(q, e)
  }

  // ----- what is received -----

  predicate Answered(t: Table, qs: seq<Query>, e: Entity) {
    e.TableEntry? && e.key in t && AnyWants(qs, e.key) && t[e.key] == e.action
  }

  ghost predicate AnsweredBySome(targets: seq<Target>, qs: seq<Query>, e: Entity) {
    exists i :: 0 <= i < |targets| && Answered(targets[i].device.entries, qs, e)
  }

  ghost predicate ReportedLive(ts: seq<Target>, id: Identifier) {
    exists i :: 0 <= i < |ts| && Reports(ts[i].device.counters, id)
  }

  predicate IsAnswer(e: Entity) {
    e.TableEntry? || IsCounter(e)
  }

  predicate AnswersOnly(xs: seq<Entity>) {
    forall i :: 0 <= i < |xs| ==> IsAnswer(xs[i])
  }

  /** Every counter is there as often as it is asked for and reported. */
  ghost predicate CountedIn(targets: seq<Target>, qs: seq<Query>, xs: seq<Entity>, id: Identifier, unit: Unit) {
    && CountOf(xs, id, unit) == Times(TimesAsked(qs, id), LiveCount(targets, id, unit))
    && (Reports(xs, id) <==> TimesAsked(qs, id) > 0 && ReportedLive(targets, id))
  }

  ghost predicate ListedIn(targets: seq<Target>, qs: seq<Query>, xs: seq<Entity>, e: Entity) {
    e.TableEntry? ==> (e in xs <==> AnsweredBySome(targets, qs, e))
  }

  /** The list has what the targets answer to the request and nothing else, in any order. */
  ghost predicate Collected(targets: seq<Target>, qs: seq<Query>, xs: seq<Entity>) {
    && AnswersOnly(xs)
    && (forall id, unit :: CountedIn(targets, qs, xs, id, unit))
    && (forall e :: ListedIn(targets, qs, xs, e))
  }

  lemma {:induction false} NothingCollected(targets: seq<Target>, qs: seq<Query>)
    requires targets == [] || qs == []
    ensures Collected(targets, qs, [])
  {
    forall id, unit
      ensures CountedIn(targets, qs, [], id, unit)
    {
      NoMultiple(TimesAsked(qs, id), LiveCount(targets, id, unit));
    }
  }

  lemma {:induction false} TimesAdd(m: nat, n: nat, c: nat)
    ensures Times(m + n, c) == Times(m, c) + Times(n, c)
  {
    if n > 0 {
      TimesAdd(m, n - 1, c);
    }
  }

  lemma {:induction false} TimesOfSum(m: nat, a: nat, b: nat)
    ensures Times(m, a + b) == Times(m, a) + Times(m, b)
  {
    if m > 0 {
      TimesOfSum(m - 1, a, b);
    }
  }

  lemma {:induction false} AskedAppend(qs: seq<Query>, q: Query, id: Identifier)
    ensures TimesAsked(qs + [q], id) == TimesAsked(qs, id) + TimesAsked([q], id)
    ensures TimesAsked([q], id) == if Asks(q, id) then 1 else 0
  {
    assert (qs + [q])[..|qs|] == qs && [q][..0] == [];
  }

  lemma {:induction false} WantsAppend(qs: seq<Query>, q: Query, k: Key)
    ensures AnyWants(qs + [q], k) <==> AnyWants(qs, k) || Wants(q, k)
    ensures AnyWants([q], k) <==> Wants(q, k)
  {
    var all := qs + [q];
    if i :| 0 <= i < |qs| && Wants(qs[i], k) {
      assert Wants(all[i], k);
    }
    assert all[|qs|] == q && [q][0] == q;
  }

  lemma {:induction false} ReportsAppend(xs: seq<Entity>, ys: seq<Entity>, id: Identifier)
    ensures Reports(xs + ys, id) <==> Reports(xs, id) || Reports(ys, id)
  {
    if e :| e in xs && Carries(e, id) {
      assert e in xs + ys;
    }
    if e :| e in ys && Carries(e, id) {
      assert e in xs + ys;
    }
  }

  lemma {:induction false} LiveAppends(a: seq<Target>, b: seq<Target>, id: Identifier)
    ensures ReportedLive(a + b, id) <==> ReportedLive(a, id) || ReportedLive(b, id)
  {
    var all := a + b;
    if i :| 0 <= i < |a| && Reports(a[i].device.counters, id) {
      assert Reports(all[i].device.counters, id);
    }
    if i :| 0 <= i < |b| && Reports(b[i].device.counters, id) {
      assert Reports(all[|a| + i].device.counters, id);
    }
  }

  lemma {:induction false} AnsweredAppends(a: seq<Target>, b: seq<Target>, qs: seq<Query>, e: Entity)
    ensures AnsweredBySome(a + b, qs, e) <==> AnsweredBySome(a, qs, e) || AnsweredBySome(b, qs, e)
  {
    var all := a + b;
    if i :| 0 <= i < |a| && Answered(a[i].device.entries, qs, e) {
      assert Answered(all[i].device.entries, qs, e);
    }
    if i :| 0 <= i < |b| && Answered(b[i].device.entries, qs, e) {
      assert Answered(all[|a| + i].device.entries, qs, e);
    }
  }

  /** The answers of more targets. */
  lemma {:induction false} MoreTargets(a: seq<Target>, b: seq<Target>, qs: seq<Query>, xs: seq<Entity>, ys: seq<Entity>)
    requires Collected(a, qs, xs) && Collected(b, qs, ys)
    ensures Collected(a + b, qs, xs + ys)
  {
    forall id, unit
      ensures CountedIn(a + b, qs, xs + ys, id, unit)
    {
      MoreTargetsCounted(a, b, qs, xs, ys, id, unit);
    }
    forall e
      ensures ListedIn(a + b, qs, xs + ys, e)
    {
      assert ListedIn(a, qs, xs, e) && ListedIn(b, qs, ys, e);
      AnsweredAppends(a, b, qs, e);
    }
  }

  lemma {:induction false} MoreTargetsCounted(
    a: seq<Target>, b: seq<Target>, qs: seq<Query>, xs: seq<Entity>, ys: seq<Entity>, id: Identifier, unit: Unit)
    requires CountedIn(a, qs, xs, id, unit) && CountedIn(b, qs, ys, id, unit)
    ensures CountedIn(a + b, qs, xs + ys, id, unit)
  {
    WeightAppend(xs, ys, Under(id), unit);
    LiveAppend(a, b, id, unit);
    TimesOfSum(TimesAsked(qs, id), LiveCount(a, id, unit), LiveCount(b, id, unit));
    ReportsAppend(xs, ys, id);
    LiveAppends(a, b, id);
  }

  /** The answers to one more query. */
  lemma {:induction false} OneMoreQuery(ts: seq<Target>, qs: seq<Query>, q: Query, xs: seq<Entity>, ys: seq<Entity>)
    requires Collected(ts, qs, xs) && Collected(ts, [q], ys)
    ensures Collected(ts, qs + [q], xs + ys)
  {
    forall id, unit
      ensures CountedIn(ts, qs + [q], xs + ys, id, unit)
    {
      assert CountedIn(ts, qs, xs, id, unit) && CountedIn(ts, [q], ys, id, unit);
      WeightAppend(xs, ys, Under(id), unit);
      AskedAppend(qs, q, id);
      TimesAdd(TimesAsked(qs, id), TimesAsked([q], id), LiveCount(ts, id, unit));
      ReportsAppend(xs, ys, id);
    }
    forall e
      ensures ListedIn(ts, qs + [q], xs + ys, e)
    {
      assert ListedIn(ts, qs, xs, e) && ListedIn(ts, [q], ys, e);
      OneMoreAnswered(ts, qs, q, e);
    }
  }

  lemma {:induction false} OneMoreAnswered(ts: seq<Target>, qs: seq<Query>, q: Query, e: Entity)
    ensures AnsweredBySome(ts, qs + [q], e) <==> AnsweredBySome(ts, qs, e) || AnsweredBySome(ts, [q], e)
  {
    forall i | 0 <= i < |ts|
      ensures Answered(ts[i].device.entries, qs + [q], e) <==>
        Answered(ts[i].device.entries, qs, e) || Answered(ts[i].device.entries, [q], e)
    {
      if e.TableEntry? {
        WantsAppend(qs, q, e.key);
      }
    }
  }

  // ----- the answers of one target to one query -----

  lemma {:induction false} CountersAnswered(t: Target, q: Query)
    requires Consistent(t.device) && !AsksForEntries(q)
    ensures Collected([t], [q], Select(t.device.counters, Answering(q)))
  {
    var counters := t.device.counters;
    var xs := Select(counters, Answering(q));
    forall i | 0 <= i < |xs|
      ensures IsAnswer(xs[i])
    {
      SelectionIsPart(counters, Answering(q), xs[i]);
    }
    forall id, unit
      ensures CountedIn([t], [q], xs, id, unit)
    {
      AnswerCounts(t, q, id, unit);
    }
    forall e
      ensures ListedIn([t], [q], xs, e)
    {
      if e.TableEntry? && e in xs {
        SelectionIsPart(counters, Answering(q), e);
      }
      if e.TableEntry? {
        WantsAppend([], q, e.key);
      }
    }
  }

  lemma {:induction false} AnswerCounts(t: Target, q: Query, id: Identifier, unit: Unit)
    requires Countable(t.device.counters)
    ensures CountedIn([t], [q], Select(t.device.counters, Answering(q)), id, unit)
  {
    var counters, p := t.device.counters, Answering(q);
    assert [t][..0] == [] && [t][0] == t;
    AskedAppend([], q, id);
    SelectionReports(counters, q, id);
    if Asks(q, id) {
      WeightOfSelection(counters, p, Under(id), Under(id), unit);
      assert Times(1, CountOf(counters, id, unit)) ==
        Times(0, CountOf(counters, id, unit)) + CountOf(counters, id, unit);
    } else {
      WeightOfSelection(counters, p, Under(id), _ => false, unit);
      WeightOfNothing(counters, _ => false, unit);
    }
  }

  lemma {:induction false} SelectionReports(xs: seq<Entity>, q: Query, id: Identifier)
    ensures Reports(Select(xs, Answering(q)), id) <==> Asks(q, id) && Reports(xs, id)
  {
    var p := Answering(q);
    if e :| e in Select(xs, p) && Carries(e, id) {
      SelectionIsPart(xs, p, e);
    }
    if Asks(q, id) {
      if e :| e in xs && Carries(e, id) {
        SelectionHas(xs, p, e);
      }
    }
  }

  predicate AnsweredOnce(t: Table, q: Query, e: Entity) {
    e.TableEntry? && e.key in t && Wants(q, e.key) && t[e.key] == e.action
  }

  lemma {:induction false} EntriesAnswered(t: Target, q: Query, xs: seq<Entity>)
    requires AsksForEntries(q)
    requires forall e :: e in xs <==> AnsweredOnce(t.device.entries, q, e)
    ensures Collected([t], [q], xs)
  {
    forall i | 0 <= i < |xs|
      ensures xs[i].TableEntry?
    {
      assert xs[i] in xs;
    }
    forall id, unit
      ensures CountedIn([t], [q], xs, id, unit)
    {
      AskedAppend([], q, id);
      NotReported(xs, id, unit);
    }
    forall e
      ensures ListedIn([t], [q], xs, e)
    {
      assert [t][0] == t;
      if e.TableEntry? {
        WantsAppend([], q, e.key);
      }
    }
  }

  // ----- the bank -----

  /** Banked counters join if something with their identifier was received. */
  function Joined(received: seq<Entity>, bank: seq<Entity>): (r: seq<Entity>)
    requires Supported(received) && Countable(bank)
    ensures Supported(r)
  {
    if bank == [] then received
    else
      var r, e := Joined(received, bank[..|bank| - 1]), bank[|bank| - 1];
      assert e in bank;
      if Mergeable(e, r) then r + [e] else r
  }

  lemma {:induction false} MergeableIsReported(e: Entity, xs: seq<Entity>)
    requires IsCounter(e) && Supported(xs)
    ensures Mergeable(e, xs) <==> Reports(xs, Identify(e))
  {
    if e' :| e' in xs && Carries(e', Identify(e)) {
      var i :| 0 <= i < |xs| && xs[i] == e';
      assert Identify(xs[i]) == Identify(e);
    }
    if Mergeable(e, xs) {
      var i :| 0 <= i < |xs| && Identify(xs[i]) == Identify(e);
      assert xs[i] in xs && Carries(xs[i], Identify(e));
    }
  }

  /** The bank joins exactly the counters that were received, with its whole count, and no table entry. */
  lemma {:induction false} JoinedCounts(received: seq<Entity>, bank: seq<Entity>, id: Identifier, unit: Unit)
    requires Supported(received) && Countable(bank)
    ensures Reports(Joined(received, bank), id) <==> Reports(received, id)
    ensures CountOf(Joined(received, bank), id, unit) ==
      CountOf(received, id, unit) + if Reports(received, id) then CountOf(bank, id, unit) else 0
  {
    if bank != [] {
      var init, e := bank[..|bank| - 1], bank[|bank| - 1];
      assert e in bank && bank == init + [e];
      JoinedCounts(received, init, id, unit);
      WeightAppend(init, [e], Under(id), unit);
      WeightOne(e, Under(id), unit);
      JoinedOne(Joined(received, init), e, id, unit);
    }
  }

  /** A banked counter that joins changes neither what is reported nor the count of what is not. */
  lemma {:induction false} JoinedOne(r: seq<Entity>, e: Entity, id: Identifier, unit: Unit)
    requires Supported(r) && IsCounter(e)
    ensures Mergeable(e, r) ==> (Reports(r + [e], id) <==> Reports(r, id))
    ensures Identify(e) == id ==> (Mergeable(e, r) <==> Reports(r, id))
    ensures CountOf(r + [e], id, unit) == CountOf(r, id, unit) + if Identify(e) == id then In(e.data, unit) else 0
  {
    MergeableIsReported(e, r);
    WeightAppend(r, [e], Under(id), unit);
    WeightOne(e, Under(id), unit);
    ReportsAppend(r, [e], id);
  }

  lemma {:induction false} JoinedEntries(received: seq<Entity>, bank: seq<Entity>, e: Entity)
    requires AnswersOnly(received) && Supported(received) && Countable(bank)
    ensures AnswersOnly(Joined(received, bank))
    ensures e.TableEntry? ==> (e in Joined(received, bank) <==> e in received)
  {
    if bank != [] {
      assert bank[|bank| - 1] in bank;
      JoinedEntries(received, bank[..|bank| - 1], e);
    }
  }

  // ----- merging -----

  /** The total that merging computes is the count. */
  lemma {:induction false} TotalIsCount(xs: seq<Entity>, id: Identifier)
    ensures CarriedTotal(xs, id).packets == CountOf(xs, id, Packets)
    ensures CarriedTotal(xs, id).bytes == CountOf(xs, id, Bytes)
  {
    if xs != [] {
      TotalIsCount(xs[..|xs| - 1], id);
    }
  }

  lemma {:induction false} ReportsByIndex(xs: seq<Entity>, id: Identifier)
    ensures Reports(xs, id) <==> exists i :: 0 <= i < |xs| && Carries(xs[i], id)
  {
    if e :| e in xs && Carries(e, id) {
      var i :| 0 <= i < |xs| && xs[i] == e;
      assert Carries(xs[i], id);
    }
    if i :| 0 <= i < |xs| && Carries(xs[i], id) {
      assert xs[i] in xs;
    }
  }

  // ----- the answer -----

  /** Two different entries of one table are answered, by one target or by two. */
  ghost predicate Clash(targets: seq<Target>, qs: seq<Query>) {
    exists e, e' :: AnsweredBySome(targets, qs, e) && AnsweredBySome(targets, qs, e') && Clashing(e, e')
  }

  predicate Clashing(e: Entity, e': Entity) {
    e.TableEntry? && e'.TableEntry? && e != e' && e.key.table == e'.key.table
  }

  function Bank(s: State): seq<Entity> {
    if s.mode.ReadWrite? || s.mode.OnlyRead? then s.bank else []
  }

  /** What a Read makes of what it received. */
  function AnswerFor(s: State, received: seq<Entity>): MergeResult
    requires Countable(s.bank)
  {
    if Supported(received) then Merge(Joined(received, Bank(s))) else Unhandled
  }

  lemma {:induction false} AnswersAreSupported(xs: seq<Entity>)
    requires AnswersOnly(xs)
    ensures Supported(xs)
  {
    assert forall i :: 0 <= i < |xs| ==> IsAnswer(xs[i]);
  }

  /** Any Read fails exactly if two different entries of one table are answered: entries are compared by table,
      without their match. */
  lemma {:induction false} ReadFailsExactly(s: State, qs: seq<Query>, xs: seq<Entity>)
    requires Countable(s.bank) && Collected(s.targets, qs, xs)
    ensures !AnswerFor(s, xs).Unhandled?
    ensures AnswerFor(s, xs).Differs? <==> Clash(s.targets, qs)
  {
    AnswersAreSupported(xs);
    var all := Joined(xs, Bank(s));
    forall e: Entity | e.TableEntry?
      ensures e in all <==> AnsweredBySome(s.targets, qs, e)
    {
      JoinedEntries(xs, Bank(s), e);
      assert ListedIn(s.targets, qs, xs, e);
    }
    JoinedEntries(xs, Bank(s), Unsupported);
    ClashingExactly(all);
    if e, e' :| AnsweredBySome(s.targets, qs, e) && AnsweredBySome(s.targets, qs, e') && Clashing(e, e') {
      assert e in all && e' in all;
    }
  }

  lemma {:induction false} ClashingExactly(xs: seq<Entity>)
    requires AnswersOnly(xs) && Supported(xs)
    ensures Merge(xs).Differs? <==> exists e, e' :: e in xs && e' in xs && Clashing(e, e')
  {
    MergeFailsExactly(xs);
    if Merge(xs).Differs? {
      var i, j :| 0 <= i < |xs| && 0 <= j < |xs| && Clashes(xs, i, j);
      assert IsAnswer(xs[i]) && IsAnswer(xs[j]);
      assert xs[i] in xs && xs[j] in xs && Clashing(xs[i], xs[j]);
    }
    if e, e' :| e in xs && e' in xs && Clashing(e, e') {
      var i :| 0 <= i < |xs| && xs[i] == e;
      var j :| 0 <= j < |xs| && xs[j] == e';
      assert Clashes(xs, i, j);
    }
  }

  /** Otherwise it answers every entry that some target answers, and no other. */
  lemma {:induction false} ReadAnswersEntries(s: State, qs: seq<Query>, xs: seq<Entity>, e: Entity)
    requires Countable(s.bank) && Collected(s.targets, qs, xs) && AnswerFor(s, xs).Merged? && e.TableEntry?
    ensures e in AnswerFor(s, xs).entities <==> AnsweredBySome(s.targets, qs, e)
  {
    AnswersAreSupported(xs);
    JoinedEntries(xs, Bank(s), e);
    NumberedMerged(Joined(xs, Bank(s)), e);
    assert ListedIn(s.targets, qs, xs, e);
  }

  /** The answer `ys` has the counter exactly if the request asks for it and some live target reports it, once,
      with the live counts as often as the request asks for it and the banked ones in reading mode. */
  ghost predicate ShowsCounter(s: State, qs: seq<Query>, ys: seq<Entity>, id: Identifier) {
    && ((exists j :: 0 <= j < |ys| && Carries(ys[j], id)) <==> TimesAsked(qs, id) > 0 && ReportedLive(s.targets, id))
    && (forall i, j :: 0 <= i < j < |ys| ==> !(Carries(ys[i], id) && Carries(ys[j], id)))
    && (forall j :: 0 <= j < |ys| && Carries(ys[j], id) ==>
      && ys[j].data.packets == Answer(s, qs, id, Packets)
      && ys[j].data.bytes == Answer(s, qs, id, Bytes))
  }

  function Answer(s: State, qs: seq<Query>, id: Identifier, unit: Unit): nat {
    Times(TimesAsked(qs, id), LiveCount(s.targets, id, unit)) + CountOf(Bank(s), id, unit)
  }

  /** And every counter that it asks for and some live target reports, once, and no other. */
  lemma {:induction false} ReadAnswersCounters(s: State, qs: seq<Query>, xs: seq<Entity>, id: Identifier)
    requires Countable(s.bank) && Collected(s.targets, qs, xs) && AnswerFor(s, xs).Merged? && !id.NumberId?
    ensures ShowsCounter(s, qs, AnswerFor(s, xs).entities, id)
  {
    AnswersAreSupported(xs);
    assert CountedIn(s.targets, qs, xs, id, Packets) && CountedIn(s.targets, qs, xs, id, Bytes);
    JoinedCounts(xs, Bank(s), id, Packets);
    JoinedCounts(xs, Bank(s), id, Bytes);
    var all := Joined(xs, Bank(s));
    MergeConserves(all, id);
    TotalIsCount(all, id);
    ReportsByIndex(all, id);
  }

  /** Some live target reports the cell. */
  ghost predicate CellIsLive(targets: seq<Target>, c: Cell) {
    exists i, e :: 0 <= i < |targets| && e in targets[i].device.counters && e.CounterEntry? && e.cell == c
  }

  ghost predicate HasCell(ys: seq<Entity>, c: Cell) {
    exists j :: 0 <= j < |ys| && ys[j].CounterEntry? && ys[j].cell == c
  }

  ghost predicate DirectCounterIsLive(targets: seq<Target>, k: Key) {
    exists i, e :: 0 <= i < |targets| && e in targets[i].device.counters && e.DirectCounterEntry? && e.key == k
  }

  ghost predicate HasDirectCounter(ys: seq<Entity>, k: Key) {
    exists j :: 0 <= j < |ys| && ys[j].DirectCounterEntry? && ys[j].key == k
  }

  /** A request for one cell, an array or all cells is answered with exactly the cells asked for that are live. */
  lemma {:induction false} CellsAnswered(s: State, q: Query, xs: seq<Entity>, c: Cell)
    requires Countable(s.bank) && Collected(s.targets, [q], xs) && AnswerFor(s, xs).Merged?
    requires forall i :: 0 <= i < |s.targets| ==> Countable(s.targets[i].device.counters)
    ensures q == OneCell(c) ==> (HasCell(AnswerFor(s, xs).entities, c) <==> CellIsLive(s.targets, c))
    ensures q == AllCells || q == CellsOf(c.counterId) ==>
      (HasCell(AnswerFor(s, xs).entities, c) <==> CellIsLive(s.targets, c))
    ensures q.OneCell? && q.cell != c ==> !HasCell(AnswerFor(s, xs).entities, c)
    ensures q.CellsOf? && q.counterId != c.counterId ==> !HasCell(AnswerFor(s, xs).entities, c)
  {
    ReadAnswersCounters(s, [q], xs, CellId(c));
    AskedAppend([], q, CellId(c));
    assert HasCell(AnswerFor(s, xs).entities, c) <==>
      exists j :: 0 <= j < |AnswerFor(s, xs).entities| && Carries(AnswerFor(s, xs).entities[j], CellId(c));
    assert ReportedLive(s.targets, CellId(c)) <==> CellIsLive(s.targets, c) by {
      if i :| 0 <= i < |s.targets| && Reports(s.targets[i].device.counters, CellId(c)) {
        var e :| e in s.targets[i].device.counters && Carries(e, CellId(c));
        assert e.CounterEntry? && e.cell == c;
      }
      if i, e :| 0 <= i < |s.targets| && e in s.targets[i].device.counters && e.CounterEntry? && e.cell == c {
        assert Carries(e, CellId(c)) && Reports(s.targets[i].device.counters, CellId(c));
      }
    }
  }

  /** The same for direct counters. */
  lemma {:induction false} DirectCountersAnswered(s: State, q: Query, xs: seq<Entity>, k: Key)
    requires Countable(s.bank) && Collected(s.targets, [q], xs) && AnswerFor(s, xs).Merged?
    requires forall i :: 0 <= i < |s.targets| ==> Countable(s.targets[i].device.counters)
    ensures q == OneDirectCounter(k) ==>
      (HasDirectCounter(AnswerFor(s, xs).entities, k) <==> DirectCounterIsLive(s.targets, k))
    ensures q == AllDirectCounters || q == DirectCountersOf(k.table) ==>
      (HasDirectCounter(AnswerFor(s, xs).entities, k) <==> DirectCounterIsLive(s.targets, k))
    ensures q.OneDirectCounter? && q.key != k ==> !HasDirectCounter(AnswerFor(s, xs).entities, k)
    ensures q.DirectCountersOf? && q.table != k.table ==> !HasDirectCounter(AnswerFor(s, xs).entities, k)
  {
    ReadAnswersCounters(s, [q], xs, EntryId(k));
    AskedAppend([], q, EntryId(k));
    assert HasDirectCounter(AnswerFor(s, xs).entities, k) <==>
      exists j :: 0 <= j < |AnswerFor(s, xs).entities| && Carries(AnswerFor(s, xs).entities[j], EntryId(k));
    assert ReportedLive(s.targets, EntryId(k)) <==> DirectCounterIsLive(s.targets, k) by {
      if i :| 0 <= i < |s.targets| && Reports(s.targets[i].device.counters, EntryId(k)) {
        var e :| e in s.targets[i].device.counters && Carries(e, EntryId(k));
        assert e.DirectCounterEntry? && e.key == k;
      }
      if i, e :| 0 <= i < |s.targets| && e in s.targets[i].device.counters && e.DirectCounterEntry? && e.key == k {
        assert Carries(e, EntryId(k)) && Reports(s.targets[i].device.counters, EntryId(k));
      }
    }
  }

  /** And a request for one entry, a table or all tables with exactly the entries asked for that some target
      holds. */
  lemma {:induction false} EntriesRequested(s: State, q: Query, xs: seq<Entity>, k: Key, a: Action)
    requires Countable(s.bank) && Collected(s.targets, [q], xs) && AnswerFor(s, xs).Merged?
    ensures q == OneEntry(k) || q == EntriesOf(k.table) || q == AllTables ==>
      (TableEntry(k, a) in AnswerFor(s, xs).entities <==> EntryIsHeld(s.targets, k, a))
    ensures (q.OneEntry? && q.key != k) || (q.EntriesOf? && q.table != k.table) || !AsksForEntries(q) ==>
      TableEntry(k, a) !in AnswerFor(s, xs).entities
  {
    var e := TableEntry(k, a);
    ReadAnswersEntries(s, [q], xs, e);
    WantsAppend([], q, k);
    if i :| 0 <= i < |s.targets| && k in s.targets[i].device.entries && s.targets[i].device.entries[k] == a {
      assert Wants(q, k) ==> Answered(s.targets[i].device.entries, [q], e);
    }
  }

  ghost predicate EntryIsHeld(targets: seq<Target>, k: Key, a: Action) {
    exists i :: 0 <= i < |targets| && k in targets[i].device.entries && targets[i].device.entries[k] == a
  }

  /** A reported counter shows the total of all live and banked copies if and only if the request asks for it
      once or there is nothing live. */
  lemma {:induction false} ReadShowsTotalExactly(s: State, qs: seq<Query>, xs: seq<Entity>, id: Identifier, j: nat)
    requires Countable(s.bank) && Collected(s.targets, qs, xs) && AnswerFor(s, xs).Merged?
    requires s.mode.IsReading() && !id.NumberId?
    requires j < |AnswerFor(s, xs).entities| && Carries(AnswerFor(s, xs).entities[j], id)
    ensures var e := AnswerFor(s, xs).entities[j];
      && (e.data.packets == Total(s, id, Packets) <==>
        TimesAsked(qs, id) == 1 || LiveCount(s.targets, id, Packets) == 0)
      && (e.data.bytes == Total(s, id, Bytes) <==> TimesAsked(qs, id) == 1 || LiveCount(s.targets, id, Bytes) == 0)
  {
    ReadAnswersCounters(s, qs, xs, id);
    MultiplesDiffer(TimesAsked(qs, id), LiveCount(s.targets, id, Packets));
    MultiplesDiffer(TimesAsked(qs, id), LiveCount(s.targets, id, Bytes));
  }

  lemma {:induction false} MultiplesDiffer(n: nat, c: nat)
    requires n > 0
    ensures Times(n, c) == c <==> n == 1 || c == 0
  {
    NoMultiple(n - 1, c);
  }

  /** Counter conservation end to end: after any run a counter that a request asks for once shows what was there
      at the start and all the traffic counted since under its identifier, less what was thrown away, if and
      only if the run counted everything once. */
  lemma {:induction false} ReadAfterRun(
    s: State, ops: seq<Op>, qs: seq<Query>, xs: seq<Entity>, id: Identifier, j: nat)
    requires InSync(s) && CountersInSync(s) && s.mode.ReadWrite?
    requires ProperRun(s, ops) && IssuedRun(s, ops) && AllArrive(ops)
    requires CountersInSync(Run(s, ops)) && Collected(Run(s, ops).targets, qs, xs)
    requires AnswerFor(Run(s, ops), xs).Merged? && !id.NumberId? && TimesAsked(qs, id) == 1
    requires j < |AnswerFor(Run(s, ops), xs).entities| && Carries(AnswerFor(Run(s, ops), xs).entities[j], id)
    ensures var data := AnswerFor(Run(s, ops), xs).entities[j].data;
      && (data.packets + Discarded(s, ops, id, Packets) == Total(s, id, Packets) + Counted(s, ops, id, Packets)
        <==> EachCountsOnce(s, ops, id, Packets))
      && (data.bytes + Discarded(s, ops, id, Bytes) == Total(s, id, Bytes) + Counted(s, ops, id, Bytes)
        <==> EachCountsOnce(s, ops, id, Bytes))
  {
    RunConservesExactly(s, ops, id, Packets);
    RunConservesExactly(s, ops, id, Bytes);
    RunKeepsMode(s, ops);
    ReadShowsTotalExactly(Run(s, ops), qs, xs, id, j);
  }

  lemma {:induction false} RunKeepsMode(s: State, ops: seq<Op>)
    ensures Run(s, ops).mode == s.mode
  {
    if ops != [] {
      RunKeepsMode(s, ops[..|ops| - 1]);
    }
  }

  // ----- replicas in step -----

  /** The controller's view has the entry, the request asks for it, and some target admits it. */
  ghost predicate Shown(s: State, qs: seq<Query>, k: Key) {
    k in Virtual(s) && AnyWants(qs, k) && Admitted(s.targets, k)
  }

  ghost predicate IsShown(s: State, qs: seq<Query>, e: Entity) {
    e.TableEntry? && Shown(s, qs, e.key) && Virtual(s)[e.key] == e.action
  }

  /** Two entries of one table are asked for. */
  ghost predicate TwoInOneTable(s: State, qs: seq<Query>) {
    exists k, k' :: Shown(s, qs, k) && Shown(s, qs, k') && k != k' && k.table == k'.table
  }

  /** Replicas in step answer with the entries of the controller's view. */
  lemma {:induction false} AnsweredExactly(s: State, qs: seq<Query>, e: Entity)
    requires InStep(s.log, s.targets)
    ensures AnsweredBySome(s.targets, qs, e) <==> IsShown(s, qs, e)
  {
    if i :| 0 <= i < |s.targets| && Answered(s.targets[i].device.entries, qs, e) {
      assert TargetInSync(s.log, s.targets[i]);
      assert Allows(s.targets[i].filter, e.key);
    }
    if IsShown(s, qs, e) {
      var i :| 0 <= i < |s.targets| && Allows(s.targets[i].filter, e.key);
      assert TargetInSync(s.log, s.targets[i]);
      assert Answered(s.targets[i].device.entries, qs, e);
    }
  }

  /** From replicas in step a Read fails exactly if two of the entries asked for lie in one table. */
  lemma {:induction false} ClashExactly(s: State, qs: seq<Query>)
    requires InStep(s.log, s.targets)
    ensures Clash(s.targets, qs) <==> TwoInOneTable(s, qs)
  {
    if e, e' :| AnsweredBySome(s.targets, qs, e) && AnsweredBySome(s.targets, qs, e') && Clashing(e, e') {
      AnsweredExactly(s, qs, e);
      AnsweredExactly(s, qs, e');
      assert e.key != e'.key;
    }
    if k, k' :| Shown(s, qs, k) && Shown(s, qs, k') && k != k' && k.table == k'.table {
      var e, e' := TableEntry(k, Virtual(s)[k]), TableEntry(k', Virtual(s)[k']);
      AnsweredExactly(s, qs, e);
      AnsweredExactly(s, qs, e');
      assert Clashing(e, e');
    }
  }
}
