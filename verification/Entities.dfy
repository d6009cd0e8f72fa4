/** Read answers and how duplicates in them are merged (`common/entity_helper.py`). */
module Entities {
  import opened Tables

  datatype Count = Count(packets: nat, bytes: nat)

  const ZERO := Count(0, 0)

  function Plus(a: Count, b: Count): Count {
    Count(a.packets + b.packets, a.bytes + b.bytes)
  }

  /** One cell of a counter array. */
  datatype Cell = Cell(counterId: nat, index: nat)

  datatype Entity =
    | TableEntry(key: Key, action: Action)
    | MeterEntry(meterId: nat, index: nat, config: seq<nat>)
    | DirectMeterEntry(key: Key, config: seq<nat>)
    | CounterEntry(cell: Cell, data: Count)
    | DirectCounterEntry(key: Key, data: Count)
    | Unsupported

  /** The identifier that decides what is a duplicate.  Table and meter entries are identified by a bare
      number, counters by a text. */
  datatype Identifier = NumberId(n: nat) | CellId(cell: Cell) | EntryId(key: Key)

  function Identify(e: Entity): Identifier
    requires !e.Unsupported?
  {
    match e
    case TableEntry(key, _) => NumberId(key.table)
    case MeterEntry(id, _, _) => NumberId(id)
    case DirectMeterEntry(key, _) => NumberId(key.table)
    case CounterEntry(cell, _) => CellId(cell)
    case DirectCounterEntry(key, _) => EntryId(key)
  }

  predicate Supported(xs: seq<Entity>) {
    forall i :: 0 <= i < |xs| ==> !xs[i].Unsupported?
  }

  predicate IsCounter(e: Entity) {
    e.CounterEntry? || e.DirectCounterEntry?
  }

  function Data(e: Entity): Count {
    if IsCounter(e) then e.data else ZERO
  }

  function WithData(e: Entity, data: Count): Entity {
    if e.CounterEntry? then CounterEntry(e.cell, data)
    else if e.DirectCounterEntry? then DirectCounterEntry(e.key, data)
    else e
  }

  /** The identifiers in first-appearance order. */
  function Ids(xs: seq<Entity>): (ids: seq<Identifier>)
    requires Supported(xs)
    ensures forall i, j :: 0 <= i < j < |ids| ==> ids[i] != ids[j]
  {
    if xs == [] then []
    else
      var init, id := Ids(xs[..|xs| - 1]), Identify(xs[|xs| - 1]);
      if id in init then init else init + [id]
  }

  function Group(xs: seq<Entity>, id: Identifier): (g: seq<Entity>)
    requires Supported(xs)
    ensures forall i :: 0 <= i < |g| ==> g[i] in xs && !g[i].Unsupported? && Identify(g[i]) == id
  {
    if xs == [] then []
    else
      var init := Group(xs[..|xs| - 1], id);
      if Identify(xs[|xs| - 1]) == id then init + [xs[|xs| - 1]] else init
  }

  function Sum(xs: seq<Entity>): Count {
    if xs == [] then ZERO else Plus(Sum(xs[..|xs| - 1]), Data(xs[|xs| - 1]))
  }

  predicate AllSame(g: seq<Entity>) {
    forall i :: 0 <= i < |g| ==> g[i] == g[0]
  }

  /** What a group becomes: its first member, carrying the sum if it is a counter. */
  function Combine(g: seq<Entity>): (e: Entity)
    requires |g| > 0
  {
    WithData(g[0], Sum(g))
  }

  /** Table and meter entries have nothing to add up: a group of them must be all the same. */
  predicate GroupConflicts(xs: seq<Entity>, id: Identifier)
    requires Supported(xs)
  {
    id.NumberId? && !AllSame(Group(xs, id))
  }

  datatype MergeResult = Merged(entities: seq<Entity>) | Differs | Unhandled

  function Merge(xs: seq<Entity>): MergeResult {
    if !Supported(xs) then Unhandled
    else if exists i :: 0 <= i < |Ids(xs)| && GroupConflicts(xs, Ids(xs)[i]) then Differs
    else Merged(seq(|Ids(xs)|, i requires 0 <= i < |Ids(xs)| => CombinedGroup(xs, i)))
  }

  function CombinedGroup(xs: seq<Entity>, i: nat): Entity
    requires Supported(xs) && i < |Ids(xs)|
  {
    GroupOfId(xs, Ids(xs)[i]);
    Combine(Group(xs, Ids(xs)[i]))
  }

  /** An identifier is listed exactly when some entity carries it. */
  lemma {:induction false} GroupOfId(xs: seq<Entity>, id: Identifier)
    requires Supported(xs)
    ensures id in Ids(xs) <==> Group(xs, id) != []
    ensures id in Ids(xs) <==> exists i :: 0 <= i < |xs| && Identify(xs[i]) == id
    ensures id !in Ids(xs) ==> Sum(Group(xs, id)) == ZERO
  {
    if xs != [] {
      var init, e := xs[..|xs| - 1], xs[|xs| - 1];
      GroupOfId(init, id);
      assert xs == init + [e];
      if exists i :: 0 <= i < |init| && Identify(init[i]) == id {
        var i :| 0 <= i < |init| && Identify(init[i]) == id;
        assert Identify(xs[i]) == id;
      }
    }
  }

  /** First-appearance order: the identifier listed earlier occurs before any occurrence of the later one. */
  lemma {:induction false} IdsInFirstAppearanceOrder(xs: seq<Entity>, i: nat, j: nat)
    requires Supported(xs) && i < j < |Ids(xs)|
    ensures exists p ::
      && 0 <= p < |xs| && Identify(xs[p]) == Ids(xs)[i]
      && forall q :: 0 <= q <= p ==> Identify(xs[q]) != Ids(xs)[j]
  {
    var n := |xs| - 1;
    var init := xs[..n];
    assert forall q :: 0 <= q < n ==> init[q] == xs[q];
    if j < |Ids(init)| {
      IdsInFirstAppearanceOrder(init, i, j);
      var p :| 0 <= p < n && Identify(init[p]) == Ids(init)[i] &&
        forall q :: 0 <= q <= p ==> Identify(init[q]) != Ids(init)[j];
      assert Identify(xs[p]) == Ids(xs)[i];
    } else {
      GroupOfId(init, Ids(xs)[i]);
      GroupOfId(init, Ids(xs)[j]);
      var p :| 0 <= p < n && Identify(init[p]) == Ids(xs)[i];
      assert Identify(xs[p]) == Ids(xs)[i];
    }
  }

  lemma {:induction false} GroupAppend(xs: seq<Entity>, ys: seq<Entity>, id: Identifier)
    requires Supported(xs) && Supported(ys)
    ensures Supported(xs + ys) && Group(xs + ys, id) == Group(xs, id) + Group(ys, id)
  {
    if ys == [] {
      assert xs + ys == xs;
    } else {
      assert (xs + ys)[..|xs + ys| - 1] == xs + ys[..|ys| - 1];
      GroupAppend(xs, ys[..|ys| - 1], id);
    }
  }

  lemma {:induction false} SumAppend(xs: seq<Entity>, ys: seq<Entity>)
    ensures Sum(xs + ys) == Plus(Sum(xs), Sum(ys))
  {
    if ys == [] {
      assert xs + ys == xs;
    } else {
      var all := xs + ys;
      assert all[..|all| - 1] == xs + ys[..|ys| - 1];
      SumAppend(xs, ys[..|ys| - 1]);
      assert Sum(all) == Plus(Sum(all[..|all| - 1]), Data(all[|all| - 1]));
    }
  }

  /** The identifiers of a continuation depend only on the identifiers seen before it. */
  lemma {:induction false} IdsAppend(xs: seq<Entity>, xs': seq<Entity>, ys: seq<Entity>)
    requires Supported(xs) && Supported(xs') && Supported(ys) && Ids(xs) == Ids(xs')
    ensures Supported(xs + ys) && Supported(xs' + ys) && Ids(xs + ys) == Ids(xs' + ys)
  {
    if ys == [] {
      assert xs + ys == xs && xs' + ys == xs';
    } else {
      assert (xs + ys)[..|xs + ys| - 1] == xs + ys[..|ys| - 1];
      assert (xs' + ys)[..|xs' + ys| - 1] == xs' + ys[..|ys| - 1];
      IdsAppend(xs, xs', ys[..|ys| - 1]);
    }
  }

  lemma {:induction false} CombineId(g: seq<Entity>)
    requires |g| > 0 && !g[0].Unsupported?
    ensures !Combine(g).Unsupported? && Identify(Combine(g)) == Identify(g[0])
    ensures IsCounter(g[0]) ==> Data(Combine(g)) == Sum(g)
  {
  }

  /** The answer has one entity per identifier, in the order in which the identifiers first appear. */
  lemma {:induction false} MergeIds(xs: seq<Entity>)
    requires Merge(xs).Merged?
    ensures var ys := Merge(xs).entities;
      && Supported(ys) && |ys| == |Ids(xs)|
      && (forall i :: 0 <= i < |ys| ==> Identify(ys[i]) == Ids(xs)[i])
      && Ids(ys) == Ids(xs)
  {
    var ys := Merge(xs).entities;
    forall i | 0 <= i < |ys|
      ensures !ys[i].Unsupported? && Identify(ys[i]) == Ids(xs)[i]
    {
      GroupOfId(xs, Ids(xs)[i]);
      assert ys[i] == CombinedGroup(xs, i);
      CombineId(Group(xs, Ids(xs)[i]));
    }
    DistinctIds(ys, Ids(xs));
  }

  lemma {:induction false} DistinctIds(ys: seq<Entity>, ids: seq<Identifier>)
    requires Supported(ys) && |ys| == |ids|
    requires forall i :: 0 <= i < |ys| ==> Identify(ys[i]) == ids[i]
    requires forall i, j :: 0 <= i < j < |ids| ==> ids[i] != ids[j]
    ensures Ids(ys) == ids
  {
    if ys != [] {
      DistinctIds(ys[..|ys| - 1], ids[..|ids| - 1]);
      assert ids == ids[..|ids| - 1] + [ids[|ids| - 1]];
    }
  }

  lemma {:induction false} SingletonGroup(ys: seq<Entity>, i: nat)
    requires Supported(ys) && i < |ys|
    requires forall j :: 0 <= j < |ys| && j != i ==> Identify(ys[j]) != Identify(ys[i])
    ensures Group(ys, Identify(ys[i])) == [ys[i]]
  {
    var n := |ys| - 1;
    if i < n {
      assert forall j :: 0 <= j < n ==> ys[..n][j] == ys[j];
      SingletonGroup(ys[..n], i);
    } else {
      assert forall j :: 0 <= j < n ==> ys[..n][j] == ys[j];
      GroupOfId(ys[..n], Identify(ys[i]));
    }
  }

  /** The group of every identifier in a merged answer is the combination of its group before. */
  lemma {:induction false} MergedGroup(xs: seq<Entity>, id: Identifier)
    requires Merge(xs).Merged?
    ensures Supported(Merge(xs).entities)
    ensures Group(Merge(xs).entities, id) == if id in Ids(xs) then GroupOfId(xs, id); [Combine(Group(xs, id))] else []
  {
    var ys := Merge(xs).entities;
    MergeIds(xs);
    if id in Ids(xs) {
      var i :| 0 <= i < |Ids(xs)| && Ids(xs)[i] == id;
      SingletonGroup(ys, i);
      assert ys[i] == CombinedGroup(xs, i);
    } else {
      GroupOfId(ys, id);
    }
  }

  /** The number under which a table or meter entry is compared. */
  predicate Numbered(e: Entity, n: nat) {
    || (e.TableEntry? && e.key.table == n)
    || (e.MeterEntry? && e.meterId == n)
    || (e.DirectMeterEntry? && e.key.table == n)
  }

  /** Two different entities are compared under one number. */
  predicate Clashes(xs: seq<Entity>, i: nat, j: nat)
    requires i < |xs| && j < |xs|
  {
    xs[i] != xs[j] && !IsCounter(xs[i]) && !xs[i].Unsupported? &&
    match xs[i]
    case TableEntry(key, _) => Numbered(xs[j], key.table)
    case MeterEntry(id, _, _) => Numbered(xs[j], id)
    case DirectMeterEntry(key, _) => Numbered(xs[j], key.table)
  }

  lemma {:induction false} NumberedIsIdentified(e: Entity, n: nat)
    requires !e.Unsupported?
    ensures Numbered(e, n) <==> Identify(e) == NumberId(n)
  {
  }

  /** Merging fails exactly when two table or meter entries share a number but differ. */
  lemma {:induction false} MergeFailsExactly(xs: seq<Entity>)
    ensures Merge(xs).Unhandled? <==> exists i :: 0 <= i < |xs| && xs[i].Unsupported?
    ensures !Merge(xs).Unhandled? ==>
      (Merge(xs).Differs? <==> exists i, j :: 0 <= i < |xs| && 0 <= j < |xs| && Clashes(xs, i, j))
  {
    if Supported(xs) {
      forall i, j | 0 <= i < |xs| && 0 <= j < |xs|
        ensures Clashes(xs, i, j) <==>
          xs[i] != xs[j] && Identify(xs[i]).NumberId? && Identify(xs[i]) == Identify(xs[j])
      {
        if Identify(xs[i]).NumberId? {
          NumberedIsIdentified(xs[j], Identify(xs[i]).n);
        }
      }
      DiffersExactly(xs);
    }
  }

  lemma {:induction false} DiffersExactly(xs: seq<Entity>)
    requires Supported(xs)
    ensures Merge(xs).Differs? <==> exists i, j ::
      && 0 <= i < |xs| && 0 <= j < |xs|
      && xs[i] != xs[j] && Identify(xs[i]).NumberId? && Identify(xs[i]) == Identify(xs[j])
  {
    if Merge(xs).Differs? {
      var index :| 0 <= index < |Ids(xs)| && GroupConflicts(xs, Ids(xs)[index]);
      var id := Ids(xs)[index];
      var g := Group(xs, id);
      var n :| 0 <= n < |g| && g[n] != g[0];
      var i :| 0 <= i < |xs| && xs[i] == g[n];
      var j :| 0 <= j < |xs| && xs[j] == g[0];
      assert Identify(xs[i]) == Identify(xs[j]);
    }
    if i, j :|
      && 0 <= i < |xs| && 0 <= j < |xs|
      && xs[i] != xs[j] && Identify(xs[i]).NumberId? && Identify(xs[i]) == Identify(xs[j])
    {
      var id := Identify(xs[i]);
      GroupOfId(xs, id);
      GroupHasAll(xs, i);
      GroupHasAll(xs, j);
      assert GroupConflicts(xs, id);
    }
  }

  // ----- merging, read off the entities themselves -----

  /** The entity is a counter of this cell or this entry. */
  predicate Carries(e: Entity, id: Identifier) {
    match id
    case CellId(c) => e.CounterEntry? && e.cell == c
    case EntryId(k) => e.DirectCounterEntry? && e.key == k
    case NumberId(_) => false
  }

  lemma {:induction false} CarriedIsIdentified(e: Entity, id: Identifier)
    requires !e.Unsupported? && !id.NumberId?
    ensures Carries(e, id) <==> Identify(e) == id
  {
  }

  /** Everything that the counters of one cell or one entry hold together. */
  function CarriedTotal(xs: seq<Entity>, id: Identifier): Count {
    if xs == [] then Count(0, 0)
    else
      var t, e := CarriedTotal(xs[..|xs| - 1], id), xs[|xs| - 1];
      if Carries(e, id) then Count(t.packets + e.data.packets, t.bytes + e.data.bytes) else t
  }

  lemma {:induction false} GroupTotal(xs: seq<Entity>, id: Identifier)
    requires Supported(xs) && !id.NumberId?
    ensures Sum(Group(xs, id)) == CarriedTotal(xs, id)
  {
    if xs != [] {
      var init, e := xs[..|xs| - 1], xs[|xs| - 1];
      GroupTotal(init, id);
      CarriedIsIdentified(e, id);
      SumNext(Group(init, id), e);
    }
  }

  /** A merged answer has a counter exactly if the input has it, once, with everything that its copies hold. */
  ghost predicate MergedCounter(xs: seq<Entity>, ys: seq<Entity>, id: Identifier) {
    && ((exists j :: 0 <= j < |ys| && Carries(ys[j], id)) <==> exists i :: 0 <= i < |xs| && Carries(xs[i], id))
    && (forall j :: 0 <= j < |ys| && Carries(ys[j], id) ==> ys[j].data == CarriedTotal(xs, id))
    && (forall i, j :: 0 <= i < j < |ys| ==> !(Carries(ys[i], id) && Carries(ys[j], id)))
  }

  /** Merging conserves the packets and bytes of every counter. */
  lemma {:induction false} MergeConserves(xs: seq<Entity>, id: Identifier)
    requires Merge(xs).Merged? && !id.NumberId?
    ensures MergedCounter(xs, Merge(xs).entities, id)
  {
    var ys := Merge(xs).entities;
    MergeIds(xs);
    GroupOfId(xs, id);
    forall i | 0 <= i < |xs|
      ensures Carries(xs[i], id) <==> Identify(xs[i]) == id
    {
      CarriedIsIdentified(xs[i], id);
    }
    forall j | 0 <= j < |ys|
      ensures Carries(ys[j], id) <==> Ids(xs)[j] == id
      ensures Carries(ys[j], id) ==> ys[j].data == CarriedTotal(xs, id)
    {
      CarriedIsIdentified(ys[j], id);
      if Ids(xs)[j] == id {
        MergedTotal(xs, j);
      }
    }
    if id in Ids(xs) {
      var j :| 0 <= j < |Ids(xs)| && Ids(xs)[j] == id;
      assert Carries(ys[j], id);
    }
  }

  lemma {:induction false} MergedTotal(xs: seq<Entity>, j: nat)
    requires Merge(xs).Merged? && j < |Ids(xs)| && !Ids(xs)[j].NumberId?
    ensures IsCounter(Merge(xs).entities[j]) && Merge(xs).entities[j].data == CarriedTotal(xs, Ids(xs)[j])
  {
    assert Merge(xs).entities[j] == CombinedGroup(xs, j);
    CombinedTotal(xs, j);
    GroupTotal(xs, Ids(xs)[j]);
  }

  lemma {:induction false} CombinedTotal(xs: seq<Entity>, j: nat)
    requires Supported(xs) && j < |Ids(xs)| && !Ids(xs)[j].NumberId?
    ensures IsCounter(CombinedGroup(xs, j)) && CombinedGroup(xs, j).data == Sum(Group(xs, Ids(xs)[j]))
  {
    GroupOfId(xs, Ids(xs)[j]);
    var g := Group(xs, Ids(xs)[j]);
    NumbersAreNoCounters(g, Ids(xs)[j]);
    CombineData(g);
  }

  lemma {:induction false} CombineData(g: seq<Entity>)
    requires g != [] && IsCounter(g[0])
    ensures IsCounter(Combine(g)) && Combine(g).data == Sum(g)
  {
  }

  /** Merging keeps every table and meter entry, and adds none. */
  lemma {:induction false} NumberedMerged(xs: seq<Entity>, e: Entity)
    requires Merge(xs).Merged? && !IsCounter(e)
    ensures e in Merge(xs).entities <==> e in xs
  {
    var ys := Merge(xs).entities;
    if i :| 0 <= i < |ys| && ys[i] == e {
      assert ys[i] == CombinedGroup(xs, i);
      CombinedIsFirst(xs, i);
    }
    if j :| 0 <= j < |xs| && xs[j] == e {
      GroupOfId(xs, Identify(e));
      GroupHasAll(xs, j);
      var i :| 0 <= i < |Ids(xs)| && Ids(xs)[i] == Identify(e);
      assert !GroupConflicts(xs, Ids(xs)[i]);
      assert ys[i] == CombinedGroup(xs, i);
      CombinedIsFirst(xs, i);
    }
  }

  lemma {:induction false} CombinedIsFirst(xs: seq<Entity>, i: nat)
    requires Supported(xs) && i < |Ids(xs)|
    ensures var g := Group(xs, Ids(xs)[i]);
      && g != [] && g[0] in xs && (IsCounter(CombinedGroup(xs, i)) <==> IsCounter(g[0]))
      && (!IsCounter(g[0]) ==> CombinedGroup(xs, i) == g[0])
  {
    GroupOfId(xs, Ids(xs)[i]);
    var g := Group(xs, Ids(xs)[i]);
    assert g[0] in xs;
    FirstStays(g);
  }

  lemma {:induction false} FirstStays(g: seq<Entity>)
    requires g != [] && !g[0].Unsupported?
    ensures IsCounter(Combine(g)) <==> IsCounter(g[0])
    ensures !IsCounter(g[0]) ==> Combine(g) == g[0]
  {
  }

  lemma {:induction false} GroupHasAll(xs: seq<Entity>, i: nat)
    requires Supported(xs) && i < |xs|
    ensures xs[i] in Group(xs, Identify(xs[i]))
  {
    if i < |xs| - 1 {
      GroupHasAll(xs[..|xs| - 1], i);
    }
  }

  lemma {:induction false} ZeroPlus(c: Count)
    ensures Plus(ZERO, c) == c
  {
  }

  lemma {:induction false} SumNext(xs: seq<Entity>, e: Entity)
    ensures Sum(xs + [e]) == Plus(Sum(xs), Data(e))
  {
    assert (xs + [e])[..|xs|] == xs;
  }

  lemma {:induction false} SumNone(xs: seq<Entity>)
    requires xs == []
    ensures Sum(xs) == ZERO
  {
  }

  lemma {:induction false} SumOne(none: seq<Entity>, e: Entity)
    requires none == []
    ensures Sum(none + [e]) == Data(e)
  {
    SumNext(none, e);
    SumNone(none);
    ZeroPlus(Data(e));
  }

  lemma {:induction false} CombineTwice(g: seq<Entity>, h: seq<Entity>)
    requires |g| > 0 && !g[0].Unsupported?
    requires !IsCounter(g[0]) ==> AllSame(g)
    ensures Combine([Combine(g)] + h) == Combine(g + h)
  {
    var c := Combine(g);
    assert ([c] + h)[0] == c && (g + h)[0] == g[0];
    if IsCounter(g[0]) {
      CombineId(g);
      SumAppend([c], h);
      SumAppend(g, h);
      SumOne([], c);
      assert [] + [c] == [c];
    }
  }

  lemma {:induction false} AllSameTwice(g: seq<Entity>, h: seq<Entity>)
    requires |g| > 0 && !IsCounter(g[0]) && AllSame(g)
    ensures AllSame([Combine(g)] + h) <==> AllSame(g + h)
  {
    var short, long := [g[0]] + h, g + h;
    assert Combine(g) == g[0];
    if AllSame(short) {
      forall i | 0 <= i < |long|
        ensures long[i] == long[0]
      {
        if i >= |g| {
          assert short[i - |g| + 1] == short[0];
        }
      }
    }
    if AllSame(long) {
      forall i | 0 <= i < |short|
        ensures short[i] == short[0]
      {
        if i >= 1 {
          assert long[i - 1 + |g|] == long[0];
        }
      }
    }
  }

  lemma {:induction false} NumbersAreNoCounters(g: seq<Entity>, id: Identifier)
    requires |g| > 0 && !g[0].Unsupported? && Identify(g[0]) == id
    ensures id.NumberId? <==> !IsCounter(g[0])
  {
  }

  /** One group of `Merge(xs).entities + ys` against the same group of `xs + ys`. */
  lemma {:induction false} MergedPrefixGroup(xs: seq<Entity>, ys: seq<Entity>, id: Identifier)
    requires Merge(xs).Merged? && Supported(ys)
    requires id in Ids(xs + ys)
    ensures Supported(Merge(xs).entities + ys) && id in Ids(Merge(xs).entities + ys)
    ensures Group(xs + ys, id) != [] && Group(Merge(xs).entities + ys, id) != []
    ensures Combine(Group(Merge(xs).entities + ys, id)) == Combine(Group(xs + ys, id))
    ensures id.NumberId? ==> (AllSame(Group(Merge(xs).entities + ys, id)) <==> AllSame(Group(xs + ys, id)))
  {
    var ms := Merge(xs).entities;
    MergeIds(xs);
    IdsAppend(xs, ms, ys);
    MergedGroup(xs, id);
    GroupAppend(xs, ys, id);
    GroupAppend(ms, ys, id);
    GroupOfId(xs + ys, id);
    GroupOfId(ms + ys, id);
    GroupOfId(xs, id);
    if id in Ids(xs) {
      var i :| 0 <= i < |Ids(xs)| && Ids(xs)[i] == id;
      assert !GroupConflicts(xs, id);
      NumbersAreNoCounters(Group(xs, id), id);
      CombineTwice(Group(xs, id), Group(ys, id));
      if id.NumberId? {
        AllSameTwice(Group(xs, id), Group(ys, id));
      }
    } else {
      assert [] + Group(ys, id) == Group(ys, id);
    }
  }

  /** Merging in two rounds is merging once: an already merged answer can be extended and merged again. */
  lemma {:induction false} MergeIsIncremental(xs: seq<Entity>, ys: seq<Entity>)
    requires Merge(xs).Merged?
    ensures Merge(Merge(xs).entities + ys) == Merge(xs + ys)
  {
    var ms := Merge(xs).entities;
    MergeIds(xs);
    if !Supported(ys) {
      var i :| 0 <= i < |ys| && ys[i].Unsupported?;
      assert (xs + ys)[|xs| + i].Unsupported? && (ms + ys)[|ms| + i].Unsupported?;
    } else {
      IdsAppend(xs, ms, ys);
      forall id | id in Ids(xs + ys)
        ensures GroupConflicts(ms + ys, id) <==> GroupConflicts(xs + ys, id)
      {
        MergedPrefixGroup(xs, ys, id);
      }
      if Merge(xs + ys).Merged? {
        SameMerge(xs + ys, ms + ys, xs, ys);
      }
    }
  }

  lemma {:induction false} SameMerge(a: seq<Entity>, b: seq<Entity>, xs: seq<Entity>, ys: seq<Entity>)
    requires Merge(xs).Merged? && Supported(ys) && a == xs + ys && b == Merge(xs).entities + ys
    requires Merge(a).Merged? && Merge(b).Merged? && Ids(a) == Ids(b)
    ensures Merge(a) == Merge(b)
  {
    forall i | 0 <= i < |Ids(a)|
      ensures CombinedGroup(a, i) == CombinedGroup(b, i)
    {
      MergedPrefixGroup(xs, ys, Ids(a)[i]);
    }
  }

  /** A failed merge stays failed whatever is read afterwards. */
  lemma {:induction false} MergeFailureStays(xs: seq<Entity>, ys: seq<Entity>)
    requires !Merge(xs).Merged?
    ensures !Merge(xs + ys).Merged?
  {
    if !Supported(xs) {
      var i :| 0 <= i < |xs| && xs[i].Unsupported?;
      assert (xs + ys)[i].Unsupported?;
    } else if !Supported(ys) {
      var i :| 0 <= i < |ys| && ys[i].Unsupported?;
      assert (xs + ys)[|xs| + i].Unsupported?;
    } else {
      MergeFailsExactly(xs);
      var i, j :| 0 <= i < |xs| && 0 <= j < |xs| && Clashes(xs, i, j);
      assert Clashes(xs + ys, i, j);
      MergeFailsExactly(xs + ys);
    }
  }

  /** The grouping pass: a dictionary of lists, with the keys in insertion order beside it. */
  method GroupEntities(received: seq<Entity>) returns (order: seq<Identifier>, groups: map<Identifier, seq<Entity>>)
    requires Supported(received)
    ensures order == Ids(received) && groups.Keys == set id | id in order
    ensures forall id :: id in groups ==> groups[id] == Group(received, id)
  {
    order, groups := [], map[];
    for n := 0 to |received|
      invariant order == Ids(received[..n])
      invariant groups.Keys == set id | id in order
      invariant forall id :: id in groups ==> groups[id] == Group(received[..n], id)
    {
      var entity := received[n];
      var id := Identify(entity);
      assert received[..n + 1][..n] == received[..n];
      GroupOfId(received[..n], id);
      if id !in groups {
        groups := groups[id := []];
        order := order + [id];
      }
      groups := groups[id := groups[id] + [entity]];
    }
    assert received[..|received|] == received;
  }

  /** Counters are added into the first entity of their group. */
  method AddUpGroup(group: seq<Entity>) returns (e: Entity)
    requires |group| > 0
    ensures e == Combine(group)
  {
    e := group[0];
    assert group[..1] == [group[0]] && group[..1][..0] == [];
    for i := 1 to |group|
      invariant e == WithData(group[0], Sum(group[..i]))
    {
      assert group[..i + 1][..i] == group[..i];
      e := WithData(e, Plus(Data(e), Data(group[i])));
    }
    assert group[..|group|] == group;
  }

  method CheckGroup(group: seq<Entity>) returns (same: bool)
    requires |group| > 0
    ensures same <==> AllSame(group)
  {
    for i := 1 to |group|
      invariant forall j :: 0 <= j < i ==> group[j] == group[0]
    {
      if group[i] != group[0] {
        return false;
      }
    }
    return true;
  }

  /** The second pass: check or add up each group. */
  method MergeGroups(
    received: seq<Entity>, order: seq<Identifier>, groups: map<Identifier, seq<Entity>>)
    returns (same: bool, merged: seq<Entity>)
    requires Supported(received) && order == Ids(received)
    requires forall id :: id in order ==> id in groups && groups[id] == Group(received, id)
    ensures same <==> forall i :: 0 <= i < |order| ==> !GroupConflicts(received, order[i])
    ensures same ==> |merged| == |order| && forall i :: 0 <= i < |order| ==> merged[i] == CombinedGroup(received, i)
  {
    merged := [];
    for n := 0 to |order|
      invariant |merged| == n
      invariant forall i :: 0 <= i < n ==> merged[i] == CombinedGroup(received, i)
      invariant forall i :: 0 <= i < n ==> !GroupConflicts(received, order[i])
    {
      GroupOfId(received, order[n]);
      var group := groups[order[n]];
      NumbersAreNoCounters(group, order[n]);
      if order[n].NumberId? {
        var allSame := CheckGroup(group);
        if !allSame {
          assert GroupConflicts(received, order[n]);
          return false, [];
        }
        merged := merged + [group[0]];
      } else {
        var e := AddUpGroup(group);
        merged := merged + [e];
      }
    }
    same := true;
  }

  /** The merge as the program runs it. */
  method MergeDuplicates(received: seq<Entity>) returns (r: MergeResult)
    ensures r == Merge(received)
    ensures r.Unhandled? <==> exists i :: 0 <= i < |received| && received[i].Unsupported?
    ensures r.Differs? ==> exists i, j :: 0 <= i < |received| && 0 <= j < |received| && Clashes(received, i, j)
    ensures r.Merged? ==>
      && (forall i, j :: 0 <= i < |received| && 0 <= j < |received| ==> !Clashes(received, i, j))
      && (forall id: Identifier | !id.NumberId? :: MergedCounter(received, r.entities, id))
      && (forall e: Entity | !IsCounter(e) :: e in r.entities <==> e in received)
  {
    MergeFailsExactly(received);
    if Merge(received).Merged? {
      AnswerMerged(received);
    }
    for n := 0 to |received|
      invariant forall i :: 0 <= i < n ==> !received[i].Unsupported?
    {
      if received[n].Unsupported? {
        return Unhandled;
      }
    }
    var order, groups := GroupEntities(received);
    var same, merged := MergeGroups(received, order, groups);
    r := if same then Merged(merged) else Differs;
  }

  lemma {:induction false} AnswerMerged(xs: seq<Entity>)
    requires Merge(xs).Merged?
    ensures forall id: Identifier | !id.NumberId? :: MergedCounter(xs, Merge(xs).entities, id)
    ensures forall e: Entity | !IsCounter(e) :: e in Merge(xs).entities <==> e in xs
  {
    forall id: Identifier | !id.NumberId?
      ensures MergedCounter(xs, Merge(xs).entities, id)
    {
      MergeConserves(xs, id);
    }
    forall e: Entity | !IsCounter(e)
      ensures e in Merge(xs).entities <==> e in xs
    {
      NumberedMerged(xs, e);
    }
  }

  /** A banked counter joins an answer only if the answer reports its identifier. */
  predicate Mergeable(e: Entity, xs: seq<Entity>)
    requires !e.Unsupported? && Supported(xs)
  {
    exists i :: 0 <= i < |xs| && Identify(xs[i]) == Identify(e)
  }

  /** Table id and pairwise match comparison: the shorter match decides, the priority is ignored. */
  predicate SameTableAndMatch(a: Key, b: Key) {
    && a.table == b.table
    && forall i :: 0 <= i < |a.fields| && i < |b.fields| ==> a.fields[i] == b.fields[i]
  }

  /** One match begins with the other. */
  predicate LooksAlike(a: Key, b: Key) {
    a.table == b.table && (a.fields <= b.fields || b.fields <= a.fields)
  }

  /** The comparison takes two keys for the same exactly if one match begins with the other; with equally many
      fields, exactly if table and fields are the same. */
  lemma {:induction false} SameExactly(a: Key, b: Key)
    ensures SameTableAndMatch(a, b) <==> LooksAlike(a, b)
    ensures |a.fields| == |b.fields| ==> (SameTableAndMatch(a, b) <==> a.table == b.table && a.fields == b.fields)
  {
    if SameTableAndMatch(a, b) {
      if |a.fields| <= |b.fields| {
        assert a.fields == b.fields[..|a.fields|];
      } else {
        assert b.fields == a.fields[..|b.fields|];
      }
    }
  }
}
