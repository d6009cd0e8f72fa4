/** Virtual tables inside physical ones: aggregation of several sources on one switch, and spreading one
    source over several switches (`proxy.py` over `common/p4_name_id_helper.py`). */
module Embedding {
  import opened Tables
  import opened AllowLists
  import opened Names
  import opened Converter

  // ----- converting updates -----

  function ConvertKey(c: P4NameConverter, k: Key, reverse: bool): (r: Option<Key>)
    ensures r.Some? ==> r.value.fields == k.fields && r.value.priority == k.priority
    ensures r.Some? && k.table != 0 ==> Some(r.value.table) == ConvertId(c, TableId, k.table, reverse)
  {
    if k.table == 0 then Some(k)
    else
      var id := ConvertId(c, TableId, k.table, reverse);
      if id.None? then None else Some(k.(table := id.value))
  }

  function ConvertAction(c: P4NameConverter, a: Action, reverse: bool): (r: Option<Action>)
    ensures r.Some? ==> r.value.params == a.params && Some(r.value.id) == ConvertId(c, ActionId, a.id, reverse)
  {
    var id := ConvertId(c, ActionId, a.id, reverse);
    if id.None? then None else Some(a.(id := id.value))
  }

  /** What an embedding of one table in another needs to know. */
  datatype Codec = Codec(key: Key -> Option<Key>, action: Action -> Option<Action>, owned: Key -> bool)

  /** The codec of a converter.  Table id 0 is the wildcard of read requests and names no entry. */
  function CodecOf(c: P4NameConverter): Codec {
    Codec(
      (k: Key) => if k.table == 0 then None else ConvertKey(c, k, false),
      a => ConvertAction(c, a, false),
      k => Owned(c, k))
  }

  /** The key is converted, and the action if there is one, whatever the kind of the update. */
  function Encode(codec: Codec, u: Update): (r: Option<Update>)
    ensures r.Some? <==> codec.key(u.key).Some? && (u.action.Some? ==> codec.action(u.action.value).Some?)
    ensures r.Some? ==> r.value.kind == u.kind && Some(r.value.key) == codec.key(u.key)
    ensures r.Some? ==> r.value.action == if u.action.Some? then codec.action(u.action.value) else None
  {
    var k := codec.key(u.key);
    if k.None? then None
    else if u.action.None? then Some(u.(key := k.value))
    else
      var a := codec.action(u.action.value);
      if a.None? then None else Some(u.(key := k.value, action := a))
  }

  /** A table entry message; the converter assigns the new ids into it. */
  class TableEntryMessage {
    var tableId: nat
    var actionId: Option<nat>

    constructor (tableId: nat, actionId: Option<nat>)
      ensures this.tableId == tableId && this.actionId == actionId
    {
      this.tableId, this.actionId := tableId, actionId;
    }

    /** When the action cannot be converted the table id has been replaced already. */
    method ConvertTableEntry(c: P4NameConverter, reverse: bool) returns (ok: bool)
      modifies this
      ensures var table := if old(tableId) == 0 then Some(0) else ConvertId(c, TableId, old(tableId), reverse);
        var action := if old(actionId).None? then None else ConvertId(c, ActionId, old(actionId).value, reverse);
        && (ok <==> table.Some? && (old(actionId).Some? ==> action.Some?))
        && tableId == (if table.Some? then table.value else old(tableId))
        && actionId == (if ok then action else old(actionId))
    {
      if tableId != 0 {
        var id := ConvertId(c, TableId, tableId, reverse);
        if id.None? {
          return false;
        }
        tableId := id.value;
      }
      if actionId.Some? {
        var id := ConvertId(c, ActionId, actionId.value, reverse);
        if id.None? {
          return false;
        }
        actionId := id;
      }
      return true;
    }
  }

  // ----- reading a physical table back -----

  /** The prefix test on the pure name of the entry's table. */
  predicate Owned(c: P4NameConverter, k: Key) {
    var o := ById(c.target(TableId), k.table);
    o.Some? && PureName(o.value.name).Named? && c.prefix <= PureName(o.value.name).name
  }

  function BackEntry(c: P4NameConverter, k: Key, a: Action): Option<(Key, Action)> {
    var k', a' := ConvertKey(c, k, true), ConvertAction(c, a, true);
    if k'.None? || a'.None? then None else Some((k'.value, a'.value))
  }

  /** The prefix test can be made: the entry's table is known and its name has a pure part. */
  predicate Readable(c: P4NameConverter, k: Key) {
    k.table != 0 && var o := ById(c.target(TableId), k.table); o.Some? && PureName(o.value.name).Named?
  }

  predicate AllReadable(c: P4NameConverter, t: Table) {
    forall k :: k in t ==> Readable(c, k)
  }

  /** Exactly the entries whose table is known and whose table name has exactly one dot. */
  lemma {:induction false} ReadableExactly(c: P4NameConverter, k: Key)
    ensures Readable(c, k) <==>
      && k.table != 0 && ById(c.target(TableId), k.table).Some?
      && multiset(ById(c.target(TableId), k.table).value.name)['.'] == 1
  {
    var o := ById(c.target(TableId), k.table);
    if o.Some? {
      OneDotCounted(o.value.name);
    }
  }

  predicate AllConvertBack(c: P4NameConverter, t: Table) {
    forall k :: k in t && Owned(c, k) ==> BackEntry(c, k, t[k]).Some?
  }

  /** What a Read through this converter collects before merging.  A table without a pure name, also a foreign
      one, and an entry that does not convert back are errors. */
  function PullBack(c: P4NameConverter, t: Table): Option<set<(Key, Action)>> {
    if AllReadable(c, t) && AllConvertBack(c, t)
    then Some(set k | k in t && Owned(c, k) :: BackEntry(c, k, t[k]).value)
    else None
  }

  /** The same table as a Read of an untranslated switch would list it. */
  function Listing(t: Table): set<(Key, Action)> {
    set k | k in t :: (k, t[k])
  }

  // ----- what a converter has to provide -----

  /** Every id that converts comes back. */
  ghost predicate Faithful(c: P4NameConverter, idType: IdType) {
    forall id: nat :: ConvertId(c, idType, id, false).Some? ==>
      ConvertId(c, idType, ConvertId(c, idType, id, false).value, true) == Some(id)
  }

  /** The table it names is recognised as the source's own, and is not the wildcard. */
  ghost predicate Recognised(c: P4NameConverter) {
    forall id: nat :: ConvertId(c, TableId, id, false).Some? ==>
      ConvertId(c, TableId, id, false).value != 0 && Owned(c, Key(ConvertId(c, TableId, id, false).value, [], 0))
  }

  ghost predicate Embeds(c: P4NameConverter) {
    Faithful(c, TableId) && Faithful(c, ActionId) && Recognised(c)
  }

  predicate AllEncodable(codec: Codec, us: seq<Update>) {
    forall i :: 0 <= i < |us| ==> Encode(codec, us[i]).Some?
  }

  function EncodeAll(codec: Codec, us: seq<Update>): (r: seq<Update>)
    requires AllEncodable(codec, us)
    ensures |r| == |us|
  {
    seq(|us|, i requires 0 <= i < |us| => Encode(codec, us[i]).value)
  }

  /** Different keys stay different, and the image is recognised. */
  ghost predicate Injective(codec: Codec) {
    && (forall k, k' :: codec.key(k).Some? && codec.key(k) == codec.key(k') ==> k == k')
    && (forall k :: codec.key(k).Some? ==> codec.owned(codec.key(k).value))
  }

  /** The entry of `k` in `v` has its image in `t`. */
  ghost predicate HasImage(codec: Codec, v: Table, t: Table, k: Key)
    requires k in v
  {
    && codec.key(k).Some? && codec.action(v[k]).Some?
    && codec.key(k).value in t && t[codec.key(k).value] == codec.action(v[k]).value
  }

  ghost predicate IsImage(codec: Codec, v: Table, p: Key) {
    exists k :: k in v && codec.key(k) == Some(p)
  }

  /** The physical table `t` holds the image of the virtual table `v`, and no other entry that the codec
      recognises. */
  ghost predicate Holds(codec: Codec, v: Table, t: Table) {
    && (forall k :: k in v ==> HasImage(codec, v, t, k))
    && (forall p :: p in t && codec.owned(p) ==> IsImage(codec, v, p))
  }

  lemma {:induction false} SameMembership(codec: Codec, v: Table, t: Table, k: Key)
    requires Injective(codec) && Holds(codec, v, t) && codec.key(k).Some?
    ensures k in v <==> codec.key(k).value in t
  {
    if k in v {
      assert HasImage(codec, v, t, k);
    }
    if codec.key(k).value in t {
      assert IsImage(codec, v, codec.key(k).value);
    }
  }

  /** One update of the source itself. */
  lemma {:induction false} OwnStep(codec: Codec, v: Table, t: Table, u: Update)
    requires Injective(codec) && Holds(codec, v, t) && Encode(codec, u).Some?
    ensures Holds(codec, Step(v, u), Step(t, Encode(codec, u).value))
    ensures Valid(v, u) <==> Valid(t, Encode(codec, u).value)
  {
    var p := Encode(codec, u).value;
    var v', t' := Step(v, u), Step(t, p);
    SameMembership(codec, v, t, u.key);
    forall k | k in v'
      ensures HasImage(codec, v', t', k)
    {
      if k in v {
        assert HasImage(codec, v, t, k);
      }
    }
    forall q | q in t' && codec.owned(q)
      ensures IsImage(codec, v', q)
    {
      if q == p.key {
        assert u.key in v' && codec.key(u.key) == Some(q);
      } else {
        assert IsImage(codec, v, q);
        var k :| k in v && codec.key(k) == Some(q);
        assert k in v';
      }
    }
  }

  /** An update that somebody else makes to an entry the codec does not recognise. */
  lemma {:induction false} ForeignStep(codec: Codec, v: Table, t: Table, p: Update)
    requires Injective(codec) && Holds(codec, v, t) && !codec.owned(p.key)
    ensures Holds(codec, v, Step(t, p))
  {
    forall k | k in v
      ensures HasImage(codec, v, Step(t, p), k)
    {
      assert HasImage(codec, v, t, k);
    }
  }

  lemma {:induction false} ReplayEncoded(codec: Codec, us: seq<Update>)
    requires Injective(codec) && AllEncodable(codec, us)
    ensures Holds(codec, Replay(map[], us), Replay(map[], EncodeAll(codec, us)))
  {
    if us != [] {
      assert forall i :: 0 <= i < |us| - 1 ==> us[..|us| - 1][i] == us[i];
      ReplayEncoded(codec, us[..|us| - 1]);
      EncodedStep(codec, us);
    }
  }

  lemma {:induction false} EncodedIsValid(codec: Codec, us: seq<Update>)
    requires Injective(codec) && AllEncodable(codec, us) && AllValid(map[], us)
    ensures AllValid(map[], EncodeAll(codec, us))
  {
    if us != [] {
      var n := |us| - 1;
      assert forall i :: 0 <= i < n ==> us[..n][i] == us[i];
      AllValidPrefix(map[], us, n);
      EncodedIsValid(codec, us[..n]);
      ReplayEncoded(codec, us[..n]);
      EncodedStep(codec, us);
      assert Valid(Replay(map[], us[..n]), us[n]);
      var image := EncodeAll(codec, us);
      AllValidLast(map[], image[..n], image[n]);
      assert image == image[..n] + [image[n]];
    }
  }

  lemma {:induction false} EncodedStep(codec: Codec, us: seq<Update>)
    requires Injective(codec) && AllEncodable(codec, us) && us != []
    requires AllEncodable(codec, us[..|us| - 1])
    requires var init := us[..|us| - 1]; Holds(codec, Replay(map[], init), Replay(map[], EncodeAll(codec, init)))
    ensures var n, all := |us| - 1, EncodeAll(codec, us);
      && all[..n] == EncodeAll(codec, us[..n])
      && Holds(codec, Replay(map[], us), Replay(map[], all))
      && (Valid(Replay(map[], us[..n]), us[n]) <==> Valid(Replay(map[], all[..n]), all[n]))
  {
    var n, all := |us| - 1, EncodeAll(codec, us);
    assert all[..n] == EncodeAll(codec, us[..n]);
    assert Encode(codec, us[n]).Some? && all[n] == Encode(codec, us[n]).value;
    OwnStep(codec, Replay(map[], us[..n]), Replay(map[], all[..n]), us[n]);
  }

  // ----- converters as embeddings -----

  lemma {:induction false} EmbedsIsInjective(c: P4NameConverter)
    requires Embeds(c)
    ensures Injective(CodecOf(c))
  {
    var codec := CodecOf(c);
    forall k, k' | codec.key(k).Some? && codec.key(k) == codec.key(k')
      ensures k == k'
    {
      KeyComesBack(c, k);
      KeyComesBack(c, k');
    }
    forall k | codec.key(k).Some?
      ensures codec.owned(codec.key(k).value)
    {
      KeyComesBack(c, k);
    }
  }

  lemma {:induction false} KeyComesBack(c: P4NameConverter, k: Key)
    requires Embeds(c) && CodecOf(c).key(k).Some?
    ensures CodecOf(c).owned(CodecOf(c).key(k).value)
    ensures ConvertKey(c, CodecOf(c).key(k).value, true) == Some(k)
  {
    var id := ConvertId(c, TableId, k.table, false);
    assert id.Some? && CodecOf(c).key(k).value == k.(table := id.value);
    assert Owned(c, Key(id.value, [], 0));
  }

  lemma {:induction false} EntryComesBack(c: P4NameConverter, k: Key, a: Action)
    requires Embeds(c) && CodecOf(c).key(k).Some? && CodecOf(c).action(a).Some?
    ensures BackEntry(c, CodecOf(c).key(k).value, CodecOf(c).action(a).value) == Some((k, a))
  {
    KeyComesBack(c, k);
    var id := ConvertId(c, ActionId, a.id, false);
    assert id.Some?;
  }

  /** Reading an embedded table back gives the virtual table: nothing is missing, nothing foreign shows up, and
      no conversion fails; unless the switch has an entry whose table has no pure name. */
  lemma {:induction false} HeldIsPulledBack(c: P4NameConverter, v: Table, t: Table)
    requires Embeds(c) && Holds(CodecOf(c), v, t)
    ensures PullBack(c, t) == if AllReadable(c, t) then Some(Listing(v)) else None
  {
    forall p | p in t && Owned(c, p)
      ensures BackEntry(c, p, t[p]).Some?
    {
      OwnedComesBack(c, v, t, p);
    }
    if AllReadable(c, t) {
      forall e
        ensures e in PullBack(c, t).value <==> e in Listing(v)
      {
        PulledIsListed(c, v, t, e);
      }
      assert PullBack(c, t).value == Listing(v);
    }
  }

  lemma {:induction false} PulledIsListed(c: P4NameConverter, v: Table, t: Table, e: (Key, Action))
    requires Embeds(c) && Holds(CodecOf(c), v, t) && PullBack(c, t).Some?
    ensures e in PullBack(c, t).value <==> e in Listing(v)
  {
    if e in PullBack(c, t).value {
      var p :| p in t && Owned(c, p) && e == BackEntry(c, p, t[p]).value;
      OwnedComesBack(c, v, t, p);
    }
    if e in Listing(v) {
      var k :| k in v && e == (k, v[k]);
      HeldIsFound(c, v, t, k);
      var p := CodecOf(c).key(k).value;
      assert p in t && Owned(c, p) && BackEntry(c, p, t[p]).value == e;
    }
  }

  lemma {:induction false} OwnedComesBack(c: P4NameConverter, v: Table, t: Table, p: Key)
    requires Embeds(c) && Holds(CodecOf(c), v, t) && p in t && Owned(c, p)
    ensures BackEntry(c, p, t[p]).Some? && BackEntry(c, p, t[p]).value in Listing(v)
  {
    var codec := CodecOf(c);
    assert codec.owned(p);
    assert IsImage(codec, v, p);
    var k :| k in v && codec.key(k) == Some(p);
    HeldIsFound(c, v, t, k);
    assert (k, v[k]) in Listing(v);
  }

  lemma {:induction false} HeldIsFound(c: P4NameConverter, v: Table, t: Table, k: Key)
    requires Embeds(c) && Holds(CodecOf(c), v, t) && k in v
    ensures var p := CodecOf(c).key(k);
      p.Some? && p.value in t && Owned(c, p.value) && BackEntry(c, p.value, t[p.value]) == Some((k, v[k]))
  {
    assert HasImage(CodecOf(c), v, t, k);
    EntryComesBack(c, k, v[k]);
    KeyComesBack(c, k);
  }

  lemma {:induction false} EncodedIsReadable(c: P4NameConverter, u: Update)
    requires Embeds(c) && Encode(CodecOf(c), u).Some?
    ensures Readable(c, Encode(CodecOf(c), u).value.key)
  {
    var id := ConvertId(c, TableId, u.key.table, false);
    assert id.Some? && Encode(CodecOf(c), u).value.key == u.key.(table := id.value);
    assert Owned(c, Key(id.value, [], 0));
  }

  lemma {:induction false} BuiltIsReadable(c: P4NameConverter, us: seq<Update>)
    requires forall i :: 0 <= i < |us| ==> Readable(c, us[i].key)
    ensures AllReadable(c, Replay(map[], us))
  {
    forall k | k in Replay(map[], us)
      ensures Readable(c, k)
    {
      if !Touches(us, k) {
        Untouched(map[], us, k);
      }
    }
  }

  // ----- aggregation: several sources, one switch -----

  datatype Event = Event(source: nat, update: Update)

  predicate Issued(sources: seq<P4NameConverter>, e: Event) {
    e.source < |sources| && Encode(CodecOf(sources[e.source]), e.update).Some?
  }

  predicate AllIssued(sources: seq<P4NameConverter>, events: seq<Event>) {
    forall i :: 0 <= i < |events| ==> Issued(sources, events[i])
  }

  /** What the switch is sent. */
  function Sent(sources: seq<P4NameConverter>, events: seq<Event>): (r: seq<Update>)
    requires AllIssued(sources, events)
    ensures |r| == |events|
  {
    seq(|events|, i requires 0 <= i < |events| => SentFor(sources, events[i]))
  }

  function SentFor(sources: seq<P4NameConverter>, e: Event): Update
    requires Issued(sources, e)
  {
    Encode(CodecOf(sources[e.source]), e.update).value
  }

  /** The updates that one source issued. */
  function From(events: seq<Event>, i: nat): seq<Update> {
    if events == [] then []
    else
      var init, e := From(events[..|events| - 1], i), events[|events| - 1];
      if e.source == i then init + [e.update] else init
  }

  /** Source `i` recognises what source `j` makes of the table. */
  predicate Recognises(sources: seq<P4NameConverter>, i: nat, j: nat, table: nat)
    requires i < |sources| && j < |sources|
  {
    table != 0 &&
    var id := ConvertId(sources[j], TableId, table, false);
    id.Some? && Owned(sources[i], Key(id.value, [], 0))
  }

  /** No source recognises a table that another source converts to. */
  ghost predicate Apart(sources: seq<P4NameConverter>) {
    forall i, j, table: nat ::
      0 <= i < |sources| && 0 <= j < |sources| && i != j ==> !Recognises(sources, i, j, table)
  }

  lemma {:induction false} AggregateHolds(sources: seq<P4NameConverter>, events: seq<Event>, i: nat)
    requires forall n :: 0 <= n < |sources| ==> Embeds(sources[n])
    requires Apart(sources) && AllIssued(sources, events) && i < |sources|
    ensures Holds(CodecOf(sources[i]), Replay(map[], From(events, i)), Replay(map[], Sent(sources, events)))
  {
    if events != [] {
      AggregateHolds(sources, events[..|events| - 1], i);
      AggregateStep(sources, events, i);
    }
  }

  lemma {:induction false} AggregateStep(sources: seq<P4NameConverter>, events: seq<Event>, i: nat)
    requires i < |sources| && Embeds(sources[i]) && Apart(sources) && AllIssued(sources, events) && events != []
    requires var init := events[..|events| - 1];
      Holds(CodecOf(sources[i]), Replay(map[], From(init, i)), Replay(map[], Sent(sources, init)))
    ensures Holds(CodecOf(sources[i]), Replay(map[], From(events, i)), Replay(map[], Sent(sources, events)))
  {
    var n := |events| - 1;
    var init, e := events[..n], events[n];
    assert Issued(sources, e);
    var v, t := Replay(map[], From(init, i)), Replay(map[], Sent(sources, init));
    assert Sent(sources, events)[..n] == Sent(sources, init);
    assert Replay(map[], Sent(sources, events)) == Step(t, SentFor(sources, e));
    EmbedsIsInjective(sources[i]);
    if e.source == i {
      OwnStep(CodecOf(sources[i]), v, t, e.update);
      assert From(events, i)[..|From(init, i)|] == From(init, i);
    } else {
      SentIsForeign(sources, e, i);
      ForeignStep(CodecOf(sources[i]), v, t, SentFor(sources, e));
    }
  }

  lemma {:induction false} SentIsForeign(sources: seq<P4NameConverter>, e: Event, i: nat)
    requires Apart(sources) && Issued(sources, e) && i < |sources| && e.source != i
    ensures !CodecOf(sources[i]).owned(SentFor(sources, e).key)
  {
    var id := ConvertId(sources[e.source], TableId, e.update.key.table, false);
    assert id.Some? && SentFor(sources, e).key == e.update.key.(table := id.value);
    assert !Recognises(sources, i, e.source, e.update.key.table);
  }

  /** The sources convert to the program of one switch. */
  ghost predicate OneSwitch(sources: seq<P4NameConverter>) {
    forall i, j :: 0 <= i < |sources| && 0 <= j < |sources| ==> sources[i].target(TableId) == sources[j].target(TableId)
  }

  lemma {:induction false} SentIsReadable(sources: seq<P4NameConverter>, events: seq<Event>, i: nat)
    requires forall n :: 0 <= n < |sources| ==> Embeds(sources[n])
    requires OneSwitch(sources) && AllIssued(sources, events) && i < |sources|
    ensures AllReadable(sources[i], Replay(map[], Sent(sources, events)))
  {
    forall n | 0 <= n < |events|
      ensures Readable(sources[i], Sent(sources, events)[n].key)
    {
      assert Issued(sources, events[n]);
      EncodedIsReadable(sources[events[n].source], events[n].update);
    }
    BuiltIsReadable(sources[i], Sent(sources, events));
  }

  /** Source `i` reads back exactly the table that its own updates make. */
  ghost predicate ReadsOwnTable(sources: seq<P4NameConverter>, events: seq<Event>, i: nat)
    requires AllIssued(sources, events) && i < |sources|
  {
    PullBack(sources[i], Replay(map[], Sent(sources, events))) == Some(Listing(Replay(map[], From(events, i))))
  }

  /** Aggregation transparency: whatever the interleaving, every source reads back exactly the table that
      its own updates make. */
  lemma {:induction false} AggregationIsTransparent(sources: seq<P4NameConverter>, events: seq<Event>, i: nat)
    requires forall n :: 0 <= n < |sources| ==> Embeds(sources[n])
    requires OneSwitch(sources) && Apart(sources) && AllIssued(sources, events) && i < |sources|
    ensures ReadsOwnTable(sources, events, i)
  {
    AggregateHolds(sources, events, i);
    SentIsReadable(sources, events, i);
    HeldIsPulledBack(sources[i], Replay(map[], From(events, i)), Replay(map[], Sent(sources, events)));
  }

  /** For every interleaving, every source reads back its own table. */
  ghost predicate Transparent(sources: seq<P4NameConverter>) {
    forall events, i | AllIssued(sources, events) && 0 <= i < |sources| :: ReadsOwnTable(sources, events, i)
  }

  /** The source has some action to write. */
  ghost predicate HasAction(c: P4NameConverter) {
    exists a :: ConvertAction(c, a, false).Some?
  }

  /** Sources of one switch are transparent to each other exactly if no source recognises a table that another
      one converts to. */
  lemma {:induction false} TransparentExactly(sources: seq<P4NameConverter>)
    requires forall n :: 0 <= n < |sources| ==> Embeds(sources[n]) && HasAction(sources[n])
    requires OneSwitch(sources)
    ensures Transparent(sources) <==> Apart(sources)
  {
    if Apart(sources) {
      forall events, i | AllIssued(sources, events) && 0 <= i < |sources|
        ensures ReadsOwnTable(sources, events, i)
      {
        AggregationIsTransparent(sources, events, i);
      }
    } else {
      MixedIsNotTransparent(sources);
    }
  }

  lemma {:induction false} MixedIsNotTransparent(sources: seq<P4NameConverter>)
    requires !Apart(sources) && forall n :: 0 <= n < |sources| ==> HasAction(sources[n])
    ensures !Transparent(sources)
  {
    var i, j, table: nat :| 0 <= i < |sources| && 0 <= j < |sources| && i != j && Recognises(sources, i, j, table);
    var event := ForeignEntry(sources, i, j, table);
    assert !ReadsOwnTable(sources, [event], i);
  }

  /** One INSERT by source `j` that source `i` takes for its own. */
  lemma {:induction false} ForeignEntry(
    sources: seq<P4NameConverter>, i: nat, j: nat, table: nat) returns (event: Event)
    requires i < |sources| && j < |sources| && i != j && HasAction(sources[j])
    requires Recognises(sources, i, j, table)
    ensures AllIssued(sources, [event]) && !ReadsOwnTable(sources, [event], i)
  {
    var a :| ConvertAction(sources[j], a, false).Some?;
    event := Event(j, Update(Insert, Key(table, [], 0), Some(a)));
    ForeignIsOwned(sources, i, event);
    OneEventSent(sources, event);
    NothingIssued(event, i);
    OwnedIsPulled(sources[i], Replay(map[], Sent(sources, [event])), SentFor(sources, event).key);
  }

  lemma {:induction false} ForeignIsOwned(sources: seq<P4NameConverter>, i: nat, event: Event)
    requires i < |sources| && event.source < |sources| && event.update.kind.Insert? && event.update.action.Some?
    requires Recognises(sources, i, event.source, event.update.key.table) &&
      event.update.key == Key(event.update.key.table, [], 0)
    requires ConvertAction(sources[event.source], event.update.action.value, false).Some?
    ensures Issued(sources, event)
    ensures var p := SentFor(sources, event); p.key in Step(map[], p) && Owned(sources[i], p.key)
  {
  }

  lemma {:induction false} NothingIssued(event: Event, i: nat)
    requires event.source != i
    ensures From([event], i) == [] && Replay(map[], From([event], i)) == map[]
  {
    assert [event][..0] == [];
  }

  lemma {:induction false} OneEventSent(sources: seq<P4NameConverter>, event: Event)
    requires Issued(sources, event)
    ensures AllIssued(sources, [event]) && Replay(map[], Sent(sources, [event])) == Step(map[], SentFor(sources, event))
  {
    var sent := Sent(sources, [event]);
    assert sent == [SentFor(sources, event)] && sent[..0] == [];
  }

  /** An entry that is recognised does not go unnoticed. */
  lemma {:induction false} OwnedIsPulled(c: P4NameConverter, t: Table, k: Key)
    requires k in t && Owned(c, k)
    ensures PullBack(c, t) != Some(Listing(map[]))
  {
    var none: Table := map[];
    assert Listing(none) == {};
    var r := PullBack(c, t);
    if r.Some? {
      assert BackEntry(c, k, t[k]).value in r.value;
    }
  }

  // ----- restructuring: one log, a new layout -----

  /** The source tables that a target with this `names` map takes. */
  predicate TakesTable(c: P4NameConverter, table: nat) {
    c.converts.None? ||
      var o := ById(c.source(TableId), table); o.Some? && Lookup(c.converts.value, o.value.name).Some?
  }

  /** A target of a layout: its converter and its allow lists. */
  datatype Slot = Slot(converter: P4NameConverter, filter: Filter)

  /** Both tests of a fill are made on the entry before it is converted. */
  predicate Takes(t: Slot, k: Key) {
    TakesTable(t.converter, k.table) && Allows(t.filter, k)
  }

  function TakenBy(t: Slot): Key -> bool {
    (k: Key) => Takes(t, k)
  }

  ghost predicate FitsTarget(t: Slot, log: seq<Update>) {
    Embeds(t.converter) && AllEncodable(CodecOf(t.converter), Only(log, TakenBy(t)))
  }

  ghost predicate FitsLayout(layout: seq<Slot>, log: seq<Update>) {
    forall j :: 0 <= j < |layout| ==> FitsTarget(layout[j], log)
  }

  /** What the fill sends to a target. */
  ghost function Share(t: Slot, log: seq<Update>): seq<Update>
    requires FitsTarget(t, log)
  {
    EncodeAll(CodecOf(t.converter), Only(log, TakenBy(t)))
  }

  function Join(a: Option<set<(Key, Action)>>, b: Option<set<(Key, Action)>>): Option<set<(Key, Action)>> {
    if a.None? || b.None? then None else Some(a.value + b.value)
  }

  /** What a Read over all the targets collects. */
  ghost function PulledUnion(layout: seq<Slot>, log: seq<Update>): Option<set<(Key, Action)>>
    requires FitsLayout(layout, log)
  {
    if layout == [] then Some({})
    else
      var init, last := layout[..|layout| - 1], layout[|layout| - 1];
      Join(PulledUnion(init, log), PullBack(last.converter, Replay(map[], Share(last, log))))
  }

  /** Each target holds its share of the virtual table, and the fill meets no error. */
  lemma {:induction false} TargetHoldsItsShare(t: Slot, log: seq<Update>)
    requires FitsTarget(t, log)
    ensures PullBack(t.converter, Replay(map[], Share(t, log))) ==
      Some(Listing(Restrict(Replay(map[], log), TakenBy(t))))
    ensures AllValid(map[], log) ==> AllValid(map[], Share(t, log))
  {
    var c, part := t.converter, Only(log, TakenBy(t));
    assert Restrict(map[], TakenBy(t)) == map[];
    ReplayOnly(map[], log, TakenBy(t));
    EmbedsIsInjective(c);
    ReplayEncoded(CodecOf(c), part);
    ShareIsReadable(c, part);
    HeldIsPulledBack(c, Replay(map[], part), Replay(map[], Share(t, log)));
    if AllValid(map[], log) {
      OnlyValid(map[], log, TakenBy(t));
      EncodedIsValid(CodecOf(c), part);
    }
  }

  lemma {:induction false} ShareIsReadable(c: P4NameConverter, us: seq<Update>)
    requires Embeds(c) && AllEncodable(CodecOf(c), us)
    ensures AllReadable(c, Replay(map[], EncodeAll(CodecOf(c), us)))
  {
    var image := EncodeAll(CodecOf(c), us);
    forall i | 0 <= i < |image|
      ensures Readable(c, image[i].key)
    {
      assert Encode(CodecOf(c), us[i]).Some?;
      EncodedIsReadable(c, us[i]);
    }
    BuiltIsReadable(c, image);
  }

  predicate Taken(layout: seq<Slot>, k: Key) {
    exists j :: 0 <= j < |layout| && Takes(layout[j], k)
  }

  lemma {:induction false} TakenAppend(layout: seq<Slot>, t: Slot, k: Key)
    ensures Taken(layout + [t], k) <==> Taken(layout, k) || Takes(t, k)
  {
    var all := layout + [t];
    if j :| 0 <= j < |layout| && Takes(layout[j], k) {
      assert Takes(all[j], k);
    }
    if Takes(t, k) {
      assert Takes(all[|layout|], k);
    }
  }

  lemma {:induction false} UnionOfShares(layout: seq<Slot>, log: seq<Update>)
    requires FitsLayout(layout, log)
    ensures PulledUnion(layout, log) == Some(Listing(Restrict(Replay(map[], log), k => Taken(layout, k))))
  {
    if layout != [] {
      var n := |layout| - 1;
      var init := layout[..n];
      assert layout == init + [layout[n]];
      assert forall j :: 0 <= j < n ==> init[j] == layout[j];
      UnionOfShares(init, log);
      TargetHoldsItsShare(layout[n], log);
      forall k
        ensures Taken(layout, k) <==> Taken(init, k) || Takes(layout[n], k)
      {
        TakenAppend(init, layout[n], k);
      }
      JoinListings(Replay(map[], log), k => Taken(init, k), TakenBy(layout[n]), k => Taken(layout, k));
    } else {
      var none: Table := map[];
      assert Restrict(Replay(map[], log), k => Taken(layout, k)) == none && Listing(none) == {};
    }
  }

  lemma {:induction false} JoinListings(v: Table, p: Key -> bool, q: Key -> bool, r: Key -> bool)
    requires forall k :: r(k) <==> p(k) || q(k)
    ensures Listing(Restrict(v, p)) + Listing(Restrict(v, q)) == Listing(Restrict(v, r))
  {
    forall e | e in Listing(Restrict(v, r))
      ensures e in Listing(Restrict(v, p)) + Listing(Restrict(v, q))
    {
      var k :| k in Restrict(v, r) && e == (k, v[k]);
      assert k in Restrict(v, p) || k in Restrict(v, q);
    }
    forall e | e in Listing(Restrict(v, p)) + Listing(Restrict(v, q))
      ensures e in Listing(Restrict(v, r))
    {
      var k :| k in v && e == (k, v[k]) && (p(k) || q(k));
      assert k in Restrict(v, r);
    }
  }

  /** Restructuring preserves meaning exactly when every live entry is taken by some target. */
  lemma {:induction false} RestructuringExactly(layout: seq<Slot>, log: seq<Update>)
    requires FitsLayout(layout, log)
    ensures PulledUnion(layout, log) == Some(Listing(Replay(map[], log))) <==>
      forall k :: k in Replay(map[], log) ==> Taken(layout, k)
  {
    UnionOfShares(layout, log);
    ListingExactly(Replay(map[], log), k => Taken(layout, k));
  }

  lemma {:induction false} ListingExactly(v: Table, p: Key -> bool)
    ensures Listing(Restrict(v, p)) == Listing(v) <==> forall k :: k in v ==> p(k)
  {
    if forall k :: k in v ==> p(k) {
      assert Restrict(v, p) == v;
    }
    if k :| k in v && !p(k) {
      assert (k, v[k]) in Listing(v);
      assert (k, v[k]) !in Listing(Restrict(v, p));
    }
  }

  /** When no live entry is taken by two targets, none is collected twice. */
  lemma {:induction false} SharesAreDisjoint(t: Slot, u: Slot, log: seq<Update>)
    requires FitsTarget(t, log) && FitsTarget(u, log)
    requires forall k :: k in Replay(map[], log) ==> !(Takes(t, k) && Takes(u, k))
    ensures var a, b :=
        PullBack(t.converter, Replay(map[], Share(t, log))), PullBack(u.converter, Replay(map[], Share(u, log)));
      a.Some? && b.Some? && a.value !! b.value
  {
    TargetHoldsItsShare(t, log);
    TargetHoldsItsShare(u, log);
  }

  // ----- routing: which targets of a layout a Write goes to -----

  /** A single target gets everything, whatever its `names` map says. */
  predicate Routed(layout: seq<Slot>, i: nat, table: nat)
    requires i < |layout|
  {
    |layout| == 1 || TakesTable(layout[i].converter, table)
  }

  /** The map has the name of the table among its keys. */
  ghost predicate NamesTable(c: P4NameConverter, table: nat) {
    && c.converts.Some? && ById(c.source(TableId), table).Some?
    && exists j :: 0 <= j < |c.converts.value| && c.converts.value[j].0 == ById(c.source(TableId), table).value.name
  }

  lemma {:induction false} TakesExactly(c: P4NameConverter, table: nat)
    ensures TakesTable(c, table) <==> c.converts.None? || NamesTable(c, table)
  {
    if c.converts.Some? && ById(c.source(TableId), table).Some? {
      LookupHasKey(c.converts.value, ById(c.source(TableId), table).value.name);
    }
  }

  lemma {:induction false} LookupHasKey(rs: Renames, name: string)
    ensures Lookup(rs, name).Some? <==> exists j :: 0 <= j < |rs| && rs[j].0 == name
  {
    if rs != [] && rs[0].0 != name {
      LookupHasKey(rs[1..], name);
      if j :| 0 <= j < |rs[1..]| && rs[1..][j].0 == name {
        assert rs[j + 1].0 == name;
      }
      if j :| 0 <= j < |rs| && rs[j].0 == name {
        assert rs[1..][j - 1].0 == name;
      }
    }
  }

  /** What is written to the target: the allow lists apply in any case. */
  function RoutedTo(layout: seq<Slot>, i: nat): Key -> bool
    requires i < |layout|
  {
    (k: Key) => Routed(layout, i, k.table) && Allows(layout[i].filter, k)
  }

  /** The targets for an entry of the table, in their order.  Unless there is a single target the table needs
      a name: the wildcard and an unknown id are errors. */
  method TargetsFor(layout: seq<Slot>, source: P4Info, table: nat) returns (indices: Option<seq<nat>>)
    requires forall i :: 0 <= i < |layout| ==> layout[i].converter.source == source
    ensures indices.None? <==> |layout| != 1 && (table == 0 || ById(source(TableId), table).None?)
    ensures indices.Some? ==> forall i :: i in indices.value <==> 0 <= i < |layout| && Routed(layout, i, table)
    ensures indices.Some? ==> forall i :: i in indices.value <==>
      && 0 <= i < |layout|
      && (|layout| == 1 || layout[i].converter.converts.None? || NamesTable(layout[i].converter, table))
    ensures indices.Some? ==> forall m, n :: 0 <= m < n < |indices.value| ==> indices.value[m] < indices.value[n]
  {
    forall i | 0 <= i < |layout|
      ensures TakesTable(layout[i].converter, table) <==>
        layout[i].converter.converts.None? || NamesTable(layout[i].converter, table)
    {
      TakesExactly(layout[i].converter, table);
    }
    if |layout| == 1 {
      return Some([0]);
    }
    if table == 0 || ById(source(TableId), table).None? {
      return None;
    }
    var name := ById(source(TableId), table).value.name;
    var chosen: seq<nat> := [];
    for i := 0 to |layout|
      invariant forall j :: j in chosen <==> 0 <= j < i && Routed(layout, j, table)
      invariant forall m, n :: 0 <= m < n < |chosen| ==> chosen[m] < chosen[n]
    {
      var names := layout[i].converter.converts;
      if names.None? || Lookup(names.value, name).Some? {
        assert forall m :: 0 <= m < |chosen| ==> chosen[m] in chosen;
        chosen := chosen + [i];
      }
    }
    return Some(chosen);
  }

  /** A fill applies the `names` map, a Write to a single target does not.  So refilling a target rebuilds what
      the writes made if and only if there are other targets or it takes the table of every live entry that
      its allow lists admit. */
  lemma {:induction false} RefillRebuildsExactly(layout: seq<Slot>, i: nat, log: seq<Update>)
    requires i < |layout|
    ensures Replay(map[], Only(log, TakenBy(layout[i]))) == Replay(map[], Only(log, RoutedTo(layout, i))) <==>
      |layout| != 1 ||
      forall k :: k in Replay(map[], log) && Allows(layout[i].filter, k) ==> TakesTable(layout[i].converter, k.table)
  {
    var live, taken, routed := Replay(map[], log), TakenBy(layout[i]), RoutedTo(layout, i);
    assert Restrict(map[], taken) == map[] == Restrict(map[], routed);
    ReplayOnly(map[], log, taken);
    ReplayOnly(map[], log, routed);
    if k :| k in live && Allows(layout[i].filter, k) && !Takes(layout[i], k) && |layout| == 1 {
      assert k in Restrict(live, routed) && k !in Restrict(live, taken);
    }
  }

  // ----- where embeddings come from -----

  /** Converted names are names of target objects, not merely aliases, and everything is well formed. */
  ghost predicate NamesTheTarget(c: P4NameConverter, idType: IdType) {
    && WellFormed(c.source(idType)) && WellFormed(c.target(idType))
    && forall o :: o in c.source(idType) && ForwardName(c, o.name).Named? ==>
      var t := ByName(c.target(idType), ForwardName(c, o.name).name);
      t.Some? ==> ForwardName(c, o.name) == Named(t.value.name)
  }

  lemma {:induction false} ForwardLands(c: P4NameConverter, idType: IdType, id: nat) returns (o: Preamble, t: Preamble)
    requires NamesTheTarget(c, idType) && ConvertId(c, idType, id, false).Some?
    ensures LandsByName(c, idType, o, t) && o.id == id && t.id == ConvertId(c, idType, id, false).value
  {
    o := ById(c.source(idType), id).value;
    t := ByName(c.target(idType), ForwardName(c, o.name).name).value;
  }

  /** A source with a prefix: every name can be prefixed and stripped, tables have a namespace. */
  ghost predicate PrefixedSource(c: P4NameConverter) {
    && c.converts.None? && DotFree(c.prefix)
    && NamesTheTarget(c, TableId) && NamesTheTarget(c, ActionId)
    && (forall o :: o in c.source(TableId) ==> HasOneDot(o.name) && RoundTrips(o.name, c.prefix))
    && (forall o :: o in c.source(ActionId) ==> RoundTrips(o.name, c.prefix))
    && (forall o :: o in c.target(TableId) ==> o.id != 0)
  }

  lemma {:induction false} PrefixedTableIsOwned(c: P4NameConverter, id: nat)
    requires PrefixedSource(c) && ConvertId(c, TableId, id, false).Some?
    ensures var x := ConvertId(c, TableId, id, false).value;
      x != 0 && (var o := ById(c.target(TableId), x);
        && o.Some? && HasOneDot(o.value.name) && !DotFree(o.value.name)
        && exists rest :: Pure(o.value.name) == c.prefix + rest)
  {
    var o, t := ForwardLands(c, TableId, id);
    IdIdentifies(c.target(TableId), t, t.id);
    NoActionIsDotFree();
    OneDotParts(o.name);
    PrefixedParts(o.name, c.prefix);
  }

  lemma {:induction false} PrefixedSourceEmbeds(c: P4NameConverter)
    requires PrefixedSource(c)
    ensures Embeds(c)
  {
    forall id: nat, idType | idType in {TableId, ActionId} && ConvertId(c, idType, id, false).Some?
      ensures ConvertId(c, idType, ConvertId(c, idType, id, false).value, true) == Some(id)
    {
      var o, t := ForwardLands(c, idType, id);
      PrefixOnlyRoundTrip(c, idType, o, t);
    }
    forall id: nat | ConvertId(c, TableId, id, false).Some?
      ensures ConvertId(c, TableId, id, false).value != 0 &&
        Owned(c, Key(ConvertId(c, TableId, id, false).value, [], 0))
    {
      PrefixedTableIsOwned(c, id);
    }
  }

  /** A source without a prefix whose `names` map renames injectively. */
  ghost predicate RenamedSource(c: P4NameConverter) {
    && c.prefix == ""
    && NamesTheTarget(c, TableId) && NamesTheTarget(c, ActionId)
    && (forall o :: o in c.source(TableId) || o in c.source(ActionId) ==> InjectiveAt(c, o.name))
    && (forall o :: o in c.target(TableId) ==> o.id != 0 && HasOneDot(o.name))
  }

  lemma {:induction false} RenamedSourceEmbeds(c: P4NameConverter)
    requires RenamedSource(c)
    ensures Embeds(c)
  {
    forall id: nat, idType | idType in {TableId, ActionId} && ConvertId(c, idType, id, false).Some?
      ensures ConvertId(c, idType, ConvertId(c, idType, id, false).value, true) == Some(id)
    {
      var o, t := ForwardLands(c, idType, id);
      RenameOnlyRoundTrip(c, idType, o, t);
    }
    forall id: nat | ConvertId(c, TableId, id, false).Some?
      ensures ConvertId(c, TableId, id, false).value != 0 &&
        Owned(c, Key(ConvertId(c, TableId, id, false).value, [], 0))
    {
      var o, t := ForwardLands(c, TableId, id);
      IdIdentifies(c.target(TableId), t, t.id);
    }
  }

  /** Sources of one switch, none of whose prefixes begins with another. */
  ghost predicate PrefixedApart(sources: seq<P4NameConverter>) {
    && (forall i :: 0 <= i < |sources| ==> PrefixedSource(sources[i]))
    && forall i, j :: 0 <= i < |sources| && 0 <= j < |sources| && i != j ==>
      sources[i].target == sources[j].target && Incomparable(sources[i].prefix, sources[j].prefix)
  }

  lemma {:induction false} PrefixesKeepApart(sources: seq<P4NameConverter>)
    requires PrefixedApart(sources)
    ensures Apart(sources)
  {
    forall i, j, table: nat | 0 <= i < |sources| && 0 <= j < |sources| && i != j
      ensures !Recognises(sources, i, j, table)
    {
      var p, q := sources[i].prefix, sources[j].prefix;
      var id := ConvertId(sources[j], TableId, table, false);
      if id.Some? {
        PrefixedTableIsOwned(sources[j], table);
        var name := ById(sources[j].target(TableId), id.value).value.name;
        var rest :| Pure(name) == q + rest;
        StartOfConcat(p, q, rest);
      }
    }
  }

  /** A prefix that begins another one takes the other source's tables for its own. */
  lemma {:induction false} NestedPrefixesMix(sources: seq<P4NameConverter>, i: nat, j: nat, table: nat)
    requires i < |sources| && j < |sources| && i != j
    requires PrefixedSource(sources[j]) && sources[i].target == sources[j].target
    requires sources[i].prefix <= sources[j].prefix
    requires table != 0 && ConvertId(sources[j], TableId, table, false).Some?
    ensures !Apart(sources)
  {
    PrefixedTableIsOwned(sources[j], table);
    var id := ConvertId(sources[j], TableId, table, false);
    var name := ById(sources[j].target(TableId), id.value).value.name;
    var rest :| Pure(name) == sources[j].prefix + rest;
    assert sources[i].prefix <= Pure(name);
    assert Recognises(sources, i, j, table);
  }

  /** Aggregation transparency from what a configuration can check: names and prefixes. */
  lemma {:induction false} PrefixesMakeAggregationTransparent(sources: seq<P4NameConverter>, events: seq<Event>, i: nat)
    requires PrefixedApart(sources) && AllIssued(sources, events) && i < |sources|
    ensures ReadsOwnTable(sources, events, i)
  {
    PrefixesKeepApart(sources);
    forall n | 0 <= n < |sources|
      ensures Embeds(sources[n])
    {
      PrefixedSourceEmbeds(sources[n]);
    }
    AggregationIsTransparent(sources, events, i);
  }
}
