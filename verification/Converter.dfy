/** P4INFO lookups (`common/p4runtime_lib/helper.py`) and the translation of ids between the program a
    controller sees and the program a switch runs (`common/p4_name_id_helper.py`). */
module Converter {
  import opened Tables
  import opened Names

  /** What identifies an object of a P4 program. */
  datatype Preamble = Preamble(id: nat, name: string, alias: string)

  datatype IdType = TableId | ActionId | MeterId | CounterId | RegisterId | DigestId

  type P4Info = IdType -> seq<Preamble>

  /** The first object with that name or alias; the empty name finds nothing. */
  function ByName(objects: seq<Preamble>, name: string): (o: Option<Preamble>)
    ensures o.Some? ==> o.value in objects && name != "" && (o.value.name == name || o.value.alias == name)
    ensures o.None? ==> name == "" || forall i :: 0 <= i < |objects| ==>
      objects[i].name != name && objects[i].alias != name
  {
    if objects == [] || name == "" then None
    else if objects[0].name == name || objects[0].alias == name then Some(objects[0])
    else ByName(objects[1..], name)
  }

  function ById(objects: seq<Preamble>, id: nat): (o: Option<Preamble>)
    ensures o.Some? ==> o.value in objects && o.value.id == id
    ensures o.None? ==> forall i :: 0 <= i < |objects| ==> objects[i].id != id
  {
    if objects == [] then None
    else if objects[0].id == id then Some(objects[0])
    else ById(objects[1..], id)
  }

  /** The `names` dictionary of a target, in insertion order. */
  type Renames = seq<(string, string)>

  datatype P4NameConverter = P4NameConverter(source: P4Info, target: P4Info, prefix: string, converts: Option<Renames>)

  /** The value under a key. */
  function Lookup(rs: Renames, key: string): Option<string> {
    if rs == [] then None else if rs[0].0 == key then Some(rs[0].1) else Lookup(rs[1..], key)
  }

  /** The key in the inverted dictionary: the last one that has the value. */
  function LookupBack(rs: Renames, value: string): Option<string> {
    if rs == [] then None
    else if rs[|rs| - 1].1 == value then Some(rs[|rs| - 1].0)
    else LookupBack(rs[..|rs| - 1], value)
  }

  function GetOr(o: Option<string>, default: string): string {
    if o.Some? then o.value else default
  }

  function Rename(c: P4NameConverter, name: string): string {
    if c.converts.None? then name else GetOr(Lookup(c.converts.value, name), name)
  }

  function RenameBack(c: P4NameConverter, name: string): string {
    if c.converts.None? then name else GetOr(LookupBack(c.converts.value, name), name)
  }

  /** The map has each key once. */
  predicate DistinctKeys(rs: Renames) {
    forall i, j :: 0 <= i < j < |rs| ==> rs[i].0 != rs[j].0
  }

  /** A name that is a key becomes its value, any other name stays. */
  lemma {:induction false} RenamesExactly(c: P4NameConverter, name: string)
    requires c.converts.Some? ==> DistinctKeys(c.converts.value)
    ensures c.converts.None? ==> Rename(c, name) == name
    ensures c.converts.Some? ==>
      forall i :: 0 <= i < |c.converts.value| && c.converts.value[i].0 == name ==>
        Rename(c, name) == c.converts.value[i].1
    ensures c.converts.Some? && (forall i :: 0 <= i < |c.converts.value| ==> c.converts.value[i].0 != name) ==>
      Rename(c, name) == name
  {
    if c.converts.Some? {
      LookupFinds(c.converts.value, name);
    }
  }

  lemma {:induction false} LookupFinds(rs: Renames, name: string)
    requires DistinctKeys(rs)
    ensures forall i :: 0 <= i < |rs| && rs[i].0 == name ==> Lookup(rs, name) == Some(rs[i].1)
    ensures (forall i :: 0 <= i < |rs| ==> rs[i].0 != name) ==> Lookup(rs, name) == None
  {
    if rs != [] {
      LookupFinds(rs[1..], name);
      forall i | 0 <= i < |rs| && rs[i].0 == name
        ensures Lookup(rs, name) == Some(rs[i].1)
      {
        if i > 0 {
          assert rs[1..][i - 1] == rs[i];
        }
      }
    }
  }

  /** Backwards a value becomes the last key that has it, any other name stays. */
  lemma {:induction false} RenamesBackExactly(c: P4NameConverter, name: string)
    ensures c.converts.None? ==> RenameBack(c, name) == name
    ensures c.converts.Some? ==> forall i ::
      && 0 <= i < |c.converts.value| && c.converts.value[i].1 == name
      && (forall j :: i < j < |c.converts.value| ==> c.converts.value[j].1 != name)
      ==> RenameBack(c, name) == c.converts.value[i].0
    ensures c.converts.Some? && (forall i :: 0 <= i < |c.converts.value| ==> c.converts.value[i].1 != name) ==>
      RenameBack(c, name) == name
  {
    if c.converts.Some? {
      LastKey(c.converts.value, name);
    }
  }

  lemma {:induction false} LastKey(rs: Renames, name: string)
    ensures forall i ::
      0 <= i < |rs| && rs[i].1 == name && (forall j :: i < j < |rs| ==> rs[j].1 != name) ==>
      LookupBack(rs, name) == Some(rs[i].0)
    ensures (forall i :: 0 <= i < |rs| ==> rs[i].1 != name) ==> LookupBack(rs, name) == None
  {
    if rs != [] && rs[|rs| - 1].1 != name {
      var init := rs[..|rs| - 1];
      LastKey(init, name);
      assert forall i :: 0 <= i < |init| ==> init[i] == rs[i];
    }
  }

  /** Forward: rename, then prefix. */
  function ForwardName(c: P4NameConverter, name: string): NameResult {
    PrefixName(Rename(c, name), c.prefix)
  }

  /** Reverse: rename first here too, then take the prefix off. */
  function BackName(c: P4NameConverter, name: string): NameResult {
    RemovePrefix(RenameBack(c, name), c.prefix)
  }

  /** The objects of the program on one side. */
  function Side(c: P4NameConverter, idType: IdType, targetSide: bool): seq<Preamble> {
    if targetSide then c.target(idType) else c.source(idType)
  }

  function ConvertId(c: P4NameConverter, idType: IdType, id: nat, reverse: bool): Option<nat> {
    var o := ById(Side(c, idType, reverse), id);
    if o.None? then None
    else
      var name := if reverse then BackName(c, o.value.name) else ForwardName(c, o.value.name);
      if !name.Named? then None
      else
        var o' := ByName(Side(c, idType, !reverse), name.name);
        if o'.None? then None else Some(o'.value.id)
  }

  /** Unique ids, names and aliases, and no alias that is another object's name. */
  ghost predicate WellFormed(objects: seq<Preamble>) {
    && (forall i :: 0 <= i < |objects| ==> objects[i].name != "")
    && forall i, j :: 0 <= i < |objects| && 0 <= j < |objects| && i != j ==>
      && objects[i].id != objects[j].id && objects[i].name != objects[j].name
      && objects[i].alias != objects[j].name && objects[i].alias != objects[j].alias
  }

  /** An id is converted exactly if an object of the one program has it and, under its converted name, one of the
      other has that as name or alias; the result is the id of the latter. */
  lemma {:induction false} ConvertsExactly(c: P4NameConverter, idType: IdType, id: nat, reverse: bool, x: nat)
    requires WellFormed(c.source(idType)) && WellFormed(c.target(idType))
    ensures ConvertId(c, idType, id, reverse) == Some(x) <==> exists o, t ::
      && o in Side(c, idType, reverse) && t in Side(c, idType, !reverse)
      && o.id == id && t.id == x && ConvertsTo(c, o.name, t, reverse)
  {
    var from, to := Side(c, idType, reverse), Side(c, idType, !reverse);
    if ConvertId(c, idType, id, reverse) == Some(x) {
      var o := ById(from, id).value;
      var name := if reverse then BackName(c, o.name) else ForwardName(c, o.name);
      assert ConvertsTo(c, o.name, ByName(to, name.name).value, reverse);
    }
    if o, t :| o in from && t in to && o.id == id && t.id == x && ConvertsTo(c, o.name, t, reverse) {
      IdIdentifies(from, o, id);
      var name := if reverse then BackName(c, o.name) else ForwardName(c, o.name);
      NameIdentifies(to, t, name.name);
    }
  }

  predicate ConvertsTo(c: P4NameConverter, name: string, t: Preamble, reverse: bool) {
    var r := if reverse then RemovePrefix(RenameBack(c, name), c.prefix) else PrefixName(Rename(c, name), c.prefix);
    r.Named? && r.name != "" && (r.name == t.name || r.name == t.alias)
  }

  lemma {:induction false} NameIdentifies(objects: seq<Preamble>, o: Preamble, name: string)
    requires WellFormed(objects) && o in objects
    ensures ByName(objects, name) == Some(o) <==> name != "" && (name == o.name || name == o.alias)
  {
    var r := ByName(objects, name);
    if name != "" && (name == o.name || name == o.alias) {
      var i :| 0 <= i < |objects| && objects[i] == o;
      assert r.Some?;
      var j :| 0 <= j < |objects| && objects[j] == r.value;
      assert i == j;
    }
  }

  lemma {:induction false} IdIdentifies(objects: seq<Preamble>, o: Preamble, id: nat)
    requires WellFormed(objects) && o in objects
    ensures ById(objects, id) == Some(o) <==> id == o.id
  {
    var r := ById(objects, id);
    if id == o.id {
      var i :| 0 <= i < |objects| && objects[i] == o;
      assert r.Some?;
      var j :| 0 <= j < |objects| && objects[j] == r.value;
      assert i == j;
    }
  }

  /** The forward conversion lands on the object `t` of the target, which has the converted name as its name
      or as its alias. */
  ghost predicate LandsOn(c: P4NameConverter, idType: IdType, o: Preamble, t: Preamble) {
    && WellFormed(c.source(idType)) && WellFormed(c.target(idType))
    && o in c.source(idType) && t in c.target(idType)
    && ForwardName(c, o.name).Named?
    && ByName(c.target(idType), ForwardName(c, o.name).name) == Some(t)
  }

  /** It lands there by the name, so what comes back is what was sent. */
  ghost predicate LandsByName(c: P4NameConverter, idType: IdType, o: Preamble, t: Preamble) {
    LandsOn(c, idType, o, t) && ForwardName(c, o.name) == Named(t.name)
  }

  /** Converting an id there and back gives the id itself exactly when the name that comes back names or
      abbreviates the object. */
  lemma {:induction false} IdRoundTripExactly(c: P4NameConverter, idType: IdType, o: Preamble, t: Preamble)
    requires LandsOn(c, idType, o, t)
    ensures ConvertId(c, idType, o.id, false) == Some(t.id)
    ensures ConvertId(c, idType, t.id, true) == Some(o.id) <==>
      var back := BackName(c, t.name);
      back.Named? && back.name != "" && (back.name == o.name || back.name == o.alias)
  {
    IdIdentifies(c.source(idType), o, o.id);
    IdBackExactly(c, idType, o, t);
  }

  lemma {:induction false} IdBackExactly(c: P4NameConverter, idType: IdType, o: Preamble, t: Preamble)
    requires WellFormed(c.source(idType)) && WellFormed(c.target(idType))
    requires o in c.source(idType) && t in c.target(idType)
    ensures ConvertId(c, idType, t.id, true) == Some(o.id) <==>
      var back := BackName(c, t.name);
      back.Named? && back.name != "" && (back.name == o.name || back.name == o.alias)
  {
    IdIdentifies(c.target(idType), t, t.id);
    var back := BackName(c, t.name);
    if back.Named? {
      FoundById(c.source(idType), o, back.name);
    }
  }

  /** A lookup by name gives the object's id exactly if it finds the object. */
  lemma {:induction false} FoundById(objects: seq<Preamble>, o: Preamble, name: string)
    requires WellFormed(objects) && o in objects
    ensures ByName(objects, name).Some? && ByName(objects, name).value.id == o.id <==>
      name != "" && (name == o.name || name == o.alias)
  {
    NameIdentifies(objects, o, name);
    var r := ByName(objects, name);
    if r.Some? {
      IdIdentifies(objects, o, r.value.id);
      IdIdentifies(objects, r.value, r.value.id);
    }
  }

  /** Without a `names` map the round trip holds for every name the prefix can be taken off again. */
  lemma {:induction false} PrefixOnlyRoundTrip(c: P4NameConverter, idType: IdType, o: Preamble, t: Preamble)
    requires LandsByName(c, idType, o, t) && c.converts.None? && DotFree(c.prefix) && RoundTrips(o.name, c.prefix)
    ensures ConvertId(c, idType, o.id, false) == Some(t.id) && ConvertId(c, idType, t.id, true) == Some(o.id)
  {
    RoundTripExactly(o.name, c.prefix);
    IdIdentifies(c.source(idType), o, o.id);
    IdRoundTripExactly(c, idType, o, t);
    assert o.name != "" by {
      var i :| 0 <= i < |c.source(idType)| && c.source(idType)[i] == o;
    }
  }

  /** No other name is renamed to what `name` becomes. */
  ghost predicate InjectiveAt(c: P4NameConverter, name: string) {
    c.converts.Some? ==> forall i :: 0 <= i < |c.converts.value| && c.converts.value[i].1 == Rename(c, name) ==>
      c.converts.value[i].0 == name
  }

  lemma {:induction false} LookupBackMeaning(rs: Renames, v: string)
    ensures LookupBack(rs, v).Some? ==> exists i :: 0 <= i < |rs| && rs[i] == (LookupBack(rs, v).value, v)
    ensures LookupBack(rs, v).None? ==> forall i :: 0 <= i < |rs| ==> rs[i].1 != v
  {
    if rs != [] && rs[|rs| - 1].1 != v {
      LookupBackMeaning(rs[..|rs| - 1], v);
    }
  }

  lemma {:induction false} LookupMeaning(rs: Renames, k: string)
    ensures Lookup(rs, k).Some? ==> exists i :: 0 <= i < |rs| && rs[i] == (k, Lookup(rs, k).value)
  {
    if rs != [] && rs[0].0 != k {
      LookupMeaning(rs[1..], k);
      if Lookup(rs, k).Some? {
        var i :| 0 <= i < |rs[1..]| && rs[1..][i] == (k, Lookup(rs, k).value);
        assert rs[i + 1] == (k, Lookup(rs, k).value);
      }
    }
  }

  lemma {:induction false} RenameRoundTrip(c: P4NameConverter, name: string)
    requires InjectiveAt(c, name)
    ensures RenameBack(c, Rename(c, name)) == name
  {
    if c.converts.Some? {
      LookupMeaning(c.converts.value, name);
      LookupBackMeaning(c.converts.value, Rename(c, name));
    }
  }

  /** With an empty prefix the round trip holds for every name that is renamed injectively. */
  lemma {:induction false} RenameOnlyRoundTrip(c: P4NameConverter, idType: IdType, o: Preamble, t: Preamble)
    requires LandsByName(c, idType, o, t) && c.prefix == "" && InjectiveAt(c, o.name)
    ensures ConvertId(c, idType, o.id, false) == Some(t.id) && ConvertId(c, idType, t.id, true) == Some(o.id)
  {
    RenameRoundTrip(c, o.name);
    IdRoundTripExactly(c, idType, o, t);
    assert o.name != "" by {
      var i :| 0 <= i < |c.source(idType)| && c.source(idType)[i] == o;
    }
    NothingToAdd(Rename(c, o.name));
    NothingToRemove(o.name);
  }

  /** With a prefix and a `names` map together the reverse conversion looks the prefixed name up among the
      renamed ones before it strips the prefix.  A round trip needs that what is stripped names the object:
      the key, where the look-up finds one, and the renamed name otherwise. */
  lemma {:induction false} BothSetRoundTripExactly(c: P4NameConverter, idType: IdType, o: Preamble, t: Preamble)
    requires LandsByName(c, idType, o, t) && c.converts.Some? && DotFree(c.prefix)
    requires RoundTrips(Rename(c, o.name), c.prefix)
    ensures ConvertId(c, idType, t.id, true) == Some(o.id) <==>
      match LookupBack(c.converts.value, t.name)
      case Some(key) =>
        var r := RemovePrefix(key, c.prefix); r.Named? && r.name != "" && (r.name == o.name || r.name == o.alias)
      case None =>
        var r := Rename(c, o.name); r != "" && (r == o.name || r == o.alias)
  {
    RoundTripExactly(Rename(c, o.name), c.prefix);
    IdRoundTripExactly(c, idType, o, t);
  }

  /** A table that is both renamed and prefixed does not come back. */
  lemma {:induction false} RenamedAndPrefixedIsLost()
    ensures var c :=
      P4NameConverter(_ => [Preamble(1, "a", "a")], _ => [Preamble(2, "Pb", "Pb")], "P", Some([("a", "b")]));
      ConvertId(c, TableId, 1, false) == Some(2) && ConvertId(c, TableId, 2, true) == None
  {
    var o, t := Preamble(1, "a", "a"), Preamble(2, "Pb", "Pb");
    var c := P4NameConverter(_ => [o], _ => [t], "P", Some([("a", "b")]));
    assert ById([o], 1) == Some(o) && ById([t], 2) == Some(t);
    assert Rename(c, "a") == "b" && RenameBack(c, "Pb") == "Pb";
    assert "P" + "b" == "Pb" && PrefixName("b", "P") == Named("Pb");
    assert "P" <= "Pb" && "Pb"[1..] == "b" && RemovePrefix("Pb", "P") == Named("b");
    assert ByName([t], "Pb") == Some(t);
    assert ByName([o], "b") == ByName([o][1..], "b") == None;
  }
}
