/** Per-target allow lists: which entries a target may hold (`proxy.py`). */
module AllowLists {
  import opened Tables

  type AllowList = map<string, seq<Value>>

  datatype Filter = NoFilter | AllowOnly(lists: AllowList)

  predicate FieldAllowed(m: FieldMatch, lists: AllowList) {
    m.Exact? && m.field in lists ==> m.value in lists[m.field]
  }

  /** Only EXACT fields are compared; an entry without the listed field passes. */
  predicate Allows(f: Filter, k: Key) {
    f.AllowOnly? ==> forall i :: 0 <= i < |k.fields| ==> FieldAllowed(k.fields[i], f.lists)
  }

  predicate HasExact(k: Key, param: string) {
    exists i :: 0 <= i < |k.fields| && k.fields[i].Exact? && k.fields[i].field == param
  }

  function Lists(f: Filter): AllowList {
    if f.NoFilter? then map[] else f.lists
  }

  /** The values of `vs` that are new to `known`, each once, in order. */
  function Fresh(known: seq<Value>, vs: seq<Value>): (r: seq<Value>)
    ensures forall v :: v in r <==> v in vs && v !in known
  {
    if vs == [] then []
    else
      var v, init := vs[|vs| - 1], Fresh(known, vs[..|vs| - 1]);
      assert vs == vs[..|vs| - 1] + [v];
      if v in known + init then init else init + [v]
  }

  /** The allow lists after adding `adds`. */
  function Extended(lists: AllowList, adds: AllowList): AllowList {
    map p | p in lists.Keys + adds.Keys ::
      if p !in adds then lists[p] else if p in lists then lists[p] + Fresh(lists[p], adds[p]) else adds[p]
  }

  /** The part of `adds` that was not listed before; it selects what is replayed. */
  function Added(lists: AllowList, adds: AllowList): AllowList {
    map p | p in adds :: if p in lists then Fresh(lists[p], adds[p]) else adds[p]
  }

  function RemoveFirst(s: seq<Value>, v: Value): (r: seq<Value>)
    ensures forall w :: w in r ==> w in s
    ensures forall w :: w in s && w != v ==> w in r
  {
    if s == [] then []
    else if s[0] == v then s[1..]
    else
      assert s == [s[0]] + s[1..];
      [s[0]] + RemoveFirst(s[1..], v)
  }

  /** Each value of `vs` in turn removes its first occurrence. */
  function Without(s: seq<Value>, vs: seq<Value>): (r: seq<Value>)
    ensures forall w :: w in r ==> w in s
    ensures forall w :: w in s && w !in vs ==> w in r
  {
    if vs == [] then s else RemoveFirst(Without(s, vs[..|vs| - 1]), vs[|vs| - 1])
  }

  function Shortened(lists: AllowList, removals: AllowList): AllowList {
    map p | p in lists :: if p in removals then Without(lists[p], removals[p]) else lists[p]
  }

  // ----- what the changed lists admit, value by value -----

  lemma {:induction false} RemoveFirstRemovesOne(s: seq<Value>, v: Value)
    ensures multiset(RemoveFirst(s, v)) == multiset(s) - multiset{v}
  {
    if s != [] {
      assert s == [s[0]] + s[1..];
      if s[0] != v {
        RemoveFirstRemovesOne(s[1..], v);
      }
    }
  }

  /** Removing values takes away one occurrence for every occurrence in `vs`, as far as there are any. */
  lemma {:induction false} WithoutRemoves(s: seq<Value>, vs: seq<Value>)
    ensures multiset(Without(s, vs)) == multiset(s) - multiset(vs)
  {
    if vs != [] {
      var init, v := vs[..|vs| - 1], vs[|vs| - 1];
      assert vs == init + [v];
      WithoutRemoves(s, init);
      RemoveFirstRemovesOne(Without(s, init), v);
    }
  }

  ghost predicate DuplicateFree(lists: AllowList) {
    forall p :: p in lists ==> forall v :: multiset(lists[p])[v] <= 1
  }

  /** Some EXACT field has a value that is removed from the list of its parameter. */
  predicate CarriesRemoved(lists: AllowList, removals: AllowList, k: Key) {
    exists i :: 0 <= i < |k.fields| && IsRemoved(lists, removals, k.fields[i])
  }

  predicate IsRemoved(lists: AllowList, removals: AllowList, m: FieldMatch) {
    m.Exact? && m.field in lists && m.field in removals && m.value in removals[m.field]
  }

  /** On duplicate-free lists the shorter lists admit exactly the entries admitted before that carry no removed
      value. */
  lemma {:induction false} ShortenedAdmitsExactly(lists: AllowList, removals: AllowList, k: Key)
    requires DuplicateFree(lists)
    ensures Allows(AllowOnly(Shortened(lists, removals)), k) <==>
      Allows(AllowOnly(lists), k) && !CarriesRemoved(lists, removals, k)
  {
    forall i | 0 <= i < |k.fields|
      ensures FieldAllowed(k.fields[i], Shortened(lists, removals)) <==>
        FieldAllowed(k.fields[i], lists) && !IsRemoved(lists, removals, k.fields[i])
    {
      var m := k.fields[i];
      if m.Exact? && m.field in lists && m.field in removals {
        ValueRemains(lists[m.field], removals[m.field], m.value);
      }
    }
  }

  lemma {:induction false} ValueRemains(s: seq<Value>, vs: seq<Value>, v: Value)
    requires multiset(s)[v] <= 1
    ensures v in Without(s, vs) <==> v in s && v !in vs
  {
    WithoutRemoves(s, vs);
    assert v in Without(s, vs) <==> multiset(Without(s, vs))[v] > 0;
    assert v in vs <==> multiset(vs)[v] > 0;
    assert v in s <==> multiset(s)[v] > 0;
  }

  /** Every EXACT field whose parameter is in either list has its value in one of them. */
  predicate AdmittedByEither(lists: AllowList, adds: AllowList, k: Key) {
    forall i :: 0 <= i < |k.fields| ==> InEither(lists, adds, k.fields[i])
  }

  predicate InEither(lists: AllowList, adds: AllowList, m: FieldMatch) {
    m.Exact? && (m.field in lists || m.field in adds) ==>
      (m.field in lists && m.value in lists[m.field]) || (m.field in adds && m.value in adds[m.field])
  }

  /** The longer lists admit exactly what has its values in the old lists or among the added values. */
  lemma {:induction false} ExtendedAdmitsExactly(lists: AllowList, adds: AllowList, k: Key)
    ensures Allows(AllowOnly(Extended(lists, adds)), k) <==> AdmittedByEither(lists, adds, k)
  {
    forall i | 0 <= i < |k.fields|
      ensures FieldAllowed(k.fields[i], Extended(lists, adds)) <==> InEither(lists, adds, k.fields[i])
    {
    }
  }

  /** Every EXACT field whose parameter is lengthened has one of the values that were not listed before. */
  predicate CarriesOnlyNew(lists: AllowList, adds: AllowList, k: Key) {
    forall i :: 0 <= i < |k.fields| ==> IsNew(lists, adds, k.fields[i])
  }

  predicate IsNew(lists: AllowList, adds: AllowList, m: FieldMatch) {
    m.Exact? && m.field in adds ==> m.value in adds[m.field] && (m.field in lists ==> m.value !in lists[m.field])
  }

  /** The selection that is replayed. */
  lemma {:induction false} AddedSelectsExactly(lists: AllowList, adds: AllowList, k: Key)
    ensures Allows(AllowOnly(Added(lists, adds)), k) <==> CarriesOnlyNew(lists, adds, k)
  {
    forall i | 0 <= i < |k.fields|
      ensures FieldAllowed(k.fields[i], Added(lists, adds)) <==> IsNew(lists, adds, k.fields[i])
    {
    }
  }

  /** Removing values never lets a new entry in. */
  lemma {:induction false} ShorteningShrinks(lists: AllowList, removals: AllowList, k: Key)
    requires Allows(AllowOnly(Shortened(lists, removals)), k)
    ensures Allows(AllowOnly(lists), k)
  {
    forall i | 0 <= i < |k.fields|
      ensures FieldAllowed(k.fields[i], lists)
    {
      assert FieldAllowed(k.fields[i], Shortened(lists, removals));
    }
  }

  /** Lengthening lists that exist already never pushes an entry out. */
  lemma {:induction false} ExtendingGrows(lists: AllowList, adds: AllowList, k: Key)
    requires adds.Keys <= lists.Keys && Allows(AllowOnly(lists), k)
    ensures Allows(AllowOnly(Extended(lists, adds)), k)
  {
    forall i | 0 <= i < |k.fields|
      ensures FieldAllowed(k.fields[i], Extended(lists, adds))
    {
      assert FieldAllowed(k.fields[i], lists);
    }
  }

  /** An entry that carries an added, already listed parameter cannot both have been allowed before and
      be selected for the replay. */
  lemma {:induction false} AddedIsNew(lists: AllowList, adds: AllowList, k: Key, param: string)
    requires param in adds && param in lists && HasExact(k, param)
    ensures !(Allows(AllowOnly(lists), k) && Allows(AllowOnly(Added(lists, adds)), k))
  {
    var i :| 0 <= i < |k.fields| && k.fields[i].Exact? && k.fields[i].field == param;
    assert !(FieldAllowed(k.fields[i], lists) && FieldAllowed(k.fields[i], Added(lists, adds)));
  }

  /** A field occurs at most once in a match. */
  predicate DistinctFields(k: Key) {
    forall i, j :: 0 <= i < j < |k.fields| ==> k.fields[i].field != k.fields[j].field
  }

  /** One more set of values for a listed parameter: the replayed selection is what the lengthened lists
      add, without touching what was allowed, exactly for the entries that carry the parameter. */
  lemma {:induction false} ListedParameter(lists: AllowList, param: string, vs: seq<Value>, k: Key)
    requires param in lists && DistinctFields(k)
    ensures var adds := map[param := vs];
      var before, after, added :=
        Allows(AllowOnly(lists), k), Allows(AllowOnly(Extended(lists, adds)), k),
        Allows(AllowOnly(Added(lists, adds)), k);
      (if before then after && !added else after ==> added) <==> (before ==> HasExact(k, param))
  {
    var adds := map[param := vs];
    if Allows(AllowOnly(lists), k) {
      ExtendingGrows(lists, adds, k);
      if HasExact(k, param) {
        AddedIsNew(lists, adds, k, param);
      } else {
        WithoutParameterIsAdded(lists, param, vs, k);
      }
    } else if Allows(AllowOnly(Extended(lists, adds)), k) {
      NewlyAllowedIsAdded(lists, param, vs, k);
    }
  }

  lemma {:induction false} WithoutParameterIsAdded(lists: AllowList, param: string, vs: seq<Value>, k: Key)
    requires !HasExact(k, param)
    ensures Allows(AllowOnly(Added(lists, map[param := vs])), k)
  {
    forall i | 0 <= i < |k.fields|
      ensures FieldAllowed(k.fields[i], Added(lists, map[param := vs]))
    {
      assert !(k.fields[i].Exact? && k.fields[i].field == param);
    }
  }

  lemma {:induction false} NewlyAllowedIsAdded(lists: AllowList, param: string, vs: seq<Value>, k: Key)
    requires param in lists && DistinctFields(k)
    requires !Allows(AllowOnly(lists), k) && Allows(AllowOnly(Extended(lists, map[param := vs])), k)
    ensures Allows(AllowOnly(Added(lists, map[param := vs])), k)
  {
    var longer, selection := Extended(lists, map[param := vs]), Added(lists, map[param := vs]);
    var j :| 0 <= j < |k.fields| && !FieldAllowed(k.fields[j], lists);
    assert FieldAllowed(k.fields[j], longer);
    assert k.fields[j].field == param && k.fields[j].value in Fresh(lists[param], vs);
    forall i | 0 <= i < |k.fields|
      ensures FieldAllowed(k.fields[i], selection)
    {
      if i != j {
        assert k.fields[i].field != param;
      }
    }
  }

  /** A parameter that was not listed narrows what is allowed, so it never fits an entry already held. */
  lemma {:induction false} UnlistedParameter(f: Filter, param: string, vs: seq<Value>, k: Key)
    requires param !in Lists(f)
    ensures var adds := map[param := vs];
      var before, after, added :=
        Allows(f, k), Allows(AllowOnly(Extended(Lists(f), adds)), k), Allows(AllowOnly(Added(Lists(f), adds)), k);
      (if before then after && !added else after ==> added) <==> !before
  {
    var adds := map[param := vs];
    var longer, selection := Extended(Lists(f), adds), Added(Lists(f), adds);
    if Allows(AllowOnly(longer), k) {
      forall i | 0 <= i < |k.fields|
        ensures FieldAllowed(k.fields[i], selection) && FieldAllowed(k.fields[i], Lists(f))
      {
        assert FieldAllowed(k.fields[i], longer);
      }
    }
  }

  /** Removing a value and adding it back allows the same entries as before. */
  lemma {:induction false} RemoveThenAdd(lists: AllowList, param: string, v: Value, k: Key)
    requires param in lists && v in lists[param]
    ensures var change := map[param := [v]];
      Allows(AllowOnly(Extended(Shortened(lists, change), change)), k) <==> Allows(AllowOnly(lists), k)
  {
    var change := map[param := [v]];
    var again := Extended(Shortened(lists, change), change);
    forall i | 0 <= i < |k.fields|
      ensures FieldAllowed(k.fields[i], again) <==> FieldAllowed(k.fields[i], lists)
    {
      if k.fields[i].Exact? && k.fields[i].field == param {
        assert k.fields[i].value in again[param] <==> k.fields[i].value in lists[param];
      }
    }
  }
}
