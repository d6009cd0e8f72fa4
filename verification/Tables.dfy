/** Match-action tables of a switch and the update log (sections 9.1 and 12 of the P4Runtime
    Specification v1.4). */
module Tables {
  import opened Numbers

  type Value = seq<byte>

  /** One match field of an entry, under the name its P4INFO gives to the field. */
  datatype FieldMatch =
    | Exact(field: string, value: Value)
    | Lpm(field: string, value: Value, prefixLength: nat)
    | Ternary(field: string, value: Value, mask: Value)
    | Range(field: string, low: Value, high: Value)

  /** What identifies an entry in a switch. */
  datatype Key = Key(table: nat, fields: seq<FieldMatch>, priority: int)

  datatype Option<T> = None | Some(value: T)

  datatype Action = Action(id: nat, params: seq<Value>)

  datatype UpdateKind = Insert | Modify | Delete | Unspecified

  /** A DELETE may or may not carry an action. */
  datatype Update = Update(kind: UpdateKind, key: Key, action: Option<Action>)

  type Table = map<Key, Action>

  /** The update is valid when issued: INSERT of a new key, MODIFY or DELETE of a present one.  The first two
      need an action. */
  predicate Valid(t: Table, u: Update) {
    match u.kind
    case Insert => u.key !in t && u.action.Some?
    case Modify => u.key in t && u.action.Some?
    case Delete => u.key in t
    case Unspecified => false
  }

  /** The switch answers without an error.  DELETE of an absent key is a no-op. */
  predicate Accepted(t: Table, u: Update) {
    Valid(t, u) || u.kind.Delete?
  }

  /** The table after the switch handled the update; a refused update changes nothing. */
  function Step(t: Table, u: Update): Table {
    if u.kind.Delete? then t - {u.key}
    else if Valid(t, u) then t[u.key := u.action.value]
    else t
  }

  function Replay(t: Table, us: seq<Update>): Table {
    if us == [] then t else Step(Replay(t, us[..|us| - 1]), us[|us| - 1])
  }

  ghost predicate AllValid(t: Table, us: seq<Update>) {
    forall i :: 0 <= i < |us| ==> Valid(Replay(t, us[..i]), us[i])
  }

  ghost predicate AllAccepted(t: Table, us: seq<Update>) {
    forall i :: 0 <= i < |us| ==> Accepted(Replay(t, us[..i]), us[i])
  }

  ghost predicate Touches(us: seq<Update>, k: Key) {
    exists i :: 0 <= i < |us| && us[i].key == k
  }

  /** The updates whose key satisfies `p`, in order. */
  function Only(us: seq<Update>, p: Key -> bool): seq<Update> {
    if us == [] then []
    else
      var init := Only(us[..|us| - 1], p);
      if p(us[|us| - 1].key) then init + [us[|us| - 1]] else init
  }

  function Restrict(t: Table, p: Key -> bool): Table {
    map k | k in t && p(k) :: t[k]
  }

  lemma {:induction false} ReplayAppend(t: Table, us: seq<Update>, vs: seq<Update>)
    ensures Replay(t, us + vs) == Replay(Replay(t, us), vs)
  {
    if vs == [] {
      assert us + vs == us;
    } else {
      assert (us + vs)[..|us + vs| - 1] == us + vs[..|vs| - 1];
      ReplayAppend(t, us, vs[..|vs| - 1]);
    }
  }

  lemma {:induction false} ReplayOfPrefix(t: Table, us: seq<Update>, vs: seq<Update>, i: nat)
    requires |us| <= i <= |us + vs|
    ensures Replay(t, (us + vs)[..i]) == Replay(Replay(t, us), vs[..i - |us|])
  {
    assert (us + vs)[..i] == us + vs[..i - |us|];
    ReplayAppend(t, us, vs[..i - |us|]);
  }

  lemma {:induction false} AllValidAppend(t: Table, us: seq<Update>, vs: seq<Update>)
    requires AllValid(t, us) && AllValid(Replay(t, us), vs)
    ensures AllValid(t, us + vs)
  {
    var all := us + vs;
    forall i | 0 <= i < |all|
      ensures Valid(Replay(t, all[..i]), all[i])
    {
      if i < |us| {
        assert all[..i] == us[..i] && all[i] == us[i];
        assert Valid(Replay(t, us[..i]), us[i]);
      } else {
        ReplayOfPrefix(t, us, vs, i);
        assert all[i] == vs[i - |us|];
        assert Valid(Replay(Replay(t, us), vs[..i - |us|]), vs[i - |us|]);
      }
    }
  }

  lemma {:induction false} AllValidLast(t: Table, us: seq<Update>, u: Update)
    requires AllValid(t, us) && Valid(Replay(t, us), u)
    ensures AllValid(t, us + [u])
  {
    var all, n := us + [u], |us|;
    forall i | 0 <= i < |all|
      ensures Valid(Replay(t, all[..i]), all[i])
    {
      if i < n {
        assert all[..i] == us[..i] && Valid(Replay(t, us[..i]), us[i]);
      } else {
        assert all[..i] == us;
      }
    }
  }

  lemma {:induction false} AllValidPrefix(t: Table, us: seq<Update>, n: nat)
    requires AllValid(t, us) && n <= |us|
    ensures AllValid(t, us[..n])
  {
    forall i | 0 <= i < n
      ensures Valid(Replay(t, us[..n][..i]), us[..n][i])
    {
      assert us[..n][..i] == us[..i];
    }
  }

  lemma {:induction false} OnlyAppend(us: seq<Update>, vs: seq<Update>, p: Key -> bool)
    ensures Only(us + vs, p) == Only(us, p) + Only(vs, p)
  {
    if vs == [] {
      assert us + vs == us;
    } else {
      assert (us + vs)[..|us + vs| - 1] == us + vs[..|vs| - 1];
      OnlyAppend(us, vs[..|vs| - 1], p);
    }
  }

  /** Filtering the log and filtering the table commute: the part of the log that concerns `p` builds
      the part of the table that concerns `p`. */
  lemma {:induction false} ReplayOnly(t: Table, us: seq<Update>, p: Key -> bool)
    ensures Replay(Restrict(t, p), Only(us, p)) == Restrict(Replay(t, us), p)
  {
    if us != [] {
      var init, u := us[..|us| - 1], us[|us| - 1];
      ReplayOnly(t, init, p);
      if p(u.key) {
        assert Only(us, p)[..|Only(us, p)| - 1] == Only(init, p);
      }
    }
  }

  lemma {:induction false} StillValid(t: Table, p: Key -> bool, u: Update)
    requires p(u.key)
    ensures Valid(Restrict(t, p), u) <==> Valid(t, u)
  {
  }

  /** A refused update cannot become acceptable by looking at part of the log only. */
  lemma {:induction false} OnlyValid(t: Table, us: seq<Update>, p: Key -> bool)
    requires AllValid(t, us)
    ensures AllValid(Restrict(t, p), Only(us, p))
  {
    if us != [] {
      var init, u := us[..|us| - 1], us[|us| - 1];
      AllValidPrefix(t, us, |init|);
      OnlyValid(t, init, p);
      ReplayOnly(t, init, p);
      if p(u.key) {
        assert Valid(Replay(t, us[..|init|]), us[|init|]);
        StillValid(Replay(t, init), p, u);
        AllValidLast(Restrict(t, p), Only(init, p), u);
      }
    }
  }

  /** Every update whose key satisfies `p` is accepted when its turn comes. */
  ghost predicate AcceptedWhere(t: Table, us: seq<Update>, p: Key -> bool) {
    forall i :: 0 <= i < |us| && p(us[i].key) ==> Accepted(Replay(t, us[..i]), us[i])
  }

  lemma {:induction false} AllAcceptedAppend(t: Table, us: seq<Update>, u: Update)
    ensures AllAccepted(t, us + [u]) <==> AllAccepted(t, us) && Accepted(Replay(t, us), u)
  {
    var all, n := us + [u], |us|;
    assert all[..n] == us && all[n] == u;
    assert forall i :: 0 <= i < n ==> all[..i] == us[..i] && all[i] == us[i];
    if AllAccepted(t, all) {
      assert Accepted(Replay(t, all[..n]), all[n]);
      forall i | 0 <= i < n
        ensures Accepted(Replay(t, us[..i]), us[i])
      {
        assert Accepted(Replay(t, all[..i]), all[i]);
      }
    }
    if AllAccepted(t, us) && Accepted(Replay(t, us), u) {
      forall i | 0 <= i < |all|
        ensures Accepted(Replay(t, all[..i]), all[i])
      {
        assert i < n ==> Accepted(Replay(t, us[..i]), us[i]);
      }
    }
  }

  lemma {:induction false} AcceptedWhereAppend(t: Table, us: seq<Update>, u: Update, p: Key -> bool)
    ensures AcceptedWhere(t, us + [u], p) <==> AcceptedWhere(t, us, p) && (p(u.key) ==> Accepted(Replay(t, us), u))
  {
    var all, n := us + [u], |us|;
    assert all[..n] == us && all[n] == u;
    assert forall i :: 0 <= i < n ==> all[..i] == us[..i] && all[i] == us[i];
    if AcceptedWhere(t, all, p) {
      forall i | 0 <= i < n && p(us[i].key)
        ensures Accepted(Replay(t, us[..i]), us[i])
      {
        assert p(all[i].key) && Accepted(Replay(t, all[..i]), all[i]);
      }
    }
  }

  /** The selected part of a log is accepted on the selected part of a table exactly when the log is
      accepted, wherever it concerns the selection, on the whole table. */
  lemma {:induction false} OnlyAcceptedExactly(t: Table, us: seq<Update>, p: Key -> bool)
    ensures AllAccepted(Restrict(t, p), Only(us, p)) <==> AcceptedWhere(t, us, p)
  {
    if us != [] {
      var init, u := us[..|us| - 1], us[|us| - 1];
      assert us == init + [u];
      OnlyAcceptedExactly(t, init, p);
      AcceptedWhereAppend(t, init, u, p);
      if p(u.key) {
        ReplayOnly(t, init, p);
        AllAcceptedAppend(Restrict(t, p), Only(init, p), u);
      }
    }
  }

  /** Keys that no update names keep their action. */
  lemma {:induction false} Untouched(t: Table, us: seq<Update>, k: Key)
    requires !Touches(us, k)
    ensures k in Replay(t, us) <==> k in t
    ensures k in t ==> Replay(t, us)[k] == t[k]
  {
    if us != [] {
      var init := us[..|us| - 1];
      assert us[|us| - 1].key != k;
      assert forall i :: 0 <= i < |init| ==> init[i] == us[i];
      Untouched(t, init, k);
    }
  }

  lemma {:induction false} OnlyTouches(us: seq<Update>, p: Key -> bool, k: Key)
    ensures Touches(Only(us, p), k) <==> p(k) && Touches(us, k)
  {
    if us != [] {
      var init, u := us[..|us| - 1], us[|us| - 1];
      OnlyTouches(init, p, k);
      assert us == init + [u];
      if p(u.key) {
        var part := Only(us, p);
        assert part == Only(init, p) + [u];
        TouchesAppend(Only(init, p), u, k);
      }
      TouchesAppend(init, u, k);
    }
  }

  lemma {:induction false} TouchesAppend(us: seq<Update>, u: Update, k: Key)
    ensures Touches(us + [u], k) <==> Touches(us, k) || u.key == k
  {
    var all := us + [u];
    if u.key == k {
      assert all[|us|].key == k;
    }
    if Touches(us, k) {
      var i :| 0 <= i < |us| && us[i].key == k;
      assert all[i].key == k;
    }
  }

  /** A log that is valid from the empty table, replayed over a table that holds none of its keys, adds
      what it builds from the empty table, without an error. */
  lemma {:induction false} ReplayOverDisjoint(t: Table, us: seq<Update>)
    requires AllValid(map[], us)
    requires forall k :: k in t ==> !Touches(us, k)
    ensures AllValid(t, us)
    ensures Replay(t, us) == t + Replay(map[], us)
  {
    forall i | 0 <= i < |us|
      ensures Valid(Replay(t, us[..i]), us[i])
    {
      var prefix := us[..i];
      assert Valid(Replay(map[], prefix), us[i]);
      ReplayOverlay(t, us, i);
    }
    ReplayOverlay(t, us, |us|);
    assert us[..|us|] == us;
  }

  lemma {:induction false} ReplayOverlay(t: Table, us: seq<Update>, n: nat)
    requires n <= |us|
    requires forall k :: k in t ==> !Touches(us, k)
    ensures Replay(t, us[..n]) == t + Replay(map[], us[..n])
    ensures forall k :: k in t ==> k !in Replay(map[], us[..n])
  {
    if n > 0 {
      ReplayOverlay(t, us, n - 1);
      assert us[..n][..n - 1] == us[..n - 1];
      var u := us[n - 1];
      assert us[..n][n - 1] == u;
      assert u.key !in t by {
        assert Touches(us, u.key);
      }
    }
  }

  // ----- replaying a log that need not be valid -----

  /** The tables agree on the key. */
  predicate Same(a: Table, b: Table, k: Key) {
    (k in a <==> k in b) && (k in a ==> a[k] == b[k])
  }

  ghost predicate Removes(us: seq<Update>, k: Key) {
    exists i :: 0 <= i < |us| && us[i].kind.Delete? && us[i].key == k
  }

  lemma {:induction false} RemovesAppend(us: seq<Update>, u: Update, k: Key)
    ensures Removes(us + [u], k) <==> Removes(us, k) || (u.kind.Delete? && u.key == k)
  {
    var all := us + [u];
    if i :| 0 <= i < |us| && us[i].kind.Delete? && us[i].key == k {
      assert all[i] == us[i];
    }
    if u.kind.Delete? && u.key == k {
      assert all[|us|] == u;
    }
  }

  /** A log that is accepted on a table ends, on every key it concerns, in what it builds from nothing, unless
      the table has the key from the start and no update deletes it. */
  lemma {:induction false} ReplayForgets(t: Table, us: seq<Update>, p: Key -> bool, k: Key)
    requires AcceptedWhere(t, us, p) && p(k)
    ensures Same(Replay(t, us), Replay(map[], us), k) <==> (k in t ==> Removes(us, k))
    ensures Same(Replay(t, us), Replay(map[], us), k) || (k in Replay(t, us) && k !in Replay(map[], us))
  {
    if us != [] {
      var init, u := us[..|us| - 1], us[|us| - 1];
      assert us == init + [u];
      AcceptedWhereAppend(t, init, u, p);
      ReplayForgets(t, init, p, k);
      RemovesAppend(init, u, k);
    }
  }

  lemma {:induction false} OnlySatisfies(us: seq<Update>, p: Key -> bool, i: nat)
    requires i < |Only(us, p)|
    ensures p(Only(us, p)[i].key)
  {
    var init := us[..|us| - 1];
    if i < |Only(init, p)| {
      OnlySatisfies(init, p, i);
    }
  }

  lemma {:induction false} OnlyTwice(us: seq<Update>, p: Key -> bool)
    ensures Only(Only(us, p), p) == Only(us, p)
  {
    if us != [] {
      var init, u := us[..|us| - 1], us[|us| - 1];
      OnlyTwice(init, p);
      if p(u.key) {
        var part := Only(init, p) + [u];
        assert part[..|part| - 1] == Only(init, p);
      }
    }
  }

  /** The selected part of a log is accepted on the whole table exactly when the log is accepted wherever it
      concerns the selection. */
  lemma {:induction false} SelectionAcceptedExactly(t: Table, us: seq<Update>, p: Key -> bool)
    ensures AllAccepted(t, Only(us, p)) <==> AcceptedWhere(t, us, p)
  {
    var part := Only(us, p);
    OnlyTwice(us, p);
    OnlyAcceptedExactly(t, us, p);
    OnlyAcceptedExactly(t, part, p);
    forall i | 0 <= i < |part|
      ensures p(part[i].key)
    {
      OnlySatisfies(us, p, i);
    }
  }

  /** Replaying the selected part of a log changes the selected keys as the whole log does, and no others. */
  lemma {:induction false} SelectionReplayed(t: Table, us: seq<Update>, p: Key -> bool, k: Key)
    ensures Same(Replay(t, Only(us, p)), if p(k) then Replay(t, us) else t, k)
  {
    if p(k) {
      OnlyTwice(us, p);
      ReplayOnly(t, us, p);
      ReplayOnly(t, Only(us, p), p);
      SameWhereRestricted(Replay(t, Only(us, p)), Replay(t, us), p, k);
    } else {
      OnlyTouches(us, p, k);
      Untouched(t, Only(us, p), k);
    }
  }

  lemma {:induction false} SameWhereRestricted(a: Table, b: Table, p: Key -> bool, k: Key)
    requires Restrict(a, p) == Restrict(b, p) && p(k)
    ensures Same(a, b, k)
  {
    assert k in Restrict(a, p) <==> k in a;
    assert k in Restrict(b, p) <==> k in b;
  }

  // ----- which update has the last word on a key -----

  /** The update is accepted in its turn, and no later one of its key is. */
  ghost predicate LastAccepted(t: Table, us: seq<Update>, i: nat)
    requires i < |us|
  {
    && Accepted(Replay(t, us[..i]), us[i])
    && forall j :: i < j < |us| && us[j].key == us[i].key ==> !Accepted(Replay(t, us[..j]), us[j])
  }

  /** The update puts back what the table has. */
  predicate Restores(t: Table, u: Update) {
    if u.kind.Delete? then u.key !in t else u.key in t && u.action == Some(t[u.key])
  }

  lemma {:induction false} LastAcceptedAppend(t: Table, us: seq<Update>, u: Update, i: nat)
    requires i < |us|
    ensures LastAccepted(t, us + [u], i) <==>
      LastAccepted(t, us, i) && !(u.key == us[i].key && Accepted(Replay(t, us), u))
  {
    var all, n := us + [u], |us|;
    assert all[..n] == us && all[n] == u;
    assert forall j :: 0 <= j < n ==> all[..j] == us[..j] && all[j] == us[j];
    if LastAccepted(t, all, i) {
      forall j | i < j < n && us[j].key == us[i].key
        ensures !Accepted(Replay(t, us[..j]), us[j])
      {
        assert !Accepted(Replay(t, all[..j]), all[j]);
      }
    }
    if LastAccepted(t, us, i) && !(u.key == us[i].key && Accepted(Replay(t, us), u)) {
      forall j | i < j < |all| && all[j].key == all[i].key
        ensures !Accepted(Replay(t, all[..j]), all[j])
      {
        assert j < n ==> !Accepted(Replay(t, us[..j]), us[j]);
      }
    }
  }

  /** On the key, whichever update has the last word restores what the table has. */
  ghost predicate Restored(t: Table, us: seq<Update>, k: Key) {
    forall i :: 0 <= i < |us| && us[i].key == k && LastAccepted(t, us, i) ==> Restores(t, us[i])
  }

  lemma {:induction false} RestoredAppend(t: Table, us: seq<Update>, u: Update, k: Key)
    ensures Restored(t, us + [u], k) <==>
      if u.key == k && Accepted(Replay(t, us), u) then Restores(t, u) else Restored(t, us, k)
  {
    var all, n := us + [u], |us|;
    assert all[..n] == us && all[n] == u;
    forall i | 0 <= i < n
      ensures all[i] == us[i]
      ensures LastAccepted(t, all, i) <==> LastAccepted(t, us, i) && !(u.key == us[i].key && Accepted(Replay(t, us), u))
    {
      LastAcceptedAppend(t, us, u, i);
    }
    assert LastAccepted(t, all, n) <==> Accepted(Replay(t, us), u);
    if Restored(t, all, k) {
      if u.key == k && Accepted(Replay(t, us), u) {
        assert Restores(t, all[n]);
      } else {
        forall i | 0 <= i < n && us[i].key == k && LastAccepted(t, us, i)
          ensures Restores(t, us[i])
        {
          assert Restores(t, all[i]);
        }
      }
    }
  }

  /** The updates leave the key as it was exactly if whichever has the last word on it restores it. */
  lemma {:induction false} UnchangedExactly(t: Table, us: seq<Update>, k: Key)
    ensures Same(Replay(t, us), t, k) <==> Restored(t, us, k)
  {
    if us != [] {
      var init, u := us[..|us| - 1], us[|us| - 1];
      assert us == init + [u];
      UnchangedExactly(t, init, k);
      RestoredAppend(t, init, u, k);
    }
  }

  /** The first update of a key in a log valid from the empty table is an INSERT, so a key that is
      already present makes the switch refuse the replay. */
  lemma {:induction false} PresentKeyIsRefused(t: Table, us: seq<Update>, k: Key)
    requires AllValid(map[], us) && k in t && Touches(us, k)
    ensures !AllAccepted(t, us)
  {
    var init, u := us[..|us| - 1], us[|us| - 1];
    assert us == init + [u];
    AllAcceptedAppend(t, init, u);
    TouchesAppend(init, u, k);
    AllValidPrefix(map[], us, |init|);
    if Touches(init, k) {
      PresentKeyIsRefused(t, init, k);
    } else {
      Untouched(t, init, k);
      Untouched(map[], init, k);
      assert Valid(Replay(map[], us[..|init|]), us[|init|]);
    }
  }
}
