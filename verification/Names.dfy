/** Prefixing of P4 names and its inverse (`common/p4_name_id_helper.py`). */
module Names {
  datatype NameResult = Named(name: string) | PrefixIsNotPresent | BadName

  const NO_ACTION := "NoAction"

  /** Where the first dot is, or the length of a dot-free name. */
  function DotIndex(s: string): (n: nat)
    ensures n <= |s|
    ensures n < |s| ==> s[n] == '.'
    ensures forall i :: 0 <= i < n ==> s[i] != '.'
  {
    if s == "" || s[0] == '.' then 0 else 1 + DotIndex(s[1..])
  }

  predicate DotFree(s: string) {
    forall i :: 0 <= i < |s| ==> s[i] != '.'
  }

  /** `namespace, name = s.split('.')` succeeds: there is exactly one dot. */
  predicate HasOneDot(s: string) {
    DotIndex(s) < |s| && DotFree(s[DotIndex(s) + 1..])
  }

  function Namespace(s: string): string {
    s[..DotIndex(s)]
  }

  function Pure(s: string): string
    requires !DotFree(s)
  {
    NotDotFree(s);
    s[DotIndex(s) + 1..]
  }

  lemma {:induction false} NotDotFree(s: string)
    requires !DotFree(s)
    ensures DotIndex(s) < |s|
  {
  }

  function PrefixName(name: string, prefix: string): NameResult {
    if name == NO_ACTION then Named(name)
    else if DotFree(name) then Named(prefix + name)
    else if HasOneDot(name) then Named(Namespace(name) + "." + prefix + Pure(name))
    else BadName
  }

  /** The prefix is looked for at the very beginning first, then after the namespace. */
  function RemovePrefix(name: string, prefix: string): NameResult {
    if name == NO_ACTION then Named(name)
    else if prefix <= name then Named(name[|prefix|..])
    else if DotFree(name) then PrefixIsNotPresent
    else if HasOneDot(name) then
      if prefix <= Pure(name) then Named(Namespace(name) + "." + Pure(name)[|prefix|..]) else BadName
    else BadName
  }

  /** The reserved name is never touched. */
  lemma {:induction false} NoActionStays(prefix: string)
    ensures PrefixName("NoAction", prefix) == Named("NoAction") == RemovePrefix("NoAction", prefix)
  {
  }

  /** Exactly one dot. */
  lemma {:induction false} OneDotCounted(name: string)
    ensures HasOneDot(name) <==> multiset(name)['.'] == 1
  {
    var n := DotIndex(name);
    NoDots(name[..n]);
    if n < |name| {
      NoDots(name[n + 1..]);
      assert name == name[..n] + ['.'] + name[n + 1..];
    } else {
      assert name == name[..n];
    }
  }

  lemma {:induction false} NoDots(s: string)
    ensures DotFree(s) <==> multiset(s)['.'] == 0
  {
    assert multiset(s)['.'] == 0 <==> '.' !in s;
  }

  /** `get_pure_p4_name` raises unless there is exactly one dot. */
  function PureName(name: string): NameResult {
    if HasOneDot(name) then Named(Pure(name)) else BadName
  }

  lemma {:induction false} Dotted(ns: string, rest: string)
    requires DotFree(ns)
    ensures DotIndex(ns + "." + rest) == |ns|
    ensures !DotFree(ns + "." + rest)
    ensures Namespace(ns + "." + rest) == ns && Pure(ns + "." + rest) == rest
    ensures HasOneDot(ns + "." + rest) <==> DotFree(rest)
  {
    var s := ns + "." + rest;
    assert s[|ns|] == '.';
    assert forall i :: 0 <= i < |ns| ==> s[i] == ns[i];
    assert DotIndex(s) == |ns|;
    assert s[|ns| + 1..] == rest;
  }

  lemma {:induction false} OneDotParts(name: string)
    requires HasOneDot(name)
    ensures !DotFree(name) && DotFree(Namespace(name)) && DotFree(Pure(name))
    ensures name == Namespace(name) + "." + Pure(name)
  {
    assert name[DotIndex(name)] == '.';
  }

  /** Which names a prefix can be put on and taken off again. */
  predicate RoundTrips(name: string, prefix: string) {
    if name == NO_ACTION then true
    else if DotFree(name) then prefix + name != NO_ACTION || prefix == ""
    else HasOneDot(name) && (prefix == "" || !(prefix <= Namespace(name)))
  }

  lemma {:induction false} NoActionIsDotFree()
    ensures DotFree(NO_ACTION)
  {
  }

  lemma {:induction false} DotFreeConcat(a: string, b: string)
    ensures DotFree(a + b) <==> DotFree(a) && DotFree(b)
  {
    var s := a + b;
    if DotFree(s) {
      forall i | 0 <= i < |a|
        ensures a[i] != '.'
      {
        assert s[i] == a[i];
      }
      forall i | 0 <= i < |b|
        ensures b[i] != '.'
      {
        assert s[|a| + i] == b[i];
      }
    }
  }

  /** Removing the prefix undoes adding it if and only if `RoundTrips` holds. */
  lemma {:induction false} RoundTripExactly(name: string, prefix: string)
    requires DotFree(prefix)
    ensures PrefixName(name, prefix).Named? && RemovePrefix(PrefixName(name, prefix).name, prefix) == Named(name) <==>
      RoundTrips(name, prefix)
  {
    NoActionIsDotFree();
    if name == NO_ACTION {
    } else if DotFree(name) {
      assert (prefix + name)[|prefix|..] == name;
      assert "" + name == name;
    } else if HasOneDot(name) {
      NamespacedRoundTrip(name, prefix);
    }
  }

  lemma {:induction false} StartsInNamespace(ns: string, rest: string, prefix: string)
    requires DotFree(prefix) && DotFree(ns)
    ensures prefix <= ns + "." + rest <==> prefix <= ns
  {
    var full := ns + "." + rest;
    assert full[|ns|] == '.';
    if |prefix| > |ns| {
      assert prefix[|ns|] != full[|ns|];
    } else {
      assert full[..|prefix|] == ns[..|prefix|];
    }
  }

  /** Cutting a prefix off the namespace moves the dot. */
  lemma {:induction false} CutNamespace(ns: string, rest: string, prefix: string)
    requires DotFree(ns) && prefix <= ns && prefix != ""
    ensures DotIndex((ns + "." + rest)[|prefix|..]) == |ns| - |prefix|
  {
    assert ns == ns[..|prefix|] + ns[|prefix|..];
    DotFreeConcat(ns[..|prefix|], ns[|prefix|..]);
    Dotted(ns[|prefix|..], rest);
    assert (ns + "." + rest)[|prefix|..] == ns[|prefix|..] + "." + rest;
  }

  lemma {:induction false} NamespacedRoundTrip(name: string, prefix: string)
    requires DotFree(prefix) && HasOneDot(name) && name != NO_ACTION && !DotFree(name)
    ensures PrefixName(name, prefix).Named?
    ensures RemovePrefix(PrefixName(name, prefix).name, prefix) == Named(name) <==>
      prefix == "" || !(prefix <= Namespace(name))
  {
    OneDotParts(name);
    NoActionIsDotFree();
    PrefixedParts(name, prefix);
    var ns, rest := Namespace(name), Pure(name);
    var full := PrefixName(name, prefix).name;
    OneDotParts(full);
    if prefix == "" {
      assert full == name && full[0..] == name;
    } else {
      StartsInNamespace(ns, prefix + rest, prefix);
      if prefix <= ns {
        CutNamespace(ns, prefix + rest, prefix);
        Dotted(ns, rest);
      } else {
        assert (prefix + rest)[|prefix|..] == rest;
      }
    }
  }

  lemma {:induction false} NothingToRemove(name: string)
    ensures RemovePrefix(name, "") == Named(name)
  {
    assert name[0..] == name;
  }

  lemma {:induction false} NothingToAdd(name: string)
    requires PrefixName(name, "").Named?
    ensures PrefixName(name, "") == Named(name)
  {
    if name != NO_ACTION {
      if DotFree(name) {
        assert "" + name == name;
      } else {
        OneDotParts(name);
        var ns, rest := Namespace(name), Pure(name);
        assert ns + "." + "" + rest == ns + "." + rest;
      }
    }
  }

  /** Prefixes neither of which begins with the other. */
  predicate Incomparable(p: string, q: string) {
    !(p <= q) && !(q <= p)
  }

  lemma {:induction false} CommonStart(p: string, a: string, q: string, b: string)
    requires p + a == q + b
    ensures p <= q || q <= p
  {
    if |p| <= |q| {
      assert q == (q + b)[..|q|] && p == (p + a)[..|p|];
      assert p == q[..|p|];
    } else {
      assert q == (q + b)[..|q|] && p == (p + a)[..|p|];
      assert q == p[..|q|];
    }
  }

  lemma {:induction false} StartOfConcat(p: string, q: string, rest: string)
    ensures p <= q + rest ==> p <= q || q <= p
  {
    if p <= q + rest {
      assert q + rest == p + (q + rest)[|p|..];
      CommonStart(p, (q + rest)[|p|..], q, rest);
    }
  }

  /** Two sources with incomparable prefixes meet in no name except NoAction. */
  lemma {:induction false} ImagesAreDisjoint(n: string, p: string, m: string, q: string)
    requires DotFree(p) && DotFree(q) && Incomparable(p, q)
    requires PrefixName(n, p).Named? && PrefixName(n, p) == PrefixName(m, q)
    ensures PrefixName(n, p).name == NO_ACTION && (n == NO_ACTION || m == NO_ACTION)
  {
    NoActionIsDotFree();
    if n != NO_ACTION && m != NO_ACTION {
      DotFreeConcat(p, n);
      DotFreeConcat(q, m);
      if DotFree(n) && DotFree(m) {
        CommonStart(p, n, q, m);
        assert false;
      } else if HasOneDot(n) && HasOneDot(m) {
        PrefixedParts(n, p);
        PrefixedParts(m, q);
        CommonStart(p, Pure(n), q, Pure(m));
        assert false;
      } else if HasOneDot(n) {
        PrefixedParts(n, p);
        assert false;
      } else {
        PrefixedParts(m, q);
        assert false;
      }
    } else if n == NO_ACTION && m != NO_ACTION && HasOneDot(m) {
      PrefixedParts(m, q);
    } else if m == NO_ACTION && n != NO_ACTION && HasOneDot(n) {
      PrefixedParts(n, p);
    }
  }

  /** The parts of a prefixed name with a namespace. */
  lemma {:induction false} PrefixedParts(name: string, prefix: string)
    requires DotFree(prefix) && HasOneDot(name) && name != NO_ACTION
    ensures PrefixName(name, prefix).Named? && HasOneDot(PrefixName(name, prefix).name) &&
      !DotFree(PrefixName(name, prefix).name)
    ensures Namespace(PrefixName(name, prefix).name) == Namespace(name)
    ensures Pure(PrefixName(name, prefix).name) == prefix + Pure(name)
  {
    OneDotParts(name);
    assert Namespace(name) + "." + prefix + Pure(name) == Namespace(name) + "." + (prefix + Pure(name));
    Dotted(Namespace(name), prefix + Pure(name));
    DotFreeConcat(prefix, Pure(name));
  }
}
