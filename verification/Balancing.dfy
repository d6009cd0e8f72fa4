/** Make-before-break migration of users between nodes (`common/balancer.py`). */
module Balancing {
  datatype MatchType = Exact | Lpm | OtherMatch

  datatype MatchField = MatchField(name: string, matchType: MatchType)

  datatype P4Table = P4Table(id: nat, fields: seq<MatchField>)

  const SOURCE_ADDRESS := "hdr.ipv4.srcAddr"

  /** What an entry matches on: one source address (as EXACT or as /32), or something else. */
  datatype MatchValue = Address(ip: string) | Other(code: seq<nat>)

  datatype EntryKey = EntryKey(table: nat, value: MatchValue)

  type NodeTable = map<EntryKey, seq<nat>>

  /** The balancer's own table, from address to port, and the tables of the nodes. */
  datatype Net = Net(routes: map<string, nat>, nodes: seq<NodeTable>)

  datatype BalancerMode = MeterMode | CounterMode

  /** Rates and bursts of a meter. */
  datatype MeterConfig = MeterConfig(cir: nat, cburst: nat, pir: nat, pburst: nat)

  const USER_METER := MeterConfig(1, 1, 20, 20)

  /** A request by source address can be built for the table. */
  predicate BySource(t: P4Table) {
    |t.fields| == 1 && !t.fields[0].matchType.OtherMatch? && t.fields[0].name == SOURCE_ADDRESS
  }

  /** The request for this table asks for the entry: tables with several fields are skipped, and a single
      field of another kind leaves the request without a match, which asks for the whole table. */
  predicate Requests(t: P4Table, ip: string, k: EntryKey) {
    |t.fields| == 1 && t.id == k.table && (t.fields[0].matchType.OtherMatch? || k.value == Address(ip))
  }

  predicate Requested(tables: seq<P4Table>, ip: string, k: EntryKey) {
    exists i :: 0 <= i < |tables| && Requests(tables[i], ip, k)
  }

  /** Building a request fails for a single EXACT or LPM field of another name. */
  predicate Buildable(t: P4Table) {
    |t.fields| != 1 || t.fields[0].matchType.OtherMatch? || t.fields[0].name == SOURCE_ADDRESS
  }

  predicate AllBuildable(tables: seq<P4Table>) {
    forall i :: 0 <= i < |tables| ==> Buildable(tables[i])
  }

  function Collected(tables: seq<P4Table>, t: NodeTable, ip: string): NodeTable {
    map k | k in t && Requested(tables, ip, k) :: t[k]
  }

  /** The entries of one user. */
  function UserEntries(t: NodeTable, ip: string): NodeTable {
    map k | k in t && k.value == Address(ip) :: t[k]
  }

  predicate SubTable(a: NodeTable, b: NodeTable) {
    forall k :: k in a ==> k in b && a[k] == b[k]
  }

  // ----- what a migration passes through -----

  /** Before the switch-over: only the destination grows. */
  predicate Copying(before: Net, s: Net, dst: nat, moved: NodeTable)
    requires dst < |before.nodes|
  {
    && s.routes == before.routes && |s.nodes| == |before.nodes|
    && (forall m :: 0 <= m < |s.nodes| && m != dst ==> s.nodes[m] == before.nodes[m])
    && SubTable(before.nodes[dst], s.nodes[dst]) && SubTable(s.nodes[dst], moved + before.nodes[dst])
  }

  /** From the switch-over on: only the origin shrinks. */
  predicate Clearing(before: Net, s: Net, ip: string, port: nat, src: nat, dst: nat, moved: NodeTable)
    requires src < |before.nodes| && dst < |before.nodes|
  {
    && s.routes == before.routes[ip := port] && |s.nodes| == |before.nodes|
    && (forall m :: 0 <= m < |s.nodes| && m != src ==>
      s.nodes[m] == if m == dst then before.nodes[m] + moved else before.nodes[m])
    && SubTable(before.nodes[src] - moved.Keys, s.nodes[src]) && SubTable(s.nodes[src], before.nodes[src])
  }

  function Moved(before: Net, ip: string, port: nat, src: nat, dst: nat, moved: NodeTable): Net
    requires src < |before.nodes| && dst < |before.nodes| && src != dst
  {
    Net(
      before.routes[ip := port],
      before.nodes[dst := before.nodes[dst] + moved][src := before.nodes[src] - moved.Keys])
  }

  // ----- safety -----

  /** The node a user is routed to holds all the user's entries. */
  ghost predicate Served(net: Net, ports: seq<nat>, service: string -> NodeTable, ip: string)
    requires ip in net.routes && |ports| == |net.nodes|
  {
    exists n :: 0 <= n < |ports| && ports[n] == net.routes[ip] && UserEntries(net.nodes[n], ip) == service(ip)
  }

  /** The port says which node is meant. */
  predicate UniquePorts(ports: seq<nat>) {
    forall i, j :: 0 <= i < j < |ports| ==> ports[i] != ports[j]
  }

  ghost predicate Hitless(net: Net, ports: seq<nat>, service: string -> NodeTable) {
    |ports| == |net.nodes| && UniquePorts(ports) && forall ip :: ip in net.routes ==> Served(net, ports, service, ip)
  }

  /** Between calls: a routed user lives on one node, his home, and nowhere else.  The balancer does not
      know the homes; it only records a node, which need not be the home. */
  ghost predicate AtHome(net: Net, ports: seq<nat>, service: string -> NodeTable, home: map<string, nat>, ip: string)
    requires ip in net.routes && |ports| == |net.nodes|
  {
    && ip in home && home[ip] < |ports| && ports[home[ip]] == net.routes[ip]
    && UserEntries(net.nodes[home[ip]], ip) == service(ip)
    && forall m :: 0 <= m < |ports| && m != home[ip] ==> UserEntries(net.nodes[m], ip) == map[]
  }

  ghost predicate Settled(net: Net, ports: seq<nat>, service: string -> NodeTable, home: map<string, nat>) {
    |ports| == |net.nodes| && UniquePorts(ports) && forall ip :: ip in net.routes ==>
      AtHome(net, ports, service, home, ip)
  }

  /** The routes that the recorded users should have. */
  function RoutesOf(user: map<string, nat>, ports: seq<nat>): map<string, nat> {
    map ip | ip in user && user[ip] < |ports| :: ports[user[ip]]
  }

  /** All recorded users but those in `todo` have been routed. */
  predicate Routed(
    user: map<string, nat>, ports: seq<nat>, before: map<string, nat>, routes: map<string, nat>, todo: set<string>)
  {
    && routes == before + RoutesOf(user - todo, ports)
    && forall ip :: ip in user && ip !in todo ==> user[ip] < |ports| && ip !in before
  }

  lemma {:induction false} NobodyRouted(user: map<string, nat>, ports: seq<nat>, before: map<string, nat>)
    ensures Routed(user, ports, before, before, user.Keys)
  {
    assert user - user.Keys == map[];
  }

  lemma {:induction false} OneMoreRouted(
    user: map<string, nat>, ports: seq<nat>, before: map<string, nat>, routes: map<string, nat>, todo: set<string>,
    ip: string)
    requires Routed(user, ports, before, routes, todo) && ip in todo && ip in user
    ensures ip in routes <==> ip in before
    ensures user[ip] < |ports| && ip !in before ==>
      Routed(user, ports, before, routes[ip := ports[user[ip]]], todo - {ip})
  {
    if user[ip] < |ports| {
      assert RoutesOf(user - (todo - {ip}), ports) == RoutesOf(user - todo, ports)[ip := ports[user[ip]]];
    }
  }

  /** In meter mode every recorded user, except those in `todo`, has been given a meter. */
  function Metered(
    mode: BalancerMode, user: map<string, nat>, before: map<string, MeterConfig>, todo: set<string>)
    : map<string, MeterConfig>
  {
    if mode.CounterMode? then before else before + map ip | ip in user && ip !in todo :: USER_METER
  }

  lemma {:induction false} OneMoreMeter(
    mode: BalancerMode, user: map<string, nat>, before: map<string, MeterConfig>, todo: set<string>, ip: string)
    requires ip in todo && ip in user
    ensures Metered(mode, user, before, todo - {ip}) ==
      if mode.MeterMode? then Metered(mode, user, before, todo)[ip := USER_METER] else Metered(mode, user, before, todo)
  {
  }

  lemma {:induction false} NobodyMetered(mode: BalancerMode, user: map<string, nat>, before: map<string, MeterConfig>)
    ensures Metered(mode, user, before, user.Keys) == before
  {
  }

  lemma {:induction false} AllUsersRouted(
    net: Net, ports: seq<nat>, service: string -> NodeTable, user: map<string, nat>)
    requires |ports| == |net.nodes| && Placed(net.nodes, ports, service, user)
    requires Routed(user, ports, map[], net.routes, {})
    ensures Settled(net, ports, service, user) && RecordedAtHome(net, user, user)
  {
    assert user - {} == user;
    forall ip | ip in net.routes
      ensures AtHome(net, ports, service, user, ip)
    {
      assert UserEntries(net.nodes[user[ip]], ip) == service(ip);
    }
  }

  /** Every recorded user's entries are on the recorded node, and on no other. */
  ghost predicate Placed(nodes: seq<NodeTable>, ports: seq<nat>, service: string -> NodeTable, user: map<string, nat>)
    requires |ports| == |nodes|
  {
    && UniquePorts(ports)
    && forall ip, m :: ip in user && user[ip] < |ports| && 0 <= m < |ports| ==>
      UserEntries(nodes[m], ip) == if m == user[ip] then service(ip) else map[]
  }

  lemma {:induction false} SettledIsHitless(
    net: Net, ports: seq<nat>, service: string -> NodeTable, home: map<string, nat>)
    requires Settled(net, ports, service, home)
    ensures Hitless(net, ports, service)
  {
    forall ip | ip in net.routes
      ensures Served(net, ports, service, ip)
    {
      assert AtHome(net, ports, service, home, ip);
    }
  }

  /** Only entries of one user are moved. */
  predicate OnlyOf(ip: string, moved: NodeTable) {
    forall k :: k in moved ==> k.value == Address(ip)
  }

  predicate SameExcept(a: NodeTable, b: NodeTable, keys: set<EntryKey>) {
    a - keys == b - keys
  }

  lemma {:induction false} OthersUntouched(a: NodeTable, b: NodeTable, moved: NodeTable, ip: string, other: string)
    requires OnlyOf(ip, moved) && other != ip && SameExcept(a, b, moved.Keys)
    ensures UserEntries(b, other) == UserEntries(a, other)
  {
    forall k: EntryKey | k.value == Address(other)
      ensures (k in a <==> k in b) && (k in a ==> a[k] == b[k])
    {
      assert k !in moved;
      assert k in a <==> k in a - moved.Keys;
      assert k in b <==> k in b - moved.Keys;
    }
  }

  /** While the destination is filled, everybody is still served by the node he was on. */
  lemma {:induction false} CopyingIsHitless(
    before: Net, s: Net, ports: seq<nat>, service: string -> NodeTable, home: map<string, nat>,
    ip: string, dst: nat, moved: NodeTable)
    requires Settled(before, ports, service, home) && OnlyOf(ip, moved)
    requires dst < |ports| && Copying(before, s, dst, moved)
    requires ip in before.routes ==> home[ip] != dst || moved == map[]
    ensures Hitless(s, ports, service)
  {
    forall other | other in s.routes
      ensures Served(s, ports, service, other)
    {
      assert AtHome(before, ports, service, home, other);
      var n := home[other];
      CopyingOthers(before, s, ip, dst, moved, other, n);
      assert ports[n] == s.routes[other] && UserEntries(s.nodes[n], other) == service(other);
    }
  }

  lemma {:induction false} CopyingOthers(
    before: Net, s: Net, ip: string, dst: nat, moved: NodeTable, other: string, n: nat)
    requires dst < |before.nodes| && n < |before.nodes| && Copying(before, s, dst, moved) && OnlyOf(ip, moved)
    requires other != ip || n != dst || moved == map[]
    ensures UserEntries(s.nodes[n], other) == UserEntries(before.nodes[n], other)
  {
    if n == dst {
      if moved == map[] {
        assert s.nodes[dst] == before.nodes[dst];
      } else {
        OthersUntouched(before.nodes[n], s.nodes[n], moved, ip, other);
      }
    }
  }

  /** Filling a node with entries of a user who is not routed, or with nothing, moves nobody. */
  lemma {:induction false} CopyingStaysSettled(
    before: Net, s: Net, ports: seq<nat>, service: string -> NodeTable, home: map<string, nat>,
    ip: string, dst: nat, moved: NodeTable)
    requires Settled(before, ports, service, home) && OnlyOf(ip, moved)
    requires dst < |ports| && Copying(before, s, dst, moved)
    requires ip !in before.routes || moved == map[]
    ensures Settled(s, ports, service, home)
  {
    forall other | other in s.routes
      ensures AtHome(s, ports, service, home, other)
    {
      assert AtHome(before, ports, service, home, other);
      forall m | 0 <= m < |ports|
        ensures UserEntries(s.nodes[m], other) == UserEntries(before.nodes[m], other)
      {
        CopyingOthers(before, s, ip, dst, moved, other, m);
      }
    }
  }

  /** From the switch-over on the user is served by the new node, the others by theirs. */
  lemma {:induction false} ClearingIsHitless(
    before: Net, s: Net, ports: seq<nat>, service: string -> NodeTable, home: map<string, nat>,
    ip: string, src: nat, dst: nat, moved: NodeTable)
    requires Settled(before, ports, service, home) && OnlyOf(ip, moved)
    requires src < |ports| && dst < |ports| && src != dst && ip in before.routes && home[ip] == src
    requires moved == UserEntries(before.nodes[src], ip)
    requires Clearing(before, s, ip, ports[dst], src, dst, moved)
    ensures Hitless(s, ports, service)
  {
    forall other | other in s.routes
      ensures Served(s, ports, service, other)
    {
      if other == ip {
        assert AtHome(before, ports, service, home, ip);
        ArrivesComplete(before.nodes[dst], moved, ip);
        assert ports[dst] == s.routes[ip] && UserEntries(s.nodes[dst], ip) == service(ip);
      } else {
        assert AtHome(before, ports, service, home, other);
        var n := home[other];
        ClearingOthers(before, s, ip, ports[dst], src, dst, moved, other, n);
        assert ports[n] == s.routes[other] && UserEntries(s.nodes[n], other) == service(other);
      }
    }
  }

  /** When nothing was moved, only the route changes: nobody is lost if it leads home, or if the user has
      no entries anywhere. */
  lemma {:induction false} EmptyMoveStaysSettled(
    before: Net, s: Net, ports: seq<nat>, service: string -> NodeTable, home: map<string, nat>,
    ip: string, src: nat, dst: nat)
    requires Settled(before, ports, service, home)
    requires src < |ports| && dst < |ports| && ip in before.routes && home[ip] != src
    requires home[ip] == dst || service(ip) == map[]
    requires Clearing(before, s, ip, ports[dst], src, dst, map[])
    ensures Settled(s, ports, service, home[ip := dst])
  {
    assert AtHome(before, ports, service, home, ip);
    forall m | 0 <= m < |ports|
      ensures s.nodes[m] == before.nodes[m]
    {
      assert before.nodes[m] - {} == before.nodes[m] == before.nodes[m] + map[];
    }
    forall other | other in s.routes
      ensures AtHome(s, ports, service, home[ip := dst], other)
    {
      assert other in before.routes && AtHome(before, ports, service, home, other);
    }
  }

  lemma {:induction false} ClearingOthers(
    before: Net, s: Net, ip: string, port: nat, src: nat, dst: nat, moved: NodeTable, other: string, n: nat)
    requires src < |before.nodes| && dst < |before.nodes| && src != dst && n < |before.nodes|
    requires OnlyOf(ip, moved) && other != ip && Clearing(before, s, ip, port, src, dst, moved)
    ensures UserEntries(s.nodes[n], other) == UserEntries(before.nodes[n], other)
  {
    if n == src || n == dst {
      OthersUntouched(before.nodes[n], s.nodes[n], moved, ip, other);
    }
  }

  lemma {:induction false} ArrivesComplete(t: NodeTable, moved: NodeTable, ip: string)
    requires OnlyOf(ip, moved) && UserEntries(t, ip) == map[]
    ensures UserEntries(t + moved, ip) == moved
  {
    forall k | k in t
      ensures k.value == Address(ip) ==> k in UserEntries(t, ip)
    {
    }
  }

  /** After the move the user is at home on the new node, the origin holds none of his entries, and the
      others are as before. */
  lemma {:induction false} MovedIsSettled(
    before: Net, ports: seq<nat>, service: string -> NodeTable, home: map<string, nat>, ip: string, src: nat, dst: nat,
    moved: NodeTable)
    requires Settled(before, ports, service, home) && OnlyOf(ip, moved)
    requires src < |ports| && dst < |ports| && src != dst && ip in before.routes && home[ip] == src
    requires moved == UserEntries(before.nodes[src], ip)
    ensures var after := Moved(before, ip, ports[dst], src, dst, moved);
      && Settled(after, ports, service, home[ip := dst])
      && UserEntries(after.nodes[src], ip) == map[]
      && forall other, m :: other != ip && 0 <= m < |ports| ==>
        UserEntries(after.nodes[m], other) == UserEntries(before.nodes[m], other)
  {
    var after := Moved(before, ip, ports[dst], src, dst, moved);
    assert AtHome(before, ports, service, home, ip);
    ArrivesComplete(before.nodes[dst], moved, ip);
    assert UserEntries(after.nodes[src], ip) == map[];
    forall other, m | other != ip && 0 <= m < |ports|
      ensures UserEntries(after.nodes[m], other) == UserEntries(before.nodes[m], other)
    {
      ClearingOthers(before, after, ip, ports[dst], src, dst, moved, other, m);
    }
    forall other | other in after.routes
      ensures AtHome(after, ports, service, home[ip := dst], other)
    {
      if other != ip {
        assert AtHome(before, ports, service, home, other);
      } else {
        forall m | 0 <= m < |ports| && m != dst
          ensures UserEntries(after.nodes[m], ip) == map[]
        {
          if m != src {
            assert after.nodes[m] == before.nodes[m];
          }
        }
      }
    }
  }

  // ----- the tables a balancer can serve -----

  /** Single-field tables match on the source address, and user entries live in such tables. */
  ghost predicate Suitable(tables: seq<P4Table>, nodes: seq<NodeTable>) {
    && (forall i :: 0 <= i < |tables| && |tables[i].fields| == 1 ==> BySource(tables[i]))
    && (forall m, k :: 0 <= m < |nodes| && k in nodes[m] && k.value.Address? ==>
      exists i :: 0 <= i < |tables| && tables[i].id == k.table && BySource(tables[i]))
  }

  lemma {:induction false} SuitableCollects(tables: seq<P4Table>, nodes: seq<NodeTable>, n: nat, ip: string)
    requires Suitable(tables, nodes) && n < |nodes|
    ensures AllBuildable(tables)
    ensures Collected(tables, nodes[n], ip) == UserEntries(nodes[n], ip)
    ensures OnlyOf(ip, Collected(tables, nodes[n], ip))
  {
    forall k | k in nodes[n]
      ensures Requested(tables, ip, k) <==> k.value == Address(ip)
    {
      if k.value == Address(ip) {
        var i :| 0 <= i < |tables| && tables[i].id == k.table && BySource(tables[i]);
        assert Requests(tables[i], ip, k);
      }
    }
  }

  class Balancer {
    const tables: seq<P4Table>
    const mode: BalancerMode
    ghost const service: string -> NodeTable
    var ports: seq<nat>
    var user: map<string, nat>
    var net: Net
    var meters: map<string, MeterConfig>
    ghost var home: map<string, nat>
    ghost var trace: seq<Net>

    constructor (tables: seq<P4Table>, mode: BalancerMode, ghost service: string -> NodeTable)
      ensures this.tables == tables && this.mode == mode && this.service == service
      ensures ports == [] && user == map[] && net == Net(map[], []) && meters == map[] && trace == []
    {
      this.tables, this.mode, this.service := tables, mode, service;
      ports, user, net, meters, home, trace := [], map[], Net(map[], []), map[], map[], [];
    }

    ghost predicate Valid()
      reads this
    {
      Settled(net, ports, service, home)
    }

    method AddNode(table: NodeTable, port: nat)
      modifies this`ports, this`net
      ensures ports == old(ports) + [port] && net == old(net).(nodes := old(net.nodes) + [table])
    {
      ports := ports + [port];
      net := net.(nodes := net.nodes + [table]);
    }

    /** Routes every known user to the node he is recorded on, and limits his rate in meter mode. */
    method LoadEntries() returns (ok: bool)
      requires |ports| == |net.nodes|
      modifies this`net, this`meters, this`home
      ensures net.nodes == old(net.nodes)
      ensures ok <==> forall ip :: ip in user ==> user[ip] < |ports| && ip !in old(net.routes)
      ensures ok ==> net.routes == old(net.routes) + RoutesOf(user - {}, ports)
      ensures ok ==> meters == Metered(mode, user, old(meters), {})
      ensures ok && mode.MeterMode? ==>
        forall ip :: ip in user ==> ip in meters && meters[ip] == MeterConfig(1, 1, 20, 20)
      ensures ok && mode.CounterMode? ==> meters == old(meters)
      ensures ok && old(net.routes) == map[] && Placed(old(net.nodes), ports, service, user) ==>
        Valid() && RecordedAtHome(net, user, home)
    {
      ok := RouteUsers();
      home := user;
      if ok && old(net.routes) == map[] && Placed(net.nodes, ports, service, user) {
        AllUsersRouted(net, ports, service, user);
      }
    }

    method RouteUsers() returns (ok: bool)
      modifies this`net, this`meters
      ensures net.nodes == old(net.nodes)
      ensures ok <==> forall ip :: ip in user ==> user[ip] < |ports| && ip !in old(net.routes)
      ensures ok ==> Routed(user, ports, old(net.routes), net.routes, {})
      ensures ok ==> meters == Metered(mode, user, old(meters), {})
    {
      var todo := user.Keys;
      NobodyRouted(user, ports, net.routes);
      NobodyMetered(mode, user, meters);
      while todo != {}
        invariant todo <= user.Keys && net.nodes == old(net.nodes)
        invariant Routed(user, ports, old(net.routes), net.routes, todo)
        invariant meters == Metered(mode, user, old(meters), todo)
      {
        var ip :| ip in todo;
        OneMoreRouted(user, ports, old(net.routes), net.routes, todo, ip);
        if user[ip] >= |ports| || ip in net.routes {
          return false;
        }
        OneMoreMeter(mode, user, old(meters), todo, ip);
        RouteUser(ip);
        todo := todo - {ip};
      }
      return true;
    }

    method RouteUser(ip: string)
      requires ip in user && user[ip] < |ports|
      modifies this`net, this`meters
      ensures net == old(net).(routes := old(net.routes)[ip := ports[user[ip]]])
      ensures meters == if mode.MeterMode? then old(meters)[ip := USER_METER] else old(meters)
    {
      net := net.(routes := net.routes[ip := ports[user[ip]]]);
      if mode.MeterMode? {
        meters := meters[ip := USER_METER];
      }
    }

    /** Reads the user's entries, table by table. */
    method ReadEntries(n: nat, ip: string) returns (ok: bool, entries: seq<(EntryKey, seq<nat>)>)
      requires n < |net.nodes| && UniqueIds(tables)
      ensures ok <==> AllBuildable(tables)
      ensures ok ==> Lists(entries, Collected(tables, net.nodes[n], ip))
    {
      entries := [];
      var t := net.nodes[n];
      for i := 0 to |tables|
        invariant forall j :: 0 <= j < i ==> Buildable(tables[j])
        invariant Lists(entries, Collected(tables[..i], t, ip))
      {
        if !Buildable(tables[i]) {
          return false, [];
        }
        var answer := ReadTable(t, tables[i], ip);
        CollectedNext(tables, i, t, ip);
        ListsAppend(entries, Collected(tables[..i], t, ip), answer, Answer(t, tables[i], ip));
        entries := entries + answer;
      }
      assert tables[..|tables|] == tables;
      ok := true;
    }

    /** INSERT into a node; an entry that is there already makes the node refuse. */
    method InsertEntry(n: nat, k: EntryKey, a: seq<nat>) returns (ok: bool)
      requires n < |net.nodes|
      modifies this`net, this`trace
      ensures ok <==> k !in old(net.nodes[n])
      ensures net == if ok then old(net).(nodes := old(net.nodes)[n := old(net.nodes[n])[k := a]]) else old(net)
      ensures trace == old(trace) + [net]
    {
      ok := k !in net.nodes[n];
      if ok {
        net := net.(nodes := net.nodes[n := net.nodes[n][k := a]]);
      }
      trace := trace + [net];
    }

    method DeleteEntry(n: nat, k: EntryKey)
      requires n < |net.nodes|
      modifies this`net, this`trace
      ensures net == old(net).(nodes := old(net.nodes)[n := old(net.nodes[n]) - {k}])
      ensures trace == old(trace) + [net]
    {
      net := net.(nodes := net.nodes[n := net.nodes[n] - {k}]);
      trace := trace + [net];
    }

    /** MODIFY of the balancer's own entry; the address must be routed already. */
    method ModifyRoute(ip: string, port: nat) returns (ok: bool)
      modifies this`net, this`trace
      ensures ok <==> ip in old(net.routes)
      ensures net == if ok then old(net).(routes := old(net.routes)[ip := port]) else old(net)
      ensures trace == old(trace) + [net]
    {
      ok := ip in net.routes;
      if ok {
        net := net.(routes := net.routes[ip := port]);
      }
      trace := trace + [net];
    }

    method CopyOne(
      entry: (EntryKey, seq<nat>), dst: nat, ghost before: Net, ghost part: NodeTable, ghost moved: NodeTable)
      returns (ok: bool)
      requires dst < |before.nodes| && net == Grown(before, dst, part)
      requires part.Keys !! before.nodes[dst].Keys && entry.0 !in part && SubTable(part[entry.0 := entry.1], moved)
      modifies this`net, this`trace
      ensures ok <==> entry.0 !in before.nodes[dst]
      ensures net == if ok then Grown(before, dst, part[entry.0 := entry.1]) else old(net)
      ensures trace == old(trace) + [net] && Copying(before, net, dst, moved)
    {
      ok := InsertEntry(dst, entry.0, entry.1);
      if ok {
        assert net.nodes[dst] == before.nodes[dst] + part[entry.0 := entry.1];
        GrownCopies(before, dst, part[entry.0 := entry.1], moved);
      } else {
        assert SubTable(part, moved) by {
          assert forall k :: k in part ==> k in part[entry.0 := entry.1];
        }
        GrownCopies(before, dst, part, moved);
      }
    }

    method CopyNext(
      entries: seq<(EntryKey, seq<nat>)>, i: nat, dst: nat, ghost before: Net, ghost moved: NodeTable)
      returns (ok: bool)
      requires dst < |before.nodes| && i < |entries| && Lists(entries, moved)
      requires net == Grown(before, dst, AsTable(entries[..i])) && Keys(entries[..i]) !! before.nodes[dst].Keys
      modifies this`net, this`trace
      ensures trace == old(trace) + [net] && Copying(before, net, dst, moved)
      ensures ok ==>
        net == Grown(before, dst, AsTable(entries[..i + 1])) && Keys(entries[..i + 1]) !! before.nodes[dst].Keys
      ensures !ok ==> entries[i].0 in moved && entries[i].0 in before.nodes[dst]
    {
      PartOfList(entries, i, moved);
      ok := CopyOne(entries[i], dst, before, AsTable(entries[..i]), moved);
    }

    method CopyEntries(entries: seq<(EntryKey, seq<nat>)>, dst: nat, ghost moved: NodeTable) returns (ok: bool)
      requires dst < |net.nodes| && Lists(entries, moved)
      modifies this`net, this`trace
      ensures old(trace) <= trace && forall i :: |old(trace)| <= i < |trace| ==> Copying(old(net), trace[i], dst, moved)
      ensures Copying(old(net), net, dst, moved)
      ensures ok <==> moved.Keys !! old(net.nodes[dst]).Keys
      ensures ok ==> net == Grown(old(net), dst, moved)
    {
      ghost var before := net;
      NothingGrown(before, dst);
      assert entries[..0] == [];
      for i := 0 to |entries|
        invariant old(trace) <= trace && forall j :: |old(trace)| <= j < |trace| ==>
          Copying(before, trace[j], dst, moved)
        invariant net == Grown(before, dst, AsTable(entries[..i]))
        invariant Keys(entries[..i]) !! before.nodes[dst].Keys
      {
        ok := CopyNext(entries, i, dst, before, moved);
        if !ok {
          return;
        }
      }
      assert entries[..|entries|] == entries;
      AllGrown(entries, before, dst, moved);
      ok := true;
    }

    method ClearOne(
      k: EntryKey, ghost before: Net, ip: string, port: nat, src: nat, dst: nat, ghost gone: set<EntryKey>,
      ghost moved: NodeTable)
      requires src < |before.nodes| && dst < |before.nodes| && src != dst
      requires gone <= moved.Keys && k in moved && net == Shrunk(before, ip, port, src, dst, moved, gone)
      modifies this`net, this`trace
      ensures net == Shrunk(before, ip, port, src, dst, moved, gone + {k})
      ensures trace == old(trace) + [net] && Clearing(before, net, ip, port, src, dst, moved)
    {
      DeleteEntry(src, k);
      assert net.nodes[src] == before.nodes[src] - (gone + {k});
    }

    method ClearEntries(
      entries: seq<(EntryKey, seq<nat>)>, ghost before: Net, ip: string, port: nat, src: nat, dst: nat,
      ghost moved: NodeTable)
      requires src < |before.nodes| && dst < |before.nodes| && src != dst && Lists(entries, moved)
      requires net == Shrunk(before, ip, port, src, dst, moved, {})
      modifies this`net, this`trace
      ensures old(trace) <= trace && forall i :: |old(trace)| <= i < |trace| ==>
        Clearing(before, trace[i], ip, port, src, dst, moved)
      ensures net == Moved(before, ip, port, src, dst, moved)
    {
      assert entries[..0] == [] && Keys([]) == {};
      for i := 0 to |entries|
        invariant old(trace) <= trace && forall j :: |old(trace)| <= j < |trace| ==>
          Clearing(before, trace[j], ip, port, src, dst, moved)
        invariant net == Shrunk(before, ip, port, src, dst, moved, Keys(entries[..i]))
      {
        PartOfList(entries, i, moved);
        ClearOne(entries[i].0, before, ip, port, src, dst, Keys(entries[..i]), moved);
      }
      assert entries[..|entries|] == entries;
    }

    /** Copy to the destination, switch over, then clear the origin.  An error at any point leaves things
        as they are. */
    method MoveToNewTarget(ip: string, src: nat, dst: nat) returns (ok: bool)
      requires UniqueIds(tables) && |ports| == |net.nodes| && src != dst
      modifies this`net, this`trace
      ensures old(trace) <= trace && |net.nodes| == |old(net.nodes)|
      ensures ok ==> src < |ports| && dst < |ports|
      ensures src < |ports| && dst < |ports| ==>
        var moved := Collected(tables, old(net.nodes)[src], ip);
        && (ok <==> AllBuildable(tables) && moved.Keys !! old(net.nodes)[dst].Keys && ip in old(net.routes))
        && (ok ==> net == Moved(old(net), ip, ports[dst], src, dst, moved))
        && (!ok ==> Copying(old(net), net, dst, moved))
        && (!AllBuildable(tables) ==> net == old(net) && trace == old(trace))
        && forall i :: |old(trace)| <= i < |trace| ==>
          Copying(old(net), trace[i], dst, moved) ||
            (ok && Clearing(old(net), trace[i], ip, ports[dst], src, dst, moved))
      ensures !(src < |ports| && dst < |ports|) ==> net == old(net) && trace == old(trace)
    {
      if src >= |ports| || dst >= |ports| {
        return false;
      }
      ghost var before := net;
      ghost var moved := Collected(tables, net.nodes[src], ip);
      var built, entries := ReadEntries(src, ip);
      if !built {
        return false;
      }
      ok := CopyEntries(entries, dst, moved);
      if !ok {
        return;
      }
      ok := ModifyRoute(ip, ports[dst]);
      if !ok {
        return;
      }
      assert before.nodes[src] - {} == before.nodes[src];
      assert net.nodes[src := before.nodes[src]] == net.nodes;
      ClearEntries(entries, before, ip, ports[dst], src, dst, moved);
    }

    /** A new user is only recorded.  A known user whose node changes is recorded first and moved then.
        Whoever the user and whichever the node: everybody stays served exactly if the call does not strand
        its user. */
    method SetTargetNode(ip: string, dst: nat) returns (ok: bool)
      requires UniqueIds(tables) && |ports| == |net.nodes|
      modifies this`user, this`net, this`home, this`trace
      ensures user == old(user)[ip := dst]
      ensures old(trace) <= trace
      ensures SetOutcome(tables, ports, old(user), old(net), Call(ip, dst, ok, trace[|old(trace)|..], net))
      ensures old(Valid()) && Suitable(tables, old(net.nodes)) ==>
        (Hitless(net, ports, service) <==> !Strands(ports, service, old(user), old(net), ip, dst))
      ensures
        old(Valid()) && Suitable(tables, old(net.nodes)) && !Strands(ports, service, old(user), old(net), ip, dst) ==>
        Valid() && forall i :: |old(trace)| <= i < |trace| ==> Hitless(trace[i], ports, service)
    {
      ok := RecordAndMove(ip, dst);
      if old(Valid()) && Suitable(tables, old(net.nodes)) {
        ghost var call := Call(ip, dst, ok, trace[|old(trace)|..], net);
        CallIsHitlessExactly(tables, ports, service, old(user), old(home), old(net), call);
        assert forall i :: |old(trace)| <= i < |trace| ==> trace[i] == call.steps[i - |old(trace)|];
        home := HomeAfter(ports, old(user), home, old(net), call);
      }
    }

    method RecordAndMove(ip: string, dst: nat) returns (ok: bool)
      requires UniqueIds(tables) && |ports| == |net.nodes|
      modifies this`user, this`net, this`trace
      ensures user == old(user)[ip := dst]
      ensures old(trace) <= trace
      ensures SetOutcome(tables, ports, old(user), old(net), Call(ip, dst, ok, trace[|old(trace)|..], net))
    {
      if ip !in user {
        user := user[ip := dst];
        return true;
      }
      var src := user[ip];
      if src == dst {
        return true;
      }
      user := user[ip := dst];
      ok := MoveToNewTarget(ip, src, dst);
    }
  }

  // ----- sequences of calls -----

  /** One call of `SetTargetNode`: its result, the nets after each of its writes, and the final net. */
  datatype Call = Call(ip: string, dst: nat, ok: bool, steps: seq<Net>, after: Net)

  ghost predicate SetOutcome(tables: seq<P4Table>, ports: seq<nat>, user: map<string, nat>, before: Net, c: Call)
    requires |ports| == |before.nodes|
  {
    if c.ip !in user || user[c.ip] == c.dst then c.ok && c.after == before && c.steps == []
    else if user[c.ip] < |ports| && c.dst < |ports| then
      var src, moved := user[c.ip], Collected(tables, before.nodes[user[c.ip]], c.ip);
      && (c.ok <==> AllBuildable(tables) && moved.Keys !! before.nodes[c.dst].Keys && c.ip in before.routes)
      && (if c.ok then c.after == Moved(before, c.ip, ports[c.dst], src, c.dst, moved)
        else Copying(before, c.after, c.dst, moved))
      && (!AllBuildable(tables) ==> c.after == before && c.steps == [])
      && forall i :: 0 <= i < |c.steps| ==>
        Copying(before, c.steps[i], c.dst, moved) ||
          (c.ok && Clearing(before, c.steps[i], c.ip, ports[c.dst], src, c.dst, moved))
    else !c.ok && c.after == before && c.steps == []
  }

  /** The call routes a user who has entries away from home: it moves him from the recorded node, which is
      not the node he is routed to, to a third one. */
  predicate Strands(
    ports: seq<nat>, service: string -> NodeTable, user: map<string, nat>, before: Net, ip: string, dst: nat)
  {
    && ip in before.routes && ip in user && user[ip] < |ports| && dst < |ports| && user[ip] != dst
    && ports[user[ip]] != before.routes[ip] && ports[dst] != before.routes[ip]
    && service(ip) != map[]
  }

  /** Where the users live after a call that strands nobody. */
  function HomeAfter(
    ports: seq<nat>, user: map<string, nat>, home: map<string, nat>, before: Net, c: Call): map<string, nat>
  {
    if c.ip in before.routes && c.ip in user && user[c.ip] < |ports| && c.dst < |ports| && user[c.ip] != c.dst
    then home[c.ip := c.dst] else home
  }

  /** One call, for any user, routed or not, known or not, and any node: it leaves everybody served exactly
      when it does not strand its user, and then every net it passed through was hitless, too. */
  lemma {:induction false} CallIsHitlessExactly(
    tables: seq<P4Table>, ports: seq<nat>, service: string -> NodeTable, user: map<string, nat>,
    home: map<string, nat>, before: Net, c: Call)
    requires Settled(before, ports, service, home) && Suitable(tables, before.nodes)
    requires SetOutcome(tables, ports, user, before, c)
    ensures Hitless(c.after, ports, service) <==> !Strands(ports, service, user, before, c.ip, c.dst)
    ensures !Strands(ports, service, user, before, c.ip, c.dst) ==>
      && Settled(c.after, ports, service, HomeAfter(ports, user, home, before, c))
      && Suitable(tables, c.after.nodes)
      && (forall i :: 0 <= i < |c.steps| ==> Hitless(c.steps[i], ports, service))
  {
    if c.ip !in user || user[c.ip] == c.dst || user[c.ip] >= |ports| || c.dst >= |ports| {
      SettledIsHitless(before, ports, service, home);
    } else {
      SuitableCollects(tables, before.nodes, user[c.ip], c.ip);
      StaysSuitable(tables, ports, user, before, c);
      if c.ip !in before.routes {
        UnroutedCall(tables, ports, service, user, home, before, c);
      } else if user[c.ip] == home[c.ip] {
        RealMove(tables, ports, service, user, home, before, c);
      } else {
        EmptyMove(tables, ports, service, user, home, before, c);
      }
    }
  }

  /** The call moves something, or tries to. */
  ghost predicate Attempts(
    tables: seq<P4Table>, ports: seq<nat>, service: string -> NodeTable, user: map<string, nat>,
    home: map<string, nat>, before: Net, c: Call)
  {
    && Settled(before, ports, service, home) && Suitable(tables, before.nodes)
    && SetOutcome(tables, ports, user, before, c)
    && c.ip in user && user[c.ip] < |ports| && c.dst < |ports| && user[c.ip] != c.dst
  }

  /** Whatever becomes of the call, other users' entries stay where they are, and a completed move leaves
      none of the user's entries behind. */
  lemma {:induction false} OnlyTheUserMoves(
    tables: seq<P4Table>, ports: seq<nat>, user: map<string, nat>, before: Net, c: Call, other: string, m: nat)
    requires |ports| == |before.nodes| && Suitable(tables, before.nodes) && SetOutcome(tables, ports, user, before, c)
    requires m < |ports|
    ensures |c.after.nodes| == |ports|
    ensures other != c.ip ==> UserEntries(c.after.nodes[m], other) == UserEntries(before.nodes[m], other)
    ensures c.ok && c.ip in user && user[c.ip] == m != c.dst ==> UserEntries(c.after.nodes[m], c.ip) == map[]
  {
    if c.ip in user && user[c.ip] != c.dst && user[c.ip] < |ports| && c.dst < |ports| {
      var moved := Collected(tables, before.nodes[user[c.ip]], c.ip);
      SuitableCollects(tables, before.nodes, user[c.ip], c.ip);
      if other != c.ip && c.after.nodes[m] != before.nodes[m] {
        OthersUntouched(before.nodes[m], c.after.nodes[m], moved, c.ip, other);
      }
    }
  }

  lemma {:induction false} StaysSuitable(
    tables: seq<P4Table>, ports: seq<nat>, user: map<string, nat>, before: Net, c: Call)
    requires |ports| == |before.nodes| && Suitable(tables, before.nodes) && SetOutcome(tables, ports, user, before, c)
    ensures Suitable(tables, c.after.nodes)
  {
    forall m, k | 0 <= m < |c.after.nodes| && k in c.after.nodes[m]
      ensures k in before.nodes[m] || (c.ip in user && user[c.ip] < |ports| && k in before.nodes[user[c.ip]])
    {
    }
  }

  /** For a user without a route entries may be copied, but nobody is switched over. */
  lemma {:induction false} UnroutedCall(
    tables: seq<P4Table>, ports: seq<nat>, service: string -> NodeTable, user: map<string, nat>,
    home: map<string, nat>, before: Net, c: Call)
    requires Attempts(tables, ports, service, user, home, before, c) && c.ip !in before.routes
    ensures Settled(c.after, ports, service, home) && Hitless(c.after, ports, service)
    ensures forall i :: 0 <= i < |c.steps| ==> Hitless(c.steps[i], ports, service)
  {
    SuitableCollects(tables, before.nodes, user[c.ip], c.ip);
    var moved := Collected(tables, before.nodes[user[c.ip]], c.ip);
    CopyingStaysSettled(before, c.after, ports, service, home, c.ip, c.dst, moved);
    SettledIsHitless(c.after, ports, service, home);
    forall i | 0 <= i < |c.steps|
      ensures Hitless(c.steps[i], ports, service)
    {
      CopyingIsHitless(before, c.steps[i], ports, service, home, c.ip, c.dst, moved);
    }
  }

  /** A routed user who is recorded at home is moved. */
  lemma {:induction false} RealMove(
    tables: seq<P4Table>, ports: seq<nat>, service: string -> NodeTable, user: map<string, nat>,
    home: map<string, nat>, before: Net, c: Call)
    requires Attempts(tables, ports, service, user, home, before, c)
    requires c.ip in before.routes && user[c.ip] == home[c.ip]
    ensures c.ok && Settled(c.after, ports, service, home[c.ip := c.dst]) && Hitless(c.after, ports, service)
    ensures forall i :: 0 <= i < |c.steps| ==> Hitless(c.steps[i], ports, service)
  {
    assert AtHome(before, ports, service, home, c.ip);
    var src, moved := user[c.ip], Collected(tables, before.nodes[user[c.ip]], c.ip);
    SuitableCollects(tables, before.nodes, src, c.ip);
    NothingInTheWay(before.nodes[c.dst], moved, c.ip);
    MovedIsSettled(before, ports, service, home, c.ip, src, c.dst, moved);
    SettledIsHitless(c.after, ports, service, home[c.ip := c.dst]);
    forall i | 0 <= i < |c.steps|
      ensures Hitless(c.steps[i], ports, service)
    {
      if Copying(before, c.steps[i], c.dst, moved) {
        CopyingIsHitless(before, c.steps[i], ports, service, home, c.ip, c.dst, moved);
      } else {
        ClearingIsHitless(before, c.steps[i], ports, service, home, c.ip, src, c.dst, moved);
      }
    }
  }

  /** A routed user who is recorded away from home is rerouted without entries. */
  lemma {:induction false} EmptyMove(
    tables: seq<P4Table>, ports: seq<nat>, service: string -> NodeTable, user: map<string, nat>,
    home: map<string, nat>, before: Net, c: Call)
    requires Attempts(tables, ports, service, user, home, before, c)
    requires c.ip in before.routes && user[c.ip] != home[c.ip]
    ensures c.ok && c.after == before.(routes := before.routes[c.ip := ports[c.dst]])
    ensures Hitless(c.after, ports, service) <==> home[c.ip] == c.dst || service(c.ip) == map[]
    ensures Hitless(c.after, ports, service) ==>
      && Settled(c.after, ports, service, home[c.ip := c.dst])
      && forall i :: 0 <= i < |c.steps| ==> Hitless(c.steps[i], ports, service)
  {
    assert AtHome(before, ports, service, home, c.ip);
    var src := user[c.ip];
    SuitableCollects(tables, before.nodes, src, c.ip);
    assert Collected(tables, before.nodes[src], c.ip) == map[];
    NothingMoved(before.nodes, src, c.dst);
    if home[c.ip] == c.dst || service(c.ip) == map[] {
      EmptyMoveStaysSettled(before, c.after, ports, service, home, c.ip, src, c.dst);
      SettledIsHitless(c.after, ports, service, home[c.ip := c.dst]);
      forall i | 0 <= i < |c.steps|
        ensures Hitless(c.steps[i], ports, service)
      {
        if Copying(before, c.steps[i], c.dst, map[]) {
          CopyingIsHitless(before, c.steps[i], ports, service, home, c.ip, c.dst, map[]);
        } else {
          EmptyMoveStaysSettled(before, c.steps[i], ports, service, home, c.ip, src, c.dst);
          SettledIsHitless(c.steps[i], ports, service, home[c.ip := c.dst]);
        }
      }
    } else {
      assert !Served(c.after, ports, service, c.ip);
    }
  }

  lemma {:induction false} NothingMoved(nodes: seq<NodeTable>, src: nat, dst: nat)
    requires src < |nodes| && dst < |nodes| && src != dst
    ensures var none: NodeTable := map[]; nodes[dst := nodes[dst] + none][src := nodes[src] - none.Keys] == nodes
  {
    var none: NodeTable := map[];
    assert nodes[dst] + none == nodes[dst] && nodes[src] - none.Keys == nodes[src];
  }

  lemma {:induction false} NothingInTheWay(t: NodeTable, moved: NodeTable, ip: string)
    requires OnlyOf(ip, moved) && UserEntries(t, ip) == map[]
    ensures moved.Keys !! t.Keys
  {
    forall k | k in t
      ensures k !in moved
    {
      assert k.value == Address(ip) ==> k in UserEntries(t, ip);
    }
  }

  /** The states before and after each call of a sequence. */
  ghost predicate CallsFrom(tables: seq<P4Table>, ports: seq<nat>, user: map<string, nat>, before: Net, cs: seq<Call>)
    requires |ports| == |before.nodes|
    decreases |cs|
  {
    cs == [] || (
      && SetOutcome(tables, ports, user, before, cs[0]) && |cs[0].after.nodes| == |ports|
      && CallsFrom(tables, ports, user[cs[0].ip := cs[0].dst], cs[0].after, cs[1..]))
  }

  ghost predicate NobodyStranded(
    ports: seq<nat>, service: string -> NodeTable, user: map<string, nat>, before: Net, cs: seq<Call>)
    decreases |cs|
  {
    cs == [] || (
      && !Strands(ports, service, user, before, cs[0].ip, cs[0].dst)
      && NobodyStranded(ports, service, user[cs[0].ip := cs[0].dst], cs[0].after, cs[1..]))
  }

  /** Hitless migration, exactly: over every sequence of calls, whatever users and nodes they name, everybody
      is served after every call if and only if no call strands its user; and then everybody was served
      after every single write. */
  lemma {:induction false} MigrationIsHitlessExactly(
    tables: seq<P4Table>, ports: seq<nat>, service: string -> NodeTable, user: map<string, nat>,
    home: map<string, nat>, before: Net, cs: seq<Call>)
    requires Settled(before, ports, service, home) && Suitable(tables, before.nodes)
    requires CallsFrom(tables, ports, user, before, cs)
    ensures (forall n :: 0 <= n < |cs| ==> Hitless(cs[n].after, ports, service)) <==>
      NobodyStranded(ports, service, user, before, cs)
    ensures NobodyStranded(ports, service, user, before, cs) ==>
      forall n, i :: 0 <= n < |cs| && 0 <= i < |cs[n].steps| ==> Hitless(cs[n].steps[i], ports, service)
    decreases |cs|
  {
    if cs != [] {
      var c, rest := cs[0], cs[1..];
      CallIsHitlessExactly(tables, ports, service, user, home, before, c);
      assert forall n :: 0 <= n < |rest| ==> rest[n] == cs[n + 1];
      assert forall n :: 0 < n < |cs| ==> cs[n] == rest[n - 1];
      if !Strands(ports, service, user, before, c.ip, c.dst) {
        MigrationIsHitlessExactly(
          tables, ports, service, user[c.ip := c.dst], HomeAfter(ports, user, home, before, c), c.after, rest);
      }
    }
  }

  /** Every routed user is recorded at home. */
  ghost predicate RecordedAtHome(net: Net, user: map<string, nat>, home: map<string, nat>) {
    forall ip :: ip in net.routes ==> ip in user && ip in home && user[ip] == home[ip]
  }

  /** As long as only existing nodes are named, nobody is ever stranded, and every call for a routed user
      succeeds. */
  lemma {:induction false} MigrationIsHitless(
    tables: seq<P4Table>, ports: seq<nat>, service: string -> NodeTable, user: map<string, nat>,
    home: map<string, nat>, before: Net, cs: seq<Call>)
    requires Settled(before, ports, service, home) && Suitable(tables, before.nodes)
    requires RecordedAtHome(before, user, home)
    requires CallsFrom(tables, ports, user, before, cs)
    requires forall n :: 0 <= n < |cs| ==> cs[n].dst < |ports|
    ensures NobodyStranded(ports, service, user, before, cs)
    ensures forall n :: 0 <= n < |cs| && cs[n].ip in before.routes ==> cs[n].ok
    decreases |cs|
  {
    if cs != [] {
      var c, rest := cs[0], cs[1..];
      CallToExistingNode(tables, ports, service, user, home, before, c);
      assert forall n :: 0 <= n < |rest| ==> rest[n] == cs[n + 1];
      MigrationIsHitless(
        tables, ports, service, user[c.ip := c.dst], HomeAfter(ports, user, home, before, c), c.after, rest);
      assert forall n :: 0 < n < |cs| ==> cs[n] == rest[n - 1];
    }
  }

  lemma {:induction false} CallToExistingNode(
    tables: seq<P4Table>, ports: seq<nat>, service: string -> NodeTable, user: map<string, nat>,
    home: map<string, nat>, before: Net, c: Call)
    requires Settled(before, ports, service, home) && Suitable(tables, before.nodes)
    requires RecordedAtHome(before, user, home) && SetOutcome(tables, ports, user, before, c) && c.dst < |ports|
    ensures !Strands(ports, service, user, before, c.ip, c.dst)
    ensures Settled(c.after, ports, service, HomeAfter(ports, user, home, before, c)) && Suitable(tables, c.after.nodes)
    ensures RecordedAtHome(c.after, user[c.ip := c.dst], HomeAfter(ports, user, home, before, c))
    ensures c.after.routes.Keys == before.routes.Keys && (c.ip in before.routes ==> c.ok)
  {
    assert c.ip in before.routes ==> AtHome(before, ports, service, home, c.ip);
    assert !Strands(ports, service, user, before, c.ip, c.dst);
    CallIsHitlessExactly(tables, ports, service, user, home, before, c);
    RecordedCall(tables, ports, service, user, home, before, c);
  }

  lemma {:induction false} RecordedStays(
    before: Net, after: Net, user: map<string, nat>, home: map<string, nat>, ip: string, dst: nat)
    requires RecordedAtHome(before, user, home) && after.routes.Keys == before.routes.Keys
    ensures RecordedAtHome(after, user[ip := dst], home[ip := dst])
    ensures ip !in before.routes || user[ip] == dst ==> RecordedAtHome(after, user[ip := dst], home)
  {
  }

  lemma {:induction false} RoutesAfterCall(
    tables: seq<P4Table>, ports: seq<nat>, user: map<string, nat>, before: Net, c: Call)
    requires |ports| == |before.nodes| && SetOutcome(tables, ports, user, before, c)
    ensures c.after.routes.Keys == before.routes.Keys
  {
  }

  lemma {:induction false} RecordedCall(
    tables: seq<P4Table>, ports: seq<nat>, service: string -> NodeTable, user: map<string, nat>,
    home: map<string, nat>, before: Net, c: Call)
    requires Settled(before, ports, service, home) && Suitable(tables, before.nodes)
    requires SetOutcome(tables, ports, user, before, c) && RecordedAtHome(before, user, home) && c.dst < |ports|
    ensures c.after.routes.Keys == before.routes.Keys && (c.ip in before.routes ==> c.ok)
    ensures RecordedAtHome(c.after, user[c.ip := c.dst], HomeAfter(ports, user, home, before, c))
  {
    RoutesAfterCall(tables, ports, user, before, c);
    RecordedStays(before, c.after, user, home, c.ip, c.dst);
    if c.ip in before.routes && user[c.ip] != c.dst {
      assert AtHome(before, ports, service, home, c.ip);
      RealMove(tables, ports, service, user, home, before, c);
    }
  }

  /** Naming a node that does not exist can strand a user later: after two refused calls the recorded node is
      wrong, and the third call routes the user to a node without the user's entries. */
  lemma {:induction false} RefusedCallsLoseTheUser(
    tables: seq<P4Table>, ports: seq<nat>, service: string -> NodeTable, user: map<string, nat>,
    home: map<string, nat>, before: Net, c1: Call, c2: Call, c3: Call)
    requires Settled(before, ports, service, home) && Suitable(tables, before.nodes)
    requires RecordedAtHome(before, user, home)
    requires CallsFrom(tables, ports, user, before, [c1, c2, c3])
    requires c1.ip == c2.ip == c3.ip && c1.ip in before.routes && service(c1.ip) != map[]
    requires c1.dst >= |ports| && c2.dst < |ports| && c3.dst < |ports|
    requires c2.dst != user[c1.ip] && c3.dst != user[c1.ip] && c2.dst != c3.dst
    ensures !c1.ok && !c2.ok && c3.ok && !Hitless(c3.after, ports, service)
  {
    var ip := c1.ip;
    assert AtHome(before, ports, service, home, ip);
    assert [c1, c2, c3][1..] == [c2, c3] && [c2, c3][1..] == [c3];
    assert !c1.ok && c1.after == before;
    var user2 := user[ip := c1.dst];
    assert CallsFrom(tables, ports, user2, before, [c2, c3]);
    assert !c2.ok && c2.after == before;
    var user3 := user2[ip := c2.dst];
    assert CallsFrom(tables, ports, user3, before, [c3]);
    EmptyMove(tables, ports, service, user3, home, before, c3);
  }

  /** Only tables with a single field are ever touched: an entry of any other table stays on every node. */
  lemma {:induction false} OtherTablesStay(
    tables: seq<P4Table>, ports: seq<nat>, user: map<string, nat>, before: Net, c: Call, m: nat, k: EntryKey)
    requires |ports| == |before.nodes| && SetOutcome(tables, ports, user, before, c) && m < |ports|
    requires forall i :: 0 <= i < |tables| && tables[i].id == k.table ==> |tables[i].fields| != 1
    ensures |c.after.nodes| == |ports| && (k in c.after.nodes[m] <==> k in before.nodes[m])
    ensures k in before.nodes[m] ==> c.after.nodes[m][k] == before.nodes[m][k]
  {
    assert !Requested(tables, c.ip, k);
  }

  /** A table with a single EXACT or LPM field of another name makes every move fail before it writes
      anything. */
  lemma {:induction false} OtherFieldRefuses(
    tables: seq<P4Table>, ports: seq<nat>, user: map<string, nat>, before: Net, c: Call, i: nat)
    requires |ports| == |before.nodes| && SetOutcome(tables, ports, user, before, c)
    requires i < |tables| && |tables[i].fields| == 1
    requires tables[i].fields[0].matchType.Exact? || tables[i].fields[0].matchType.Lpm?
    requires tables[i].fields[0].name != "hdr.ipv4.srcAddr"
    requires c.ip in user && user[c.ip] != c.dst
    ensures !c.ok && c.after == before && c.steps == []
  {
    assert !Buildable(tables[i]);
  }

  /** Why single-field tables have to match on the source address: for another single field the request asks
      for the whole table, so moving one user takes everybody's entries of that table away. */
  lemma {:induction false} WholeTableIsMoved(
    tables: seq<P4Table>, ports: seq<nat>, service: string -> NodeTable, user: map<string, nat>,
    home: map<string, nat>, before: Net, c: Call, i: nat, other: string, k: EntryKey)
    requires Settled(before, ports, service, home) && SetOutcome(tables, ports, user, before, c) && c.ok
    requires c.ip in user && user[c.ip] < |ports| && user[c.ip] != c.dst
    requires i < |tables| && |tables[i].fields| == 1 && tables[i].fields[0].matchType.OtherMatch?
    requires other != c.ip && other in before.routes && home[other] == user[c.ip]
    requires k in before.nodes[user[c.ip]] && k.table == tables[i].id && k.value == Address(other)
    ensures c.after.routes[other] == before.routes[other] && k !in c.after.nodes[home[other]]
    ensures !Hitless(c.after, ports, service)
  {
    assert AtHome(before, ports, service, home, other);
    var src := user[c.ip];
    assert Requests(tables[i], c.ip, k);
    assert k in Collected(tables, before.nodes[src], c.ip);
    assert k in UserEntries(before.nodes[src], other) && k !in UserEntries(c.after.nodes[src], other);
    assert !Served(c.after, ports, service, other);
  }

  predicate UniqueIds(tables: seq<P4Table>) {
    forall i, j :: 0 <= i < j < |tables| ==> tables[i].id != tables[j].id
  }

  function Grown(before: Net, dst: nat, part: NodeTable): Net
    requires dst < |before.nodes|
  {
    before.(nodes := before.nodes[dst := before.nodes[dst] + part])
  }

  lemma {:induction false} NothingGrown(before: Net, dst: nat)
    requires dst < |before.nodes|
    ensures Grown(before, dst, map[]) == before
  {
    assert before.nodes[dst] + map[] == before.nodes[dst];
    assert before.nodes[dst := before.nodes[dst]] == before.nodes;
  }

  lemma {:induction false} AllGrown(entries: seq<(EntryKey, seq<nat>)>, before: Net, dst: nat, moved: NodeTable)
    requires dst < |before.nodes| && Lists(entries, moved) && Keys(entries) !! before.nodes[dst].Keys
    ensures AsTable(entries) == moved && Copying(before, Grown(before, dst, moved), dst, moved)
  {
    WholeList(entries, moved);
    GrownCopies(before, dst, moved, moved);
  }

  lemma {:induction false} GrownCopies(before: Net, dst: nat, part: NodeTable, moved: NodeTable)
    requires dst < |before.nodes| && SubTable(part, moved) && part.Keys !! before.nodes[dst].Keys
    ensures Copying(before, Grown(before, dst, part), dst, moved)
  {
  }

  function Shrunk(before: Net, ip: string, port: nat, src: nat, dst: nat, moved: NodeTable, gone: set<EntryKey>): Net
    requires src < |before.nodes| && dst < |before.nodes| && src != dst
  {
    Net(before.routes[ip := port], before.nodes[dst := before.nodes[dst] + moved][src := before.nodes[src] - gone])
  }

  // ----- lists of entries -----

  function Keys(entries: seq<(EntryKey, seq<nat>)>): set<EntryKey> {
    set i | 0 <= i < |entries| :: entries[i].0
  }

  predicate Distinct(entries: seq<(EntryKey, seq<nat>)>) {
    forall i, j :: 0 <= i < j < |entries| ==> entries[i].0 != entries[j].0
  }

  /** The list has every entry of the table once. */
  predicate Lists(entries: seq<(EntryKey, seq<nat>)>, t: NodeTable) {
    && Distinct(entries) && Keys(entries) == t.Keys
    && forall j :: 0 <= j < |entries| ==> entries[j].1 == t[entries[j].0]
  }

  function AsTable(entries: seq<(EntryKey, seq<nat>)>): NodeTable {
    if entries == [] then map[]
    else AsTable(entries[..|entries| - 1])[entries[|entries| - 1].0 := entries[|entries| - 1].1]
  }

  lemma {:induction false} AsTableMeaning(entries: seq<(EntryKey, seq<nat>)>)
    requires Distinct(entries)
    ensures AsTable(entries).Keys == Keys(entries)
    ensures forall j :: 0 <= j < |entries| ==> AsTable(entries)[entries[j].0] == entries[j].1
  {
    if entries != [] {
      var n := |entries| - 1;
      AsTableMeaning(entries[..n]);
      KeysNext(entries, n);
      assert entries[..n + 1] == entries;
      forall j | 0 <= j < |entries|
        ensures AsTable(entries)[entries[j].0] == entries[j].1
      {
        if j < n {
          assert entries[..n][j] == entries[j];
        }
      }
    }
  }

  lemma {:induction false} KeysNext(entries: seq<(EntryKey, seq<nat>)>, i: nat)
    requires i < |entries|
    ensures Keys(entries[..i + 1]) == Keys(entries[..i]) + {entries[i].0}
  {
    var next := entries[..i + 1];
    assert next[i] == entries[i];
    forall k | k in Keys(entries[..i])
      ensures k in Keys(next)
    {
      var j :| 0 <= j < i && entries[..i][j].0 == k;
      assert next[j].0 == k;
    }
    assert entries[i].0 in Keys(next);
  }

  /** What is known in the middle of a list. */
  lemma {:induction false} PartOfList(entries: seq<(EntryKey, seq<nat>)>, i: nat, t: NodeTable)
    requires Lists(entries, t) && i < |entries|
    ensures SubTable(AsTable(entries[..i]), t) && SubTable(AsTable(entries[..i + 1]), t)
    ensures AsTable(entries[..i + 1]) == AsTable(entries[..i])[entries[i].0 := entries[i].1]
    ensures Keys(entries[..i + 1]) == Keys(entries[..i]) + {entries[i].0} && Keys(entries[..i + 1]) <= t.Keys
    ensures AsTable(entries[..i]).Keys == Keys(entries[..i]) && entries[i].0 !in Keys(entries[..i])
  {
    PrefixIsPart(entries, i, t);
    PrefixIsPart(entries, i + 1, t);
    KeysNext(entries, i);
    assert entries[..i + 1][..i] == entries[..i];
  }

  lemma {:induction false} PrefixIsPart(entries: seq<(EntryKey, seq<nat>)>, i: nat, t: NodeTable)
    requires Lists(entries, t) && i <= |entries|
    ensures Distinct(entries[..i]) && SubTable(AsTable(entries[..i]), t)
    ensures AsTable(entries[..i]).Keys == Keys(entries[..i])
  {
    AsTableMeaning(entries[..i]);
    forall k | k in AsTable(entries[..i])
      ensures k in t && AsTable(entries[..i])[k] == t[k]
    {
      var j :| 0 <= j < i && entries[..i][j].0 == k;
      assert entries[j].0 in Keys(entries);
      assert AsTable(entries[..i])[entries[..i][j].0] == entries[..i][j].1;
    }
  }

  lemma {:induction false} WholeList(entries: seq<(EntryKey, seq<nat>)>, t: NodeTable)
    requires Lists(entries, t)
    ensures AsTable(entries) == t
  {
    assert entries[..|entries|] == entries;
    PrefixIsPart(entries, |entries|, t);
  }

  function Answer(t: NodeTable, table: P4Table, ip: string): NodeTable {
    map k | k in t && Requests(table, ip, k) :: t[k]
  }

  method ReadTable(t: NodeTable, table: P4Table, ip: string) returns (entries: seq<(EntryKey, seq<nat>)>)
    ensures Lists(entries, Answer(t, table, ip))
  {
    entries := [];
    var wanted := Answer(t, table, ip);
    var rest := wanted.Keys;
    while rest != {}
      invariant rest <= wanted.Keys && Keys(entries) == wanted.Keys - rest && Distinct(entries)
      invariant forall j :: 0 <= j < |entries| ==> entries[j].0 in wanted && entries[j].1 == wanted[entries[j].0]
    {
      var k :| k in rest;
      ghost var before := entries;
      entries := entries + [(k, wanted[k])];
      KeysNext(entries, |before|);
      assert entries[..|before|] == before && entries[..|before| + 1] == entries;
      assert forall j :: 0 <= j < |before| ==> before[j].0 in Keys(before);
      rest := rest - {k};
    }
  }

  lemma {:induction false} CollectedNext(tables: seq<P4Table>, i: nat, t: NodeTable, ip: string)
    requires i < |tables| && UniqueIds(tables)
    ensures Collected(tables[..i + 1], t, ip) == Collected(tables[..i], t, ip) + Answer(t, tables[i], ip)
    ensures Collected(tables[..i], t, ip).Keys !! Answer(t, tables[i], ip).Keys
  {
    var next := tables[..i + 1];
    forall k | k in t
      ensures Requested(next, ip, k) <==> Requested(tables[..i], ip, k) || Requests(tables[i], ip, k)
      ensures !(Requested(tables[..i], ip, k) && Requests(tables[i], ip, k))
    {
      if Requests(tables[i], ip, k) {
        assert Requests(next[i], ip, k);
      }
      if j :| 0 <= j < i && Requests(tables[..i][j], ip, k) {
        assert Requests(next[j], ip, k) && tables[j].id != tables[i].id;
      }
    }
  }

  lemma {:induction false} ListsAppend(
    a: seq<(EntryKey, seq<nat>)>, s: NodeTable, b: seq<(EntryKey, seq<nat>)>, t: NodeTable)
    requires Lists(a, s) && Lists(b, t) && s.Keys !! t.Keys
    ensures Lists(a + b, s + t)
  {
    var all := a + b;
    forall i | 0 <= i < |all|
      ensures if i < |a| then all[i].0 in s else all[i].0 in t
    {
      if i < |a| {
        assert a[i].0 in Keys(a);
      } else {
        assert b[i - |a|].0 in Keys(b);
      }
    }
    forall k | k in Keys(a) + Keys(b)
      ensures k in Keys(all)
    {
      if k in Keys(a) {
        var i :| 0 <= i < |a| && a[i].0 == k;
        assert all[i].0 == k;
      } else {
        var i :| 0 <= i < |b| && b[i].0 == k;
        assert all[|a| + i].0 == k;
      }
    }
  }
}
