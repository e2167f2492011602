/** The batched eager loading of backend/ent/account_query.go: one query per edge, maps from
    keys to nodes, and assignment through those maps. */
module EagerLoad {
  import opened Text

  /** The neighbours are values here: nothing in this file changes them. */
  datatype Group = Group(id: int, name: string)
  datatype Proxy = Proxy(id: int, name: string)
  datatype UsageLog = UsageLog(id: int, accountID: int)

  /** One row of the groups query: the account's key from the join table, then the group. */
  datatype JoinRow = JoinRow(accountID: int, group: Group)

  class Account {
    const id: int
    const proxyID: Option<int>
    const parentAccountID: Option<int>
    var groups: seq<Group>
    var proxy: Option<Proxy>
    var parent: Option<Account>
    var children: seq<Account>
    var usageLogs: seq<UsageLog>

    constructor (id: int, proxyID: Option<int>, parentAccountID: Option<int>)
      ensures this.id == id && this.proxyID == proxyID && this.parentAccountID == parentAccountID
      ensures groups == [] && proxy == None && parent == None && children == [] && usageLogs == []
    {
      this.id, this.proxyID, this.parentAccountID := id, proxyID, parentAccountID;
      groups, proxy, parent, children, usageLogs := [], None, None, [], [];
    }
  }

  // ---------------------------------------------------------------- nodes by key

  ghost predicate DistinctIDs(nodes: seq<Account>) {
    forall i, j :: 0 <= i < j < |nodes| ==> nodes[i].id != nodes[j].id
  }

  /** Filling a map by ID in order: the last node with an ID holds it. */
  function Holders(nodes: seq<Account>): map<int, Account> {
    if nodes == [] then map[]
    else
      var last := nodes[|nodes| - 1];
      Holders(nodes[..|nodes| - 1])[last.id := last]
  }

  lemma {:induction false} HoldersOf(nodes: seq<Account>)
    ensures forall x :: x in Holders(nodes) ==> Holders(nodes)[x] in nodes && Holders(nodes)[x].id == x
    ensures forall a :: a in nodes ==> a.id in Holders(nodes)
  {
    if nodes != [] {
      HoldersOf(nodes[..|nodes| - 1]);
      assert nodes == nodes[..|nodes| - 1] + [nodes[|nodes| - 1]];
    }
  }

  lemma HolderOf(nodes: seq<Account>, x: int)
    requires x in Holders(nodes)
    ensures Holders(nodes)[x] in nodes && Holders(nodes)[x].id == x
  {
    HoldersOf(nodes);
  }

  ghost predicate Holds(nodes: seq<Account>, a: Account) {
    a.id in Holders(nodes) && Holders(nodes)[a.id] == a
  }

  /** With distinct IDs every node holds its own. */
  lemma {:induction false} DistinctHold(nodes: seq<Account>, a: Account)
    requires DistinctIDs(nodes) && a in nodes
    ensures Holds(nodes, a)
  {
    var last := nodes[|nodes| - 1];
    if a != last {
      assert a in nodes[..|nodes| - 1];
      DistinctHold(nodes[..|nodes| - 1], a);
      var i :| 0 <= i < |nodes| - 1 && nodes[i] == a;
      assert nodes[i].id != nodes[|nodes| - 1].id;
    }
  }

  /** The keys sent with a query: every node's ID, repeated ones too. */
  function IDs(nodes: seq<Account>): seq<int> {
    seq(|nodes|, i requires 0 <= i < |nodes| => nodes[i].id)
  }

  // ---------------------------------------------------------------- a database of fixed tables

  /** The rows of a table whose key is among `ids`, in table order. */
  function Chosen<T>(table: seq<T>, key: T -> Option<int>, ids: seq<int>): seq<T> {
    if table == [] then []
    else
      var before, last := table[..|table| - 1], table[|table| - 1];
      Chosen(before, key, ids) + if key(last).Some? && key(last).value in ids then [last] else []
  }

  /** The query answers from this table. */
  ghost predicate FromTable<T>(query: seq<int> -> seq<T>, table: seq<T>, key: T -> Option<int>) {
    forall ids :: query(ids) == Chosen(table, key, ids)
  }

  lemma {:induction false} ChosenIn<T>(table: seq<T>, key: T -> Option<int>, ids: seq<int>)
    ensures var c := Chosen(table, key, ids);
            && (forall i :: 0 <= i < |c| ==> c[i] in table && key(c[i]).Some? && key(c[i]).value in ids)
            && (forall r :: r in table && key(r).Some? && key(r).value in ids ==> r in c)
  {
    if table != [] {
      ChosenIn(table[..|table| - 1], key, ids);
      assert table == table[..|table| - 1] + [table[|table| - 1]];
    }
  }

  lemma IDsExact(nodes: seq<Account>)
    ensures forall x :: x in IDs(nodes) <==> exists a :: a in nodes && a.id == x
  {
    forall a | a in nodes
      ensures a.id in IDs(nodes)
    {
      var i :| 0 <= i < |nodes| && nodes[i] == a;
      assert IDs(nodes)[i] == a.id;
    }
  }

  // ---------------------------------------------------------------- many to many

  predicate Joined(rows: seq<JoinRow>, account: int, group: int) {
    exists r | r in rows :: r.accountID == account && r.group.id == group
  }

  predicate Seen(rows: seq<JoinRow>, group: int) {
    exists r | r in rows :: r.group.id == group
  }

  /** The groups of the rows, each once, where its ID first appears. */
  function FirstSeen(rows: seq<JoinRow>): seq<Group> {
    if rows == [] then []
    else
      var before, last := rows[..|rows| - 1], rows[|rows| - 1];
      FirstSeen(before) + if Seen(before, last.group.id) then [] else [last.group]
  }

  /** The neighbours joined to one account, in their order. */
  function JoinedTo(ns: seq<Group>, rows: seq<JoinRow>, account: int): seq<Group> {
    if ns == [] then []
    else
      var before, last := ns[..|ns| - 1], ns[|ns| - 1];
      JoinedTo(before, rows, account) + if Joined(rows, account, last.id) then [last] else []
  }

  /** How many neighbours are taken before one with an unknown ID stops the loading. */
  function KnownGroups(ns: seq<Group>, rows: seq<JoinRow>): (k: nat)
    ensures k <= |ns|
    ensures k < |ns| ==> !Seen(rows, ns[k].id)
    ensures forall j :: 0 <= j < k ==> Seen(rows, ns[j].id)
  {
    if ns == [] || !Seen(rows, ns[0].id) then 0 else 1 + KnownGroups(ns[1..], rows)
  }

  /** The accounts that group `g` is assigned to. */
  ghost predicate Linked(nodes: seq<Account>, rows: seq<JoinRow>, a: Account, g: int) {
    a in nodes && Holds(nodes, a) && Joined(rows, a.id, g)
  }

  /** What an account ends with when the neighbours `ns` are assigned. */
  ghost function GroupsOf(nodes: seq<Account>, rows: seq<JoinRow>, ns: seq<Group>, a: Account): seq<Group> {
    if Holds(nodes, a) then JoinedTo(ns, rows, a.id) else []
  }

  lemma GroupsOfSnoc(nodes: seq<Account>, rows: seq<JoinRow>, ns: seq<Group>, i: nat, a: Account)
    requires i < |ns| && a in nodes
    ensures GroupsOf(nodes, rows, ns[..i + 1], a)
         == GroupsOf(nodes, rows, ns[..i], a) + if Linked(nodes, rows, a, ns[i].id) then [ns[i]] else []
  {
    assert ns[..i + 1][..i] == ns[..i];
    NothingAdded(GroupsOf(nodes, rows, ns[..i], a));
  }

  /** Row by row: the accounts linked to each group seen, and the groups in first-seen order. */
  method ScanRows(nodes: seq<Account>, byID: map<int, Account>, rows: seq<JoinRow>)
    returns (nids: map<int, set<Account>>, found: seq<Group>)
    requires byID == Holders(nodes)
    requires forall r :: r in rows ==> r.accountID in byID
    ensures forall g :: g in nids <==> Seen(rows, g)
    ensures forall g, a :: g in nids ==> (a in nids[g] <==> Linked(nodes, rows, a, g))
    ensures found == FirstSeen(rows)
  {
    nids, found := map[], [];
    var i := 0;
    while i < |rows|
      invariant 0 <= i <= |rows|
      invariant forall g :: g in nids <==> Seen(rows[..i], g)
      invariant forall g, a :: g in nids ==> (a in nids[g] <==> Linked(nodes, rows[..i], a, g))
      invariant found == FirstSeen(rows[..i])
    {
      ghost var before := nids;
      var account, g := byID[rows[i].accountID], rows[i].group.id;
      assert rows[i] in rows;
      assert rows[..i + 1] == rows[..i] + [rows[i]];
      ScanStep(nodes, rows[..i], rows[i]);
      if g !in nids {
        nids := nids[g := {account}];
        found := found + [rows[i].group];
      } else {
        nids := nids[g := nids[g] + {account}];
      }
      i := i + 1;
    }
    assert rows[..i] == rows;
  }

  lemma ScanStep(nodes: seq<Account>, rows: seq<JoinRow>, r: JoinRow)
    requires r.accountID in Holders(nodes)
    ensures forall g :: Seen(rows + [r], g) <==> Seen(rows, g) || g == r.group.id
    ensures forall a, g ::
              Linked(nodes, rows + [r], a, g) <==>
              Linked(nodes, rows, a, g) || (g == r.group.id && a == Holders(nodes)[r.accountID])
    ensures forall a, g :: !Seen(rows, g) ==> !Linked(nodes, rows, a, g)
    ensures FirstSeen(rows + [r]) == FirstSeen(rows) + if Seen(rows, r.group.id) then [] else [r.group]
  {
    HoldersOf(nodes);
    var all := rows + [r];
    assert all[..|all| - 1] == rows;
    forall x, g
      ensures Joined(all, x, g) <==> Joined(rows, x, g) || (x == r.accountID && g == r.group.id)
    {
      assert r in all;
    }
    assert r in all;
  }

  /** With distinct IDs and answers from a fixed link table, every account ends with exactly the
      groups the table links it to, each once. */
  method LoadGroups(nodes: seq<Account>, query: seq<int> -> seq<JoinRow>, intercept: seq<Group> -> seq<Group>)
    returns (unexpected: Option<int>)
    requires forall r :: r in query(IDs(nodes)) ==> exists a :: a in nodes && a.id == r.accountID
    modifies nodes`groups
    ensures var rows := query(IDs(nodes));
            var ns := intercept(FirstSeen(rows));
            var k := KnownGroups(ns, rows);
            && unexpected == (if k < |ns| then Some(ns[k].id) else None)
            && forall a :: a in nodes ==> a.groups == GroupsOf(nodes, rows, ns[..k], a)
    ensures forall links ::
              FromTable(query, links, LinkKey) && DistinctIDs(nodes) && (forall ns :: intercept(ns) == ns) ==>
              unexpected.None? && forall a :: a in nodes ==> HoldsLinked(a.groups, links, a.id)
  {
    var ids, byID := IndexNodes(nodes);
    assert ids == IDs(nodes);
    HoldersOf(nodes);
    var rows := query(ids);
    var nids, found := ScanRows(nodes, byID, rows);
    unexpected := AssignGroups(nodes, rows, nids, intercept(found));
    TableLinks(nodes, query);
    hide FirstSeen, GroupsOf, HoldsLinked, KnownGroups, FromTable;
    assert found[..|found|] == found;
  }

  method IndexNodes(nodes: seq<Account>) returns (ids: seq<int>, byID: map<int, Account>)
    modifies nodes`groups
    ensures |ids| == |nodes| && forall i :: 0 <= i < |nodes| ==> ids[i] == nodes[i].id
    ensures byID == Holders(nodes)
    ensures forall a :: a in nodes ==> a.groups == []
  {
    ids, byID := [], map[];
    var i := 0;
    while i < |nodes|
      invariant 0 <= i <= |nodes|
      invariant |ids| == i && forall j :: 0 <= j < i ==> ids[j] == nodes[j].id
      invariant byID == Holders(nodes[..i])
      invariant forall j :: 0 <= j < i ==> nodes[j].groups == []
    {
      assert nodes[..i + 1][..i] == nodes[..i];
      ids := ids + [nodes[i].id];
      byID := byID[nodes[i].id := nodes[i]];
      nodes[i].groups := [];
      i := i + 1;
    }
    assert nodes[..i] == nodes;
  }

  method AssignGroups(ghost nodes: seq<Account>, ghost rows: seq<JoinRow>, nids: map<int, set<Account>>, ns: seq<Group>)
    returns (unexpected: Option<int>)
    requires forall g :: g in nids <==> Seen(rows, g)
    requires forall g, a :: g in nids ==> (a in nids[g] <==> Linked(nodes, rows, a, g))
    requires forall g, a :: g in nids && a in nids[g] ==> a in nodes
    requires forall a :: a in nodes ==> a.groups == []
    modifies nodes`groups
    ensures var k := KnownGroups(ns, rows);
            && unexpected == (if k < |ns| then Some(ns[k].id) else None)
            && forall a :: a in nodes ==> a.groups == GroupsOf(nodes, rows, ns[..k], a)
  {
    assert forall a :: GroupsOf(nodes, rows, ns[..0], a) == [];
    hide Seen, Joined, Holds, JoinedTo, GroupsOf, Linked;
    var i := 0;
    while i < |ns|
      invariant 0 <= i <= KnownGroups(ns, rows)
      invariant forall a :: a in nodes ==> a.groups == GroupsOf(nodes, rows, ns[..i], a)
    {
      var n := ns[i];
      if n.id !in nids {
        return Some(n.id);
      }
      AssignGroup(nodes, nids[n.id], n);
      forall a | a in nodes
        ensures a.groups == GroupsOf(nodes, rows, ns[..i + 1], a)
      {
        GroupsOfSnoc(nodes, rows, ns, i, a);
      }
      i := i + 1;
    }
    return None;
  }

  /** Appends `n` to every account of the set, which Go walks in any order. */
  method AssignGroup(ghost nodes: seq<Account>, accounts: set<Account>, n: Group)
    requires forall a :: a in accounts ==> a in nodes
    modifies nodes`groups
    ensures forall a :: a in nodes ==> a.groups == old(a.groups) + if a in accounts then [n] else []
  {
    var todo := accounts;
    while todo != {}
      invariant todo <= accounts
      invariant forall a :: a in nodes ==>
        a.groups == old(a.groups) + if a in accounts && a !in todo then [n] else []
    {
      var kn :| kn in todo;
      kn.groups := kn.groups + [n];
      todo := todo - {kn};
    }
  }

  /** The row where a group first appears. */
  function FirstRow(rows: seq<JoinRow>, group: int): (i: nat)
    ensures i <= |rows|
    ensures i < |rows| ==> rows[i].group.id == group
    ensures forall j :: 0 <= j < i ==> rows[j].group.id != group
  {
    if rows == [] || rows[0].group.id == group then 0 else 1 + FirstRow(rows[1..], group)
  }

  /** In first-seen order, and so without repetition. */
  ghost predicate InRowOrder(ns: seq<Group>, rows: seq<JoinRow>) {
    forall i, j :: 0 <= i < j < |ns| ==> FirstRow(rows, ns[i].id) < FirstRow(rows, ns[j].id)
  }

  /** `n` is the group of the row where its ID first appears. */
  ghost predicate FromRow(n: Group, rows: seq<JoinRow>) {
    var i := FirstRow(rows, n.id);
    i < |rows| && n == rows[i].group
  }

  lemma {:induction false} FirstRowSnoc(rows: seq<JoinRow>, r: JoinRow, g: int)
    ensures FirstRow(rows + [r], g) ==
      if FirstRow(rows, g) < |rows| then FirstRow(rows, g)
      else if r.group.id == g then |rows| else |rows| + 1
  {
    if rows == [] {
      assert [] + [r] == [r] && [r][1..] == [];
    } else {
      assert (rows + [r])[1..] == rows[1..] + [r];
      FirstRowSnoc(rows[1..], r, g);
    }
  }

  lemma SeenRow(rows: seq<JoinRow>, g: int)
    ensures Seen(rows, g) <==> FirstRow(rows, g) < |rows|
  {
    if Seen(rows, g) {
      var r :| r in rows && r.group.id == g;
      var j :| 0 <= j < |rows| && rows[j] == r;
    }
  }

  lemma FirstSeenSnoc(rows: seq<JoinRow>, r: JoinRow)
    ensures FirstSeen(rows + [r]) == FirstSeen(rows) + if Seen(rows, r.group.id) then [] else [r.group]
  {
    assert (rows + [r])[..|rows|] == rows;
  }

  lemma {:induction false} FirstSeenFrom(rows: seq<JoinRow>)
    ensures forall n :: n in FirstSeen(rows) ==> FromRow(n, rows)
  {
    hide FirstRow, Seen, FirstSeen;
    if rows == [] {
      FirstSeenNone();
    } else {
      var before, last := rows[..|rows| - 1], rows[|rows| - 1];
      assert rows == before + [last];
      FirstSeenFrom(before);
      FirstSeenSnoc(before, last);
      SeenRow(before, last.group.id);
      forall n | n in FirstSeen(rows)
        ensures FromRow(n, rows)
      {
        FirstRowSnoc(before, last, n.id);
      }
    }
  }

  lemma FirstSeenNone()
    ensures FirstSeen([]) == []
  {
  }

  lemma {:induction false} FirstSeenAll(rows: seq<JoinRow>, g: int)
    requires Seen(rows, g)
    ensures exists n :: n in FirstSeen(rows) && n.id == g
  {
    var before, last := rows[..|rows| - 1], rows[|rows| - 1];
    assert rows == before + [last];
    hide FirstSeen;
    FirstSeenSnoc(before, last);
    if Seen(before, g) {
      FirstSeenAll(before, g);
      var n :| n in FirstSeen(before) && n.id == g;
      assert n in FirstSeen(rows);
    } else {
      assert last.group in FirstSeen(rows);
    }
  }

  lemma {:induction false} FirstSeenOrdered(rows: seq<JoinRow>)
    ensures InRowOrder(FirstSeen(rows), rows)
  {
    hide FirstRow, Seen, FirstSeen;
    if rows == [] {
      FirstSeenNone();
    } else {
      var before, last := rows[..|rows| - 1], rows[|rows| - 1];
      assert rows == before + [last];
      FirstSeenOrdered(before);
      FirstSeenFrom(before);
      FirstSeenSnoc(before, last);
      SeenRow(before, last.group.id);
      var fs, all := FirstSeen(before), FirstSeen(rows);
      forall i, j | 0 <= i < j < |all|
        ensures FirstRow(rows, all[i].id) < FirstRow(rows, all[j].id)
      {
        assert all[i] == fs[i] && fs[i] in fs;
        FirstRowSnoc(before, last, all[i].id);
        FirstRowSnoc(before, last, all[j].id);
        assert j < |fs| ==> all[j] == fs[j] && fs[j] in fs;
      }
    }
  }

  lemma {:induction false} JoinedToExact(ns: seq<Group>, rows: seq<JoinRow>, account: int)
    requires InRowOrder(ns, rows)
    ensures InRowOrder(JoinedTo(ns, rows, account), rows)
    ensures forall n :: n in JoinedTo(ns, rows, account) <==> n in ns && Joined(rows, account, n.id)
  {
    hide Joined, FirstRow;
    if ns != [] {
      var before, last := ns[..|ns| - 1], ns[|ns| - 1];
      assert ns == before + [last];
      JoinedToExact(before, rows, account);
    }
  }

  /** Without an interceptor no group is unexpected. */
  lemma GroupsAreKnown(rows: seq<JoinRow>)
    ensures KnownGroups(FirstSeen(rows), rows) == |FirstSeen(rows)|
  {
    hide FirstRow, FirstSeen;
    var fs := FirstSeen(rows);
    FirstSeenFrom(rows);
    forall j | 0 <= j < |fs|
      ensures Seen(rows, fs[j].id)
    {
      assert fs[j] in fs;
      SeenRow(rows, fs[j].id);
    }
  }

  /** Batched loading is the nested-loop join: no error, and every account with an ID of its own
      holds exactly the groups some row joins it to, each once, in the order in which the rows
      first show them; and this whatever order the maps are walked in. */
  lemma GroupsAreTheJoin(nodes: seq<Account>, rows: seq<JoinRow>, a: Account)
    requires DistinctIDs(nodes) && a in nodes
    ensures KnownGroups(FirstSeen(rows), rows) == |FirstSeen(rows)|
    ensures var gs := GroupsOf(nodes, rows, FirstSeen(rows), a);
            && InRowOrder(gs, rows)
            && (forall n :: n in gs ==> FromRow(n, rows))
            && (forall g :: Joined(rows, a.id, g) <==> exists n :: n in gs && n.id == g)
  {
    hide FirstRow, FirstSeen, JoinedTo;
    var fs := FirstSeen(rows);
    FirstSeenOrdered(rows);
    FirstSeenFrom(rows);
    DistinctHold(nodes, a);
    JoinedToExact(fs, rows, a.id);
    GroupsAreKnown(rows);
    forall g | Joined(rows, a.id, g)
      ensures exists n :: n in fs && n.id == g
    {
      FirstSeenAll(rows, g);
    }
  }

  function LinkKey(r: JoinRow): Option<int> { Some(r.accountID) }

  ghost predicate HasID(gs: seq<Group>, g: int) {
    exists n :: n in gs && n.id == g
  }

  ghost predicate InRow(n: Group, links: seq<JoinRow>) {
    exists r :: r in links && r.group == n
  }

  ghost predicate Links(links: seq<JoinRow>, account: int, g: int) {
    exists i :: 0 <= i < |links| && links[i].accountID == account && links[i].group.id == g
  }

  /** `gs` are the groups that `links` has for the account, each once, and as some row has it. */
  ghost predicate HoldsLinked(gs: seq<Group>, links: seq<JoinRow>, account: int) {
    && (forall g :: HasID(gs, g) <==> Links(links, account, g))
    && (forall i, j :: 0 <= i < j < |gs| ==> gs[i].id != gs[j].id)
    && (forall n :: n in gs ==> InRow(n, links))
  }

  lemma TableLinks(nodes: seq<Account>, query: seq<int> -> seq<JoinRow>)
    ensures var rows := query(IDs(nodes));
            KnownGroups(FirstSeen(rows), rows) == |FirstSeen(rows)|
    ensures forall links :: FromTable(query, links, LinkKey) && DistinctIDs(nodes) ==>
              var rows := query(IDs(nodes));
              forall a :: a in nodes ==> HoldsLinked(GroupsOf(nodes, rows, FirstSeen(rows), a), links, a.id)
  {
    hide FirstSeen, GroupsOf, KnownGroups;
    var rows := query(IDs(nodes));
    GroupsAreKnown(rows);
    forall links, a | FromTable(query, links, LinkKey) && DistinctIDs(nodes) && a in nodes
      ensures HoldsLinked(GroupsOf(nodes, rows, FirstSeen(rows), a), links, a.id)
    {
      ChosenIn(links, LinkKey, IDs(nodes));
      IDsExact(nodes);
      JoinHoldsLinked(nodes, rows, links, a);
    }
  }

  lemma JoinHoldsLinked(nodes: seq<Account>, rows: seq<JoinRow>, links: seq<JoinRow>, a: Account)
    requires DistinctIDs(nodes) && a in nodes
    requires forall r :: r in rows <==> r in links && exists b :: b in nodes && b.id == r.accountID
    ensures HoldsLinked(GroupsOf(nodes, rows, FirstSeen(rows), a), links, a.id)
  {
    hide FirstSeen, GroupsOf, FirstRow;
    GroupsAreTheJoin(nodes, rows, a);
    var gs := GroupsOf(nodes, rows, FirstSeen(rows), a);
    forall g
      ensures HasID(gs, g) <==> Links(links, a.id, g)
    {
      assert Joined(rows, a.id, g) <==> Joined(links, a.id, g);
    }
    forall n | n in gs
      ensures InRow(n, links)
    {
      assert FromRow(n, rows);
    }
  }
}
