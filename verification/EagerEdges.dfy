/** The foreign-key edges of backend/ent/account_query.go, and the order in which `sqlAll`
    loads all edges. */
module EagerEdges {
  import opened Text
  import opened EagerLoad

  // ---------------------------------------------------------------- keys

  function ProxyKey(a: Account): Option<int> { a.proxyID }
  function ParentKey(a: Account): Option<int> { a.parentAccountID }
  function ProxyID(p: Proxy): int { p.id }
  function AccountID(a: Account): int { a.id }
  function LogKey(l: UsageLog): Option<int> { Some(l.accountID) }

  /** The elements with key `x`, in order. */
  function Matching<T>(ns: seq<T>, key: T -> Option<int>, x: int): seq<T> {
    if ns == [] then []
    else
      var last := ns[|ns| - 1];
      Matching(ns[..|ns| - 1], key, x) + if key(last) == Some(x) then [last] else []
  }

  lemma MatchingSnoc<T>(ns: seq<T>, i: nat, key: T -> Option<int>, x: int)
    requires i < |ns|
    ensures Matching(ns[..i + 1], key, x) == Matching(ns[..i], key, x) + if key(ns[i]) == Some(x) then [ns[i]] else []
  {
    assert ns[..i + 1][..i] == ns[..i];
  }

  lemma {:induction false} MatchingIn<T>(ns: seq<T>, key: T -> Option<int>, x: int)
    ensures forall n :: n in Matching(ns, key, x) <==> n in ns && key(n) == Some(x)
  {
    if ns != [] {
      MatchingIn(ns[..|ns| - 1], key, x);
      assert ns == ns[..|ns| - 1] + [ns[|ns| - 1]];
    }
  }

  /** The matching elements are those at all positions with the key, in increasing order. */
  lemma {:induction false} MatchingInOrder<T>(ns: seq<T>, key: T -> Option<int>, x: int) returns (at: seq<nat>)
    ensures forall i, j :: 0 <= i < j < |at| ==> at[i] < at[j]
    ensures forall p: nat :: p in at <==> p < |ns| && key(ns[p]) == Some(x)
    ensures |Matching(ns, key, x)| == |at|
    ensures forall i :: 0 <= i < |at| ==> at[i] < |ns| && Matching(ns, key, x)[i] == ns[at[i]]
  {
    at := [];
    if ns != [] {
      var n := |ns| - 1;
      at := MatchingInOrder(ns[..n], key, x);
      forall i | 0 <= i < |at|
        ensures at[i] < n
      {
        assert at[i] in at;
      }
      if key(ns[n]) == Some(x) { at := at + [n]; }
    }
  }

  /** The keys of the nodes, each once, in first-seen order. */
  function Keys(nodes: seq<Account>, key: Account -> Option<int>): seq<int> {
    if nodes == [] then []
    else
      var before, last := Keys(nodes[..|nodes| - 1], key), key(nodes[|nodes| - 1]);
      if last.Some? && last.value !in before then before + [last.value] else before
  }

  /** The list sent with the query has no duplicates and is the set of the non-nil keys. */
  lemma {:induction false} KeysExact(nodes: seq<Account>, key: Account -> Option<int>)
    ensures forall x :: x in Keys(nodes, key) <==> exists a :: a in nodes && key(a) == Some(x)
    ensures forall i, j :: 0 <= i < j < |Keys(nodes, key)| ==> Keys(nodes, key)[i] != Keys(nodes, key)[j]
  {
    if nodes != [] {
      var before, last := nodes[..|nodes| - 1], nodes[|nodes| - 1];
      KeysExact(before, key);
      assert nodes == before + [last];
    }
  }

  // ---------------------------------------------------------------- many to one

  /** The keys of `nodes`, and under each its nodes. */
  ghost predicate Collected(nodes: seq<Account>, key: Account -> Option<int>,
                            ids: seq<int>, nodeids: map<int, seq<Account>>)
  {
    && ids == Keys(nodes, key)
    && (forall x :: x in nodeids <==> x in ids)
    && (forall x :: x in nodeids ==> nodeids[x] == Matching(nodes, key, x))
  }

  method CollectKeys(nodes: seq<Account>, key: Account -> Option<int>)
    returns (ids: seq<int>, nodeids: map<int, seq<Account>>)
    ensures Collected(nodes, key, ids, nodeids)
  {
    ids, nodeids := [], map[];
    var i := 0;
    while i < |nodes|
      invariant 0 <= i <= |nodes|
      invariant Collected(nodes[..i], key, ids, nodeids)
    {
      CollectStep(nodes, i, key, ids, nodeids);
      hide Collected;
      var fk := key(nodes[i]);
      if fk.Some? {
        if fk.value !in nodeids {
          ids := ids + [fk.value];
        }
        nodeids := nodeids[fk.value := (if fk.value in nodeids then nodeids[fk.value] else []) + [nodes[i]]];
      }
      i := i + 1;
    }
    assert nodes[..i] == nodes;
  }

  lemma CollectStep(nodes: seq<Account>, i: nat, key: Account -> Option<int>,
                    ids: seq<int>, nodeids: map<int, seq<Account>>)
    requires i < |nodes| && Collected(nodes[..i], key, ids, nodeids)
    ensures var fk := key(nodes[i]);
            if fk.None? then Collected(nodes[..i + 1], key, ids, nodeids)
            else Collected(nodes[..i + 1], key, if fk.value !in nodeids then ids + [fk.value] else ids,
              nodeids[fk.value := (if fk.value in nodeids then nodeids[fk.value] else []) + [nodes[i]]])
  {
    var fk := key(nodes[i]);
    KeysSnoc(nodes, i, key);
    forall x
      ensures Matching(nodes[..i + 1], key, x)
           == if fk == Some(x) then Matching(nodes[..i], key, x) + [nodes[i]] else Matching(nodes[..i], key, x)
    {
      MatchingSnoc(nodes, i, key, x);
      NothingAdded(Matching(nodes[..i], key, x));
    }
    if fk.Some? && fk.value !in nodeids { NoneMatching(nodes[..i], key, fk.value); }
    hide Keys, Matching;
  }

  lemma {:induction false} NoneMatching(nodes: seq<Account>, key: Account -> Option<int>, x: int)
    requires x !in Keys(nodes, key)
    ensures Matching(nodes, key, x) == []
  {
    if nodes != [] { NoneMatching(nodes[..|nodes| - 1], key, x); }
  }

  lemma KeysSnoc(nodes: seq<Account>, i: nat, key: Account -> Option<int>)
    requires i < |nodes|
    ensures var ids, fk := Keys(nodes[..i], key), key(nodes[i]);
            Keys(nodes[..i + 1], key) == if fk.Some? && fk.value !in ids then ids + [fk.value] else ids
  {
    assert nodes[..i + 1][..i] == nodes[..i];
  }

  /** How many neighbours come before one whose ID was not asked for. */
  function Asked<T>(ns: seq<T>, id: T -> int, ids: seq<int>): (k: nat)
    ensures k <= |ns|
    ensures k < |ns| ==> id(ns[k]) !in ids
    ensures forall j :: 0 <= j < k ==> id(ns[j]) in ids
  {
    if ns == [] || id(ns[0]) !in ids then 0 else 1 + Asked(ns[1..], id, ids)
  }

  /** The last neighbour with ID `x`, or what was there before. */
  function LastWith<T>(ns: seq<T>, id: T -> int, x: int, otherwise: Option<T>): Option<T> {
    if ns == [] then otherwise
    else
      var last := ns[|ns| - 1];
      if id(last) == x then Some(last) else LastWith(ns[..|ns| - 1], id, x, otherwise)
  }

  /** The edge of a node with foreign key `fk` after the neighbours `ns` are assigned. */
  function EdgeAfter<T>(ns: seq<T>, id: T -> int, fk: Option<int>, before: Option<T>): Option<T> {
    if fk.None? then before else LastWith(ns, id, fk.value, before)
  }

  lemma EdgeSnoc<T>(ns: seq<T>, i: nat, id: T -> int, fk: Option<int>, before: Option<T>)
    requires i < |ns|
    ensures EdgeAfter(ns[..i + 1], id, fk, before)
         == if fk == Some(id(ns[i])) then Some(ns[i]) else EdgeAfter(ns[..i], id, fk, before)
  {
    assert ns[..i + 1][..i] == ns[..i];
  }

  /** The answer of the batched query; without keys it is not asked. */
  function Neighbors<T>(ids: seq<int>, query: seq<int> -> seq<T>): seq<T> {
    if ids == [] then [] else query(ids)
  }

  method LoadProxy(nodes: seq<Account>, query: seq<int> -> seq<Proxy>) returns (unexpected: Option<int>)
    modifies nodes`proxy
    ensures var ids := Keys(nodes, ProxyKey);
            var ns := Neighbors(ids, query);
            var k := Asked(ns, ProxyID, ids);
            && unexpected == (if k < |ns| then Some(ns[k].id) else None)
            && forall a :: a in nodes ==> a.proxy == EdgeAfter(ns[..k], ProxyID, a.proxyID, old(a.proxy))
  {
    var ids, nodeids := CollectKeys(nodes, ProxyKey);
    var ns := Neighbors(ids, query);
    if ids == [] {
      return None;
    }
    var i := 0;
    hide EdgeAfter, Keys, Matching;
    while i < |ns|
      invariant 0 <= i <= Asked(ns, ProxyID, ids)
      invariant forall a :: a in nodes ==> a.proxy == EdgeAfter(ns[..i], ProxyID, a.proxyID, old(a.proxy))
    {
      var n := ns[i];
      if n.id !in nodeids {
        return Some(n.id);
      }
      MatchingIn(nodes, ProxyKey, n.id);
      AssignProxy(nodes, nodeids[n.id], n);
      forall a | a in nodes
        ensures a.proxy == EdgeAfter(ns[..i + 1], ProxyID, a.proxyID, old(a.proxy))
      {
        EdgeSnoc(ns, i, ProxyID, a.proxyID, old(a.proxy));
      }
      i := i + 1;
    }
    return None;
  }

  function RowKey<T>(id: T -> int): T -> Option<int> { n => Some(id(n)) }

  ghost predicate DistinctRows<T>(table: seq<T>, id: T -> int) {
    forall i, j :: 0 <= i < j < |table| ==> id(table[i]) != id(table[j])
  }

  lemma {:induction false} ChosenAnswers<T>(table: seq<T>, id: T -> int, ids: seq<int>)
    requires DistinctRows(table, id)
    ensures var c := Chosen(table, RowKey(id), ids);
            && (forall i :: 0 <= i < |c| ==> c[i] in table && id(c[i]) in ids)
            && DistinctRows(c, id)
            && (forall i :: 0 <= i < |table| && id(table[i]) in ids ==> table[i] in c)
  {
    if table != [] {
      var before, last := table[..|table| - 1], table[|table| - 1];
      ChosenAnswers(before, id, ids);
      var c := Chosen(before, RowKey(id), ids);
      assert RowKey(id)(last) == Some(id(last));
      assert table == before + [last];
      forall i | 0 <= i < |c|
        ensures id(c[i]) != id(last)
      {
        LastDiffers(table, id, c[i]);
      }
      hide DistinctRows;
      DistinctSnoc(c, last, id);
    }
  }

  lemma LastDiffers<T>(table: seq<T>, id: T -> int, r: T)
    requires table != [] && DistinctRows(table, id) && r in table[..|table| - 1]
    ensures id(r) != id(table[|table| - 1])
  {
    var j :| 0 <= j < |table| - 1 && table[j] == r;
  }

  lemma DistinctSnoc<T>(c: seq<T>, last: T, id: T -> int)
    requires DistinctRows(c, id) && forall i :: 0 <= i < |c| ==> id(c[i]) != id(last)
    ensures DistinctRows(c + [last], id) && DistinctRows(c + [], id)
  {
  }

  /** A query for the rows of a fixed table that the nodes refer to never fails, and finds all. */
  lemma TableNeighbors<T>(nodes: seq<Account>, key: Account -> Option<int>, query: seq<int> -> seq<T>,
                          id: T -> int)
    ensures var ids := Keys(nodes, key);
            var ns := Neighbors(ids, query);
            var k := Asked(ns, id, ids);
            forall table :: FromTable(query, table, RowKey(id)) && DistinctRows(table, id) ==>
              && k == |ns| && ns[..k] == ns
              && forall a, n :: a in nodes ==>
                   (EdgeAfter(ns, id, key(a), None) == Some(n) <==> n in table && key(a) == Some(id(n)))
  {
    hide Asked, EdgeAfter;
    var ids := Keys(nodes, key);
    var ns := Neighbors(ids, query);
    KeysHeld(nodes, key);
    hide Keys;
    forall table | FromTable(query, table, RowKey(id)) && DistinctRows(table, id)
      ensures Asked(ns, id, ids) == |ns|
      ensures forall a, n :: a in nodes ==>
                (EdgeAfter(ns, id, key(a), None) == Some(n) <==> n in table && key(a) == Some(id(n)))
    {
      var c := Chosen(table, RowKey(id), ids);
      assert query(ids) == c;
      ChosenAnswers(table, id, ids);
      assert ids != [] ==> ns == c;
      assert Answers(ns, id, ids);
      forall a, n | a in nodes
        ensures EdgeAfter(ns, id, key(a), None) == Some(n) <==> n in table && key(a) == Some(id(n))
      {
        TableNeighbor(table, ns, id, ids, key(a), n);
      }
      hide Answers, DistinctRows, FromTable;
      ManyToOneExact(ns, id, ids, None);
    }
  }

  lemma KeysHeld(nodes: seq<Account>, key: Account -> Option<int>)
    ensures forall a :: a in nodes && key(a).Some? ==> key(a).value in Keys(nodes, key)
  {
    KeysExact(nodes, key);
    forall a | a in nodes && key(a).Some?
      ensures key(a).value in Keys(nodes, key)
    {
      var x := key(a).value;
      assert key(a) == Some(x);
    }
  }

  lemma TableNeighbor<T>(table: seq<T>, ns: seq<T>, id: T -> int, ids: seq<int>, fk: Option<int>, n: T)
    requires Answers(ns, id, ids) && (fk.Some? ==> fk.value in ids)
    requires forall i :: 0 <= i < |ns| ==> ns[i] in table
    requires forall i :: 0 <= i < |table| && id(table[i]) in ids ==> table[i] in ns
    ensures EdgeAfter(ns, id, fk, None) == Some(n) <==> n in table && fk == Some(id(n))
  {
    hide EdgeAfter, Asked;
    ManyToOneExact(ns, id, ids, fk);
    assert ns[..|ns|] == ns;
    hide Answers;
  }

  method AssignProxy(ghost nodes: seq<Account>, list: seq<Account>, n: Proxy)
    requires forall a :: a in list ==> a in nodes
    modifies nodes`proxy
    ensures forall a :: a in nodes ==> a.proxy == if a in list then Some(n) else old(a.proxy)
  {
    var i := 0;
    while i < |list|
      invariant 0 <= i <= |list|
      invariant forall a :: a in nodes ==> a.proxy == if a in list[..i] then Some(n) else old(a.proxy)
    {
      assert list[i] in list;
      list[i].proxy := Some(n);
      i := i + 1;
    }
    assert list[..i] == list;
  }

  method LoadParent(nodes: seq<Account>, query: seq<int> -> seq<Account>) returns (unexpected: Option<int>)
    modifies nodes`parent
    ensures var ids := Keys(nodes, ParentKey);
            var ns := Neighbors(ids, query);
            var k := Asked(ns, AccountID, ids);
            && unexpected == (if k < |ns| then Some(ns[k].id) else None)
            && forall a :: a in nodes ==> a.parent == EdgeAfter(ns[..k], AccountID, a.parentAccountID, old(a.parent))
  {
    var ids, nodeids := CollectKeys(nodes, ParentKey);
    var ns := Neighbors(ids, query);
    if ids == [] {
      return None;
    }
    var i := 0;
    hide EdgeAfter, Keys, Matching;
    while i < |ns|
      invariant 0 <= i <= Asked(ns, AccountID, ids)
      invariant forall a :: a in nodes ==> a.parent == EdgeAfter(ns[..i], AccountID, a.parentAccountID, old(a.parent))
    {
      var n := ns[i];
      if n.id !in nodeids {
        return Some(n.id);
      }
      MatchingIn(nodes, ParentKey, n.id);
      AssignParent(nodes, nodeids[n.id], n);
      forall a | a in nodes
        ensures a.parent == EdgeAfter(ns[..i + 1], AccountID, a.parentAccountID, old(a.parent))
      {
        EdgeSnoc(ns, i, AccountID, a.parentAccountID, old(a.parent));
      }
      i := i + 1;
    }
    return None;
  }

  method AssignParent(ghost nodes: seq<Account>, list: seq<Account>, n: Account)
    requires forall a :: a in list ==> a in nodes
    modifies nodes`parent
    ensures forall a :: a in nodes ==> a.parent == if a in list then Some(n) else old(a.parent)
  {
    var i := 0;
    while i < |list|
      invariant 0 <= i <= |list|
      invariant forall a :: a in nodes ==> a.parent == if a in list[..i] then Some(n) else old(a.parent)
    {
      assert list[i] in list;
      list[i].parent := Some(n);
      i := i + 1;
    }
    assert list[..i] == list;
  }

  /** An answer that keeps the query's contract: only rows asked for, one for each ID. */
  ghost predicate Answers<T>(ns: seq<T>, id: T -> int, ids: seq<int>) {
    && (forall n :: n in ns ==> id(n) in ids)
    && (forall i, j :: 0 <= i < j < |ns| ==> id(ns[i]) != id(ns[j]))
  }

  /** Of several neighbours with the ID the last one is held. */
  lemma {:induction false} LastWithLast<T>(ns: seq<T>, i: nat, id: T -> int, otherwise: Option<T>)
    requires i < |ns| && forall j :: i < j < |ns| ==> id(ns[j]) != id(ns[i])
    ensures LastWith(ns, id, id(ns[i]), otherwise) == Some(ns[i])
  {
    if i < |ns| - 1 { LastWithLast(ns[..|ns| - 1], i, id, otherwise); }
  }

  lemma {:induction false} LastWithExact<T>(ns: seq<T>, id: T -> int, x: int)
    requires forall i, j :: 0 <= i < j < |ns| ==> id(ns[i]) != id(ns[j])
    ensures forall n :: LastWith(ns, id, x, None) == Some(n) <==> n in ns && id(n) == x
  {
    if ns != [] {
      var before, last := ns[..|ns| - 1], ns[|ns| - 1];
      LastWithExact(before, id, x);
      assert ns == before + [last];
      forall n | n in before && id(last) == x
        ensures id(n) != x
      {
        var i :| 0 <= i < |before| && before[i] == n;
        assert ns[i] == n;
      }
    }
  }

  /** A many-to-one edge: an error exactly when some row was not asked for; and when the answer
      keeps its contract, every node, sharing its key or not, holds exactly the neighbour with
      its key, or none. */
  lemma ManyToOneExact<T>(ns: seq<T>, id: T -> int, ids: seq<int>, fk: Option<int>)
    ensures Asked(ns, id, ids) == |ns| <==> forall n :: n in ns ==> id(n) in ids
    ensures Answers(ns, id, ids) ==>
              var e := EdgeAfter(ns[..Asked(ns, id, ids)], id, fk, None);
              forall n :: e == Some(n) <==> fk.Some? && n in ns && id(n) == fk.value
  {
    var k := Asked(ns, id, ids);
    if k < |ns| {
      assert ns[k] in ns;
    } else {
      assert ns[..k] == ns;
      if Answers(ns, id, ids) && fk.Some? { LastWithExact(ns, id, fk.value); }
    }
  }

  // ---------------------------------------------------------------- one to many

  datatype LoadError = NoKey(node: int) | UnknownKey(key: int, node: int)

  /** How many neighbours come before one without a key, or with a key no node has. */
  function Referenced<T>(ns: seq<T>, key: T -> Option<int>, nodes: seq<Account>): (k: nat)
    ensures k <= |ns|
    ensures k < |ns| ==> key(ns[k]).None? || key(ns[k]).value !in Holders(nodes)
    ensures forall j :: 0 <= j < k ==> key(ns[j]).Some? && key(ns[j]).value in Holders(nodes)
  {
    if ns == [] || key(ns[0]).None? || key(ns[0]).value !in Holders(nodes) then 0
    else 1 + Referenced(ns[1..], key, nodes)
  }

  /** What a parent ends with when the neighbours `ns` are assigned. */
  ghost function ChildrenOf<T>(nodes: seq<Account>, ns: seq<T>, key: T -> Option<int>, a: Account): seq<T> {
    if Holds(nodes, a) then Matching(ns, key, a.id) else []
  }

  lemma NoChildren<T>(nodes: seq<Account>, key: T -> Option<int>)
    ensures forall a :: ChildrenOf(nodes, [], key, a) == []
  {
  }

  lemma ChildrenSnoc<T>(nodes: seq<Account>, ns: seq<T>, i: nat, key: T -> Option<int>, a: Account)
    requires i < |ns| && key(ns[i]).Some? && key(ns[i]).value in Holders(nodes)
    ensures ChildrenOf(nodes, ns[..i + 1], key, a)
         == if a == Holders(nodes)[key(ns[i]).value] then ChildrenOf(nodes, ns[..i], key, a) + [ns[i]]
            else ChildrenOf(nodes, ns[..i], key, a)
  {
    HoldersOf(nodes);
    MatchingSnoc(ns, i, key, a.id);
    NothingAdded(ChildrenOf(nodes, ns[..i], key, a));
  }

  /** With distinct IDs and answers from a fixed table, every node ends with exactly the rows of
      the table that refer to it, in table order. */
  method LoadChildren(nodes: seq<Account>, query: seq<int> -> seq<Account>) returns (error: Option<LoadError>)
    modifies nodes`children
    ensures var ns := query(IDs(nodes));
            var k := Referenced(ns, ParentKey, nodes);
            && error == (if k == |ns| then None
                         else if ns[k].parentAccountID.None? then Some(NoKey(ns[k].id))
                         else Some(UnknownKey(ns[k].parentAccountID.value, ns[k].id)))
            && forall a :: a in nodes ==> a.children == ChildrenOf(nodes, ns[..k], ParentKey, a)
    ensures forall table :: FromTable(query, table, ParentKey) && DistinctIDs(nodes) ==>
              error.None? && forall a :: a in nodes ==> a.children == Matching(table, ParentKey, a.id)
  {
    var fks: seq<int> := [];
    var nodeids: map<int, Account> := map[];
    var i := 0;
    while i < |nodes|
      invariant 0 <= i <= |nodes|
      invariant |fks| == i && forall j :: 0 <= j < i ==> fks[j] == nodes[j].id
      invariant nodeids == Holders(nodes[..i])
      invariant forall j :: 0 <= j < i ==> nodes[j].children == []
    {
      assert nodes[..i + 1][..i] == nodes[..i];
      fks := fks + [nodes[i].id];
      nodeids := nodeids[nodes[i].id := nodes[i]];
      nodes[i].children := [];
      i := i + 1;
    }
    assert nodes[..i] == nodes;
    assert fks == IDs(nodes);
    error := AssignChildren(nodes, nodeids, query(fks));
    TableChildren(nodes, query, ParentKey);
  }

  method AssignChildren(ghost nodes: seq<Account>, nodeids: map<int, Account>, ns: seq<Account>)
    returns (error: Option<LoadError>)
    requires nodeids == Holders(nodes)
    requires forall a :: a in nodes ==> a.children == []
    modifies nodes`children
    ensures var k := Referenced(ns, ParentKey, nodes);
            && error == (if k == |ns| then None
                         else if ns[k].parentAccountID.None? then Some(NoKey(ns[k].id))
                         else Some(UnknownKey(ns[k].parentAccountID.value, ns[k].id)))
            && forall a :: a in nodes ==> a.children == ChildrenOf(nodes, ns[..k], ParentKey, a)
  {
    hide ChildrenOf, Holders;
    NoChildren(nodes, ParentKey);
    assert ns[..0] == [];
    var i := 0;
    while i < |ns|
      invariant 0 <= i <= Referenced(ns, ParentKey, nodes)
      invariant forall a :: a in nodes ==> a.children == ChildrenOf(nodes, ns[..i], ParentKey, a)
    {
      var n := ns[i];
      var fk := n.parentAccountID;
      if fk.None? {
        return Some(NoKey(n.id));
      }
      if fk.value !in nodeids {
        return Some(UnknownKey(fk.value, n.id));
      }
      forall a
        ensures ChildrenOf(nodes, ns[..i + 1], ParentKey, a)
             == if a == nodeids[fk.value] then ChildrenOf(nodes, ns[..i], ParentKey, a) + [n]
                else ChildrenOf(nodes, ns[..i], ParentKey, a)
      {
        ChildrenSnoc(nodes, ns, i, ParentKey, a);
      }
      HolderOf(nodes, fk.value);
      var node := nodeids[fk.value];
      node.children := node.children + [n];
      i := i + 1;
    }
    return None;
  }

  /** A one-to-many edge fails exactly when some row lacks a key or has one no node has. */
  lemma OneToManyErrors<T>(nodes: seq<Account>, ns: seq<T>, key: T -> Option<int>)
    ensures Referenced(ns, key, nodes) == |ns|
       <==> forall n :: n in ns ==> exists p :: p in nodes && key(n) == Some(p.id)
  {
    hide Holders;
    HoldersOf(nodes);
    var k := Referenced(ns, key, nodes);
    if k < |ns| {
      assert ns[k] in ns;
    } else {
      forall n | n in ns
        ensures exists p :: p in nodes && key(n) == Some(p.id)
      {
        var j :| 0 <= j < |ns| && ns[j] == n;
        HolderOf(nodes, key(n).value);
      }
    }
  }

  /** With distinct IDs every parent holds exactly its children, in the order of the answer. */
  lemma OneToManyExact<T>(nodes: seq<Account>, ns: seq<T>, key: T -> Option<int>, a: Account)
    requires DistinctIDs(nodes) && a in nodes
    ensures ChildrenOf(nodes, ns, key, a) == Matching(ns, key, a.id)
    ensures forall n :: n in ChildrenOf(nodes, ns, key, a) <==> n in ns && key(n) == Some(a.id)
  {
    DistinctHold(nodes, a);
    MatchingIn(ns, key, a.id);
  }

  lemma {:induction false} MatchingChosen<T>(table: seq<T>, key: T -> Option<int>, ids: seq<int>, x: int)
    requires x in ids
    ensures Matching(Chosen(table, key, ids), key, x) == Matching(table, key, x)
  {
    if table != [] {
      var before, last := table[..|table| - 1], table[|table| - 1];
      MatchingChosen(before, key, ids, x);
      var c := Chosen(before, key, ids);
      if key(last).Some? && key(last).value in ids {
        assert (c + [last])[..|c|] == c;
      } else {
        NothingAdded(c);
        NothingAdded(Matching(before, key, x));
      }
    }
  }

  /** A query for the rows of a fixed table that refer to the nodes never fails, and finds all. */
  lemma TableChildren<T>(nodes: seq<Account>, query: seq<int> -> seq<T>, key: T -> Option<int>)
    ensures forall table :: FromTable(query, table, key) && DistinctIDs(nodes) ==>
              var ns := query(IDs(nodes));
              && Referenced(ns, key, nodes) == |ns| && ns[..|ns|] == ns
              && forall a :: a in nodes ==> ChildrenOf(nodes, ns, key, a) == Matching(table, key, a.id)
  {
    hide IDs, Chosen, Matching, ChildrenOf, Referenced;
    var ns := query(IDs(nodes));
    IDsExact(nodes);
    forall table | FromTable(query, table, key) && DistinctIDs(nodes)
      ensures Referenced(ns, key, nodes) == |ns|
      ensures forall a :: a in nodes ==> ChildrenOf(nodes, ns, key, a) == Matching(table, key, a.id)
    {
      assert ns == Chosen(table, key, IDs(nodes));
      ChosenReferenced(nodes, table, key);
      forall a | a in nodes
        ensures ChildrenOf(nodes, ns, key, a) == Matching(table, key, a.id)
      {
        OneToManyExact(nodes, ns, key, a);
        MatchingChosen(table, key, IDs(nodes), a.id);
      }
    }
  }

  lemma ChosenReferenced<T>(nodes: seq<Account>, table: seq<T>, key: T -> Option<int>)
    ensures var ns := Chosen(table, key, IDs(nodes)); Referenced(ns, key, nodes) == |ns|
  {
    hide IDs;
    var ns := Chosen(table, key, IDs(nodes));
    var k := Referenced(ns, key, nodes);
    ChosenIn(table, key, IDs(nodes));
    if k < |ns| { IDHeld(nodes, key(ns[k]).value); }
  }

  lemma IDHeld(nodes: seq<Account>, x: int)
    requires x in IDs(nodes)
    ensures x in Holders(nodes)
  {
    hide IDs;
    IDsExact(nodes);
    HoldersOf(nodes);
  }

  // ---------------------------------------------------------------- all edges

  /** With distinct IDs and answers from a fixed table, every node ends with exactly the rows of
      the table that refer to it, in table order. */
  method LoadUsageLogs(nodes: seq<Account>, query: seq<int> -> seq<UsageLog>) returns (error: Option<LoadError>)
    modifies nodes`usageLogs
    ensures var ns := query(IDs(nodes));
            var k := Referenced(ns, LogKey, nodes);
            && error == (if k == |ns| then None else Some(UnknownKey(ns[k].accountID, ns[k].id)))
            && forall a :: a in nodes ==> a.usageLogs == ChildrenOf(nodes, ns[..k], LogKey, a)
    ensures forall table :: FromTable(query, table, LogKey) && DistinctIDs(nodes) ==>
              error.None? && forall a :: a in nodes ==> a.usageLogs == Matching(table, LogKey, a.id)
  {
    var fks: seq<int> := [];
    var nodeids: map<int, Account> := map[];
    var i := 0;
    while i < |nodes|
      invariant 0 <= i <= |nodes|
      invariant |fks| == i && forall j :: 0 <= j < i ==> fks[j] == nodes[j].id
      invariant nodeids == Holders(nodes[..i])
      invariant forall j :: 0 <= j < i ==> nodes[j].usageLogs == []
    {
      assert nodes[..i + 1][..i] == nodes[..i];
      fks := fks + [nodes[i].id];
      nodeids := nodeids[nodes[i].id := nodes[i]];
      nodes[i].usageLogs := [];
      i := i + 1;
    }
    assert nodes[..i] == nodes;
    assert fks == IDs(nodes);
    error := AssignUsageLogs(nodes, nodeids, query(fks));
    TableChildren(nodes, query, LogKey);
  }

  method AssignUsageLogs(ghost nodes: seq<Account>, nodeids: map<int, Account>, ns: seq<UsageLog>)
    returns (error: Option<LoadError>)
    requires nodeids == Holders(nodes)
    requires forall a :: a in nodes ==> a.usageLogs == []
    modifies nodes`usageLogs
    ensures var k := Referenced(ns, LogKey, nodes);
            && error == (if k == |ns| then None else Some(UnknownKey(ns[k].accountID, ns[k].id)))
            && forall a :: a in nodes ==> a.usageLogs == ChildrenOf(nodes, ns[..k], LogKey, a)
  {
    hide ChildrenOf, Holders;
    NoChildren(nodes, LogKey);
    assert ns[..0] == [];
    var i := 0;
    while i < |ns|
      invariant 0 <= i <= Referenced(ns, LogKey, nodes)
      invariant forall a :: a in nodes ==> a.usageLogs == ChildrenOf(nodes, ns[..i], LogKey, a)
    {
      var n := ns[i];
      if n.accountID !in nodeids {
        return Some(UnknownKey(n.accountID, n.id));
      }
      forall a
        ensures ChildrenOf(nodes, ns[..i + 1], LogKey, a)
             == if a == nodeids[n.accountID] then ChildrenOf(nodes, ns[..i], LogKey, a) + [n]
                else ChildrenOf(nodes, ns[..i], LogKey, a)
      {
        ChildrenSnoc(nodes, ns, i, LogKey, a);
      }
      HolderOf(nodes, n.accountID);
      var node := nodeids[n.accountID];
      node.usageLogs := node.usageLogs + [n];
      i := i + 1;
    }
    return None;
  }

  /** The database as the five queries see it: the rows each of them answers with, and what an
      interceptor makes of the groups found. */
  datatype Queries = Queries(
    groups: Option<seq<int> -> seq<JoinRow>>, intercept: seq<Group> -> seq<Group>,
    proxies: Option<seq<int> -> seq<Proxy>>, parents: Option<seq<int> -> seq<Account>>,
    children: Option<seq<int> -> seq<Account>>, usageLogs: Option<seq<int> -> seq<UsageLog>>)

  /** The groups that are assigned. */
  function GroupsFound(nodes: seq<Account>, q: Queries): seq<Group>
    requires q.groups.Some?
  {
    q.intercept(FirstSeen(GroupRows(nodes, q)))
  }

  function GroupRows(nodes: seq<Account>, q: Queries): seq<JoinRow>
    requires q.groups.Some?
  {
    q.groups.value(IDs(nodes))
  }

  /** No query whose edge is asked for answers with a row that cannot be assigned. */
  ghost predicate Answered(nodes: seq<Account>, q: Queries) {
    && (q.groups.Some? ==> forall n :: n in GroupsFound(nodes, q) ==> Seen(GroupRows(nodes, q), n.id))
    && (q.proxies.Some? ==> AllAsked(nodes, ProxyKey, q.proxies.value, ProxyID))
    && (q.parents.Some? ==> AllAsked(nodes, ParentKey, q.parents.value, AccountID))
    && (q.children.Some? ==> AllReferTo(nodes, q.children.value, ParentKey))
    && (q.usageLogs.Some? ==> AllReferTo(nodes, q.usageLogs.value, LogKey))
  }

  ghost predicate AllAsked<T>(nodes: seq<Account>, key: Account -> Option<int>, query: seq<int> -> seq<T>, id: T -> int)
  {
    forall n :: n in Neighbors(Keys(nodes, key), query) ==> id(n) in Keys(nodes, key)
  }

  ghost predicate AllReferTo<T>(nodes: seq<Account>, query: seq<int> -> seq<T>, key: T -> Option<int>) {
    forall n :: n in query(IDs(nodes)) ==> exists p :: p in nodes && key(n) == Some(p.id)
  }

  /** Loads every edge asked for; the first error abandons the whole result.  Without nodes no
      query is sent. */
  method LoadAll(nodes: seq<Account>, q: Queries) returns (ok: bool)
    requires nodes != [] && q.groups.Some? ==>
               forall r :: r in GroupRows(nodes, q) ==> exists a :: a in nodes && a.id == r.accountID
    modifies nodes
    ensures ok <==> nodes == [] || Answered(nodes, q)
    ensures ok && q.groups.Some? ==> forall a :: a in nodes ==>
              a.groups == GroupsOf(nodes, GroupRows(nodes, q), GroupsFound(nodes, q), a)
    ensures ok && q.proxies.Some? ==> forall a :: a in nodes ==>
              a.proxy == EdgeAfter(Neighbors(Keys(nodes, ProxyKey), q.proxies.value), ProxyID, a.proxyID, old(a.proxy))
    ensures ok && q.parents.Some? ==> forall a :: a in nodes ==>
              a.parent == EdgeAfter(Neighbors(Keys(nodes, ParentKey), q.parents.value), AccountID,
                                    a.parentAccountID, old(a.parent))
    ensures ok && q.children.Some? ==> forall a :: a in nodes ==>
              a.children == ChildrenOf(nodes, q.children.value(IDs(nodes)), ParentKey, a)
    ensures ok && q.usageLogs.Some? ==> forall a :: a in nodes ==>
              a.usageLogs == ChildrenOf(nodes, q.usageLogs.value(IDs(nodes)), LogKey, a)
    ensures q.groups.None? ==> forall a :: a in nodes ==> a.groups == old(a.groups)
    ensures q.proxies.None? ==> forall a :: a in nodes ==> a.proxy == old(a.proxy)
    ensures q.parents.None? ==> forall a :: a in nodes ==> a.parent == old(a.parent)
    ensures q.children.None? ==> forall a :: a in nodes ==> a.children == old(a.children)
    ensures q.usageLogs.None? ==> forall a :: a in nodes ==> a.usageLogs == old(a.usageLogs)
  {
    hide GroupsOf, EdgeAfter, ChildrenOf, Keys, Neighbors, FirstSeen, KnownGroups, Asked, Referenced, IDs;
    hide GroupsFound, AllAsked, AllReferTo, Seen;
    if nodes == [] {
      return true;
    }
    if q.groups.Some? {
      GroupsExact(nodes, q);
      var unexpected := LoadGroups(nodes, q.groups.value, q.intercept);
      if unexpected.Some? {
        return false;
      }
    }
    if q.proxies.Some? {
      AskedExact(nodes, ProxyKey, q.proxies.value, ProxyID);
      var unexpected := LoadProxy(nodes, q.proxies.value);
      if unexpected.Some? {
        return false;
      }
    }
    if q.parents.Some? {
      AskedExact(nodes, ParentKey, q.parents.value, AccountID);
      var unexpected := LoadParent(nodes, q.parents.value);
      if unexpected.Some? {
        return false;
      }
    }
    ok := LoadReferrers(nodes, q);
  }

  /** The edges whose keys the neighbours hold. */
  method LoadReferrers(nodes: seq<Account>, q: Queries) returns (ok: bool)
    modifies nodes`children, nodes`usageLogs
    ensures ok <==> && (q.children.Some? ==> AllReferTo(nodes, q.children.value, ParentKey))
                    && (q.usageLogs.Some? ==> AllReferTo(nodes, q.usageLogs.value, LogKey))
    ensures ok && q.children.Some? ==> forall a :: a in nodes ==>
              a.children == ChildrenOf(nodes, q.children.value(IDs(nodes)), ParentKey, a)
    ensures ok && q.usageLogs.Some? ==> forall a :: a in nodes ==>
              a.usageLogs == ChildrenOf(nodes, q.usageLogs.value(IDs(nodes)), LogKey, a)
    ensures q.children.None? ==> forall a :: a in nodes ==> a.children == old(a.children)
    ensures q.usageLogs.None? ==> forall a :: a in nodes ==> a.usageLogs == old(a.usageLogs)
  {
    hide ChildrenOf, Referenced, IDs, AllReferTo;
    if q.children.Some? {
      ReferExact(nodes, q.children.value, ParentKey);
      var error := LoadChildren(nodes, q.children.value);
      if error.Some? {
        return false;
      }
    }
    if q.usageLogs.Some? {
      ReferExact(nodes, q.usageLogs.value, LogKey);
      var error := LoadUsageLogs(nodes, q.usageLogs.value);
      if error.Some? {
        return false;
      }
    }
    return true;
  }

  lemma GroupsExact(nodes: seq<Account>, q: Queries)
    requires q.groups.Some?
    ensures var rows := q.groups.value(IDs(nodes));
            var ns := q.intercept(FirstSeen(rows));
            var k := KnownGroups(ns, rows);
            && rows == GroupRows(nodes, q) && ns == GroupsFound(nodes, q)
            && (k == |ns| <==> forall n :: n in GroupsFound(nodes, q) ==> Seen(GroupRows(nodes, q), n.id))
            && (k == |ns| ==> ns[..k] == ns)
  {
    hide Seen, KnownGroups, FirstSeen, IDs;
    var ns, k := GroupsFound(nodes, q), KnownGroups(GroupsFound(nodes, q), GroupRows(nodes, q));
    assert k < |ns| ==> ns[k] in ns;
  }

  lemma AskedExact<T>(nodes: seq<Account>, key: Account -> Option<int>, query: seq<int> -> seq<T>, id: T -> int)
    ensures var ids := Keys(nodes, key);
            var ns := Neighbors(ids, query);
            var k := Asked(ns, id, ids);
            && (k == |ns| <==> AllAsked(nodes, key, query, id))
            && (k == |ns| ==> ns[..k] == ns)
  {
    hide Keys, Neighbors, Asked;
    ManyToOneExact(Neighbors(Keys(nodes, key), query), id, Keys(nodes, key), None);
  }

  lemma ReferExact<T>(nodes: seq<Account>, query: seq<int> -> seq<T>, key: T -> Option<int>)
    ensures var ns := query(IDs(nodes));
            var k := Referenced(ns, key, nodes);
            && (k == |ns| <==> AllReferTo(nodes, query, key))
            && (k == |ns| ==> ns[..k] == ns)
  {
    hide IDs, Referenced;
    OneToManyErrors(nodes, query(IDs(nodes)), key);
  }
}
