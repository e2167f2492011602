/** AccountCreateBulk.Save of backend/ent/account_create.go: a chain of mutators, each calling
    the next, whose last makes the only insert and whose results are filled in on the way back. */
module BulkCreate {
  import opened Text
  import opened AccountFields

  /** A user hook around one mutator: it passes the call through, refuses it, or lets it through
      and then reports an error of its own. */
  datatype Hook = Pass | Refuse | FailAfter

  datatype Error = CheckFailed(builder: nat, error: CheckError) | HookFailed(builder: nat) | InsertFailed

  class Node {
    const fields: Fields
    var id: int

    constructor (fields: Fields)
      ensures this.fields == fields && id == 0
    {
      this.fields, id := fields, 0;
    }
  }

  /** `node` stands for the mutation's pointer to the ID inside a node. */
  class Mutation {
    var fields: Fields
    var node: Node?
    var done: bool

    constructor (fields: Fields)
      ensures this.fields == fields && node == null && !done
    {
      this.fields, node, done := fields, null, false;
    }
  }

  class Builder {
    const mutation: Mutation
    const hook: Hook

    constructor (mutation: Mutation, hook: Hook)
      ensures this.mutation == mutation && this.hook == hook
    {
      this.mutation, this.hook := mutation, hook;
    }
  }

  /** One row to insert; the insert sets its ID, or leaves it nil. */
  datatype Spec = Spec(fields: Fields, id: Option<int>)

  /** The database: it records every batch it is given, and answers with the IDs of the rows,
      which may be nil, or with an error. */
  class Driver {
    const answer: seq<Fields> -> Option<seq<Option<int>>>
    var batches: seq<seq<Fields>>

    constructor (answer: seq<Fields> -> Option<seq<Option<int>>>)
      ensures this.answer == answer && batches == []
    {
      this.answer, batches := answer, [];
    }

    method BatchCreate(specs: array<Spec>) returns (ok: bool)
      modifies this`batches, specs
      ensures var rows := Rows(old(specs[..]));
              && batches == old(batches) + [rows]
              && ok == answer(rows).Some?
              && Rows(specs[..]) == rows
              && (ok ==> forall i :: 0 <= i < specs.Length ==> specs[i].id == IDAt(answer(rows), i))
    {
      var rows := Rows(specs[..]);
      batches := batches + [rows];
      var ids := answer(rows);
      ok := ids.Some?;
      if ok {
        forall i | 0 <= i < specs.Length {
          specs[i] := specs[i].(id := IDAt(ids, i));
        }
      }
    }
  }

  function Rows(specs: seq<Spec>): seq<Fields> {
    seq(|specs|, i requires 0 <= i < |specs| => specs[i].fields)
  }

  function IDAt(ids: Option<seq<Option<int>>>, i: nat): Option<int> {
    if ids.Some? && i < |ids.value| then ids.value[i] else None
  }

  // ---------------------------------------------------------------- what the chain does

  /** What decides the outcome: the fields of every builder, the hooks, the database. */
  datatype Plan = Plan(
    rows: seq<Fields>, hooks: seq<Hook>, answer: seq<Fields> -> Option<seq<Option<int>>>, rt: Runtime)

  ghost predicate ValidPlan(p: Plan) {
    |p.rows| == |p.hooks|
  }

  /** Builder `i` lets the call reach its successor, or the insert. */
  predicate Passes(p: Plan, i: nat)
    requires ValidPlan(p) && i < |p.rows|
  {
    !p.hooks[i].Refuse? && Check(p.rows[i], p.rt).None?
  }

  /** The first builder from `i` on that stops the call, or the number of builders. */
  function Blocked(p: Plan, i: nat): (j: nat)
    requires ValidPlan(p) && i <= |p.rows|
    ensures i <= j <= |p.rows|
    ensures j < |p.rows| ==> !Passes(p, j)
    ensures forall k :: i <= k < j ==> Passes(p, k)
    decreases |p.rows| - i
  {
    if i == |p.rows| || !Passes(p, i) then i else Blocked(p, i + 1)
  }

  /** A call that starts at `i` reaches the insert and the insert succeeds. */
  predicate Inserted(p: Plan, i: nat)
    requires ValidPlan(p) && i <= |p.rows|
  {
    Blocked(p, i) == |p.rows| && p.answer(p.rows).Some?
  }

  /** It also marks builder `j` done: no hook behind `j` failed on the way back. */
  ghost predicate Finished(p: Plan, i: nat, j: nat)
    requires ValidPlan(p) && i <= |p.rows|
  {
    i <= j < |p.rows| && Inserted(p, i) && forall k :: j < k < |p.rows| ==> !p.hooks[k].FailAfter?
  }

  /** The error of a call that starts at builder `i`, or, after the last one, of the insert. */
  function ErrorFrom(p: Plan, i: nat): Option<Error>
    requires ValidPlan(p) && i <= |p.rows|
    decreases |p.rows| - i
  {
    if i == |p.rows| then (if p.answer(p.rows).None? then Some(InsertFailed) else None)
    else if p.hooks[i].Refuse? then Some(HookFailed(i))
    else
      var c := Check(p.rows[i], p.rt);
      if c.Some? then Some(CheckFailed(i, c.value))
      else
        var e := ErrorFrom(p, i + 1);
        if e.Some? then e else if p.hooks[i].FailAfter? then Some(HookFailed(i)) else None
  }

  /** The first builder that stops the call, in builder order, decides the error; after that the
      insert; after that the last hook that fails on the way back. */
  lemma {:induction false} ErrorExact(p: Plan, i: nat)
    requires ValidPlan(p) && i <= |p.rows|
    ensures var b, e, n := Blocked(p, i), ErrorFrom(p, i), |p.rows|;
            if b < n then
              e == Some(if p.hooks[b].Refuse? then HookFailed(b) else CheckFailed(b, Check(p.rows[b], p.rt).value))
            else if p.answer(p.rows).None? then e == Some(InsertFailed)
            else if e.None? then forall k :: i <= k < n ==> !p.hooks[k].FailAfter?
            else exists k :: i <= k < n && e == Some(HookFailed(k)) && p.hooks[k].FailAfter?
                             && forall l :: k < l < n ==> !p.hooks[l].FailAfter?
    decreases |p.rows| - i
  {
    hide Check;
    if i < |p.rows| && Passes(p, i) { ErrorExact(p, i + 1); }
  }

  /** How a call at `i` follows from the call behind it. */
  lemma ChainStep(p: Plan, i: nat)
    requires ValidPlan(p) && i < |p.rows|
    ensures forall j: nat {:trigger Finished(p, i + 1, j)} :: Finished(p, i + 1, j) ==>
              i < j < |p.rows| && Blocked(p, i + 1) == |p.rows|
    ensures !Passes(p, i) ==> Blocked(p, i) == i && forall j: nat :: !Finished(p, i, j)
    ensures Passes(p, i) ==>
              && Blocked(p, i) == Blocked(p, i + 1) && (Inserted(p, i) <==> Inserted(p, i + 1))
              && (forall j: nat :: Finished(p, i, j) <==>
                    Finished(p, i + 1, j) || (j == i && ErrorFrom(p, i + 1).None?))
              && (ErrorFrom(p, i + 1).None? ==> Inserted(p, i))
              && ErrorFrom(p, i) == if ErrorFrom(p, i + 1).Some? then ErrorFrom(p, i + 1)
                                    else if p.hooks[i].FailAfter? then Some(HookFailed(i)) else None
  {
    hide Check, ErrorFrom;
    ErrorExact(p, i);
    if Passes(p, i) {
      ErrorExact(p, i + 1);
      ErrorStep(p, i);
    }
  }

  lemma ErrorStep(p: Plan, i: nat)
    requires ValidPlan(p) && i < |p.rows| && Passes(p, i)
    ensures ErrorFrom(p, i) == if ErrorFrom(p, i + 1).Some? then ErrorFrom(p, i + 1)
                               else if p.hooks[i].FailAfter? then Some(HookFailed(i)) else None
  {
  }

  lemma ChainEnd(p: Plan)
    requires ValidPlan(p)
    ensures Blocked(p, |p.rows|) == |p.rows|
    ensures forall j: nat :: !Finished(p, |p.rows|, j)
    ensures ErrorFrom(p, |p.rows|) == if p.answer(p.rows).None? then Some(InsertFailed) else None
  {
  }

  // ---------------------------------------------------------------- the chain

  ghost predicate ValidBuilders(bs: seq<Builder>) {
    forall i, j :: 0 <= i < j < |bs| ==> bs[i].mutation != bs[j].mutation
  }

  ghost function Mutations(bs: seq<Builder>): set<Mutation> {
    set b | b in bs :: b.mutation
  }

  ghost predicate PlanOf(p: Plan, bs: seq<Builder>, driver: Driver, rt: Runtime)
    reads Mutations(bs)`fields
  {
    && |p.rows| == |p.hooks| == |bs| && p.answer == driver.answer && p.rt == rt
    && forall j :: 0 <= j < |bs| ==> p.rows[j] == bs[j].mutation.fields && p.hooks[j] == bs[j].hook
  }

  /** Builder `j` has its node, with the ID its row was given. */
  ghost predicate Filled(p: Plan, m: Mutation, node: Node?, j: nat)
    requires ValidPlan(p) && j < |p.rows|
    reads m, node
  {
    && m.done && m.node == node && node != null
    && node.fields == p.rows[j]
    && node.id == match p.answer(p.rows)
                  case None => 0
                  case Some(ids) => if j < |ids| && ids[j].Some? then ids[j].value else 0
  }

  /** What a call that starts at `i` does to everything before `i`: nothing. */
  twostate predicate KeptBefore(p: Plan, nodes: array<Node?>, specs: array<Spec>, i: nat)
    requires |p.rows| == nodes.Length == specs.Length && i <= |p.rows|
    reads nodes, specs
  {
    forall j :: 0 <= j < i ==> nodes[j] == old(nodes[j]) && specs[j].fields == p.rows[j]
  }

  /** Every builder from `i` on has a new node when nobody stopped the call. */
  twostate predicate NodesMade(p: Plan, nodes: array<Node?>, i: nat)
    requires ValidPlan(p) && |p.rows| == nodes.Length && i <= |p.rows|
    reads nodes
  {
    Blocked(p, i) == |p.rows| ==>
      forall j :: i <= j < |p.rows| ==> nodes[j] != null && fresh(nodes[j]) && nodes[j].fields == p.rows[j]
  }

  ghost predicate SpecsFilled(p: Plan, specs: array<Spec>, i: nat)
    requires ValidPlan(p) && |p.rows| == specs.Length && i <= |p.rows|
    reads specs
  {
    Inserted(p, i) ==> forall j :: 0 <= j < |p.rows| ==> specs[j].id == IDAt(p.answer(p.rows), j)
  }

  /** Builder `j` is marked done, with its node, exactly when it is finished. */
  twostate predicate MarkedAt(p: Plan, m: Mutation, new node: Node?, i: nat, j: nat)
    requires ValidPlan(p) && i <= |p.rows| && j < |p.rows|
    reads m, node
  {
    if Finished(p, i, j) then Filled(p, m, node, j) else m.done == old(m.done) && m.node == old(m.node)
  }

  twostate predicate MarkedDone(p: Plan, bs: seq<Builder>, nodes: array<Node?>, i: nat)
    requires ValidPlan(p) && |p.rows| == |bs| == nodes.Length && i <= |bs|
    reads nodes, Mutations(bs), nodes[..]
  {
    forall j: nat :: j < |bs| ==> MarkedAt(p, bs[j].mutation, nodes[j], i, j)
  }

  /** The mutator of builder `i`, or, after the last builder, the insert. */
  method Mutate(bs: seq<Builder>, nodes: array<Node?>, specs: array<Spec>, driver: Driver, rt: Runtime,
                ghost p: Plan, i: nat) returns (error: Option<Error>)
    requires ValidBuilders(bs) && nodes.Length == specs.Length == |bs| && i <= |bs|
    requires PlanOf(p, bs, driver, rt)
    requires forall j :: 0 <= j < i ==> specs[j].fields == p.rows[j]
    modifies nodes, specs, driver`batches, Mutations(bs)`node, Mutations(bs)`done
    ensures error == ErrorFrom(p, i)
    ensures driver.batches == old(driver.batches) + if Blocked(p, i) == |bs| then [p.rows] else []
    ensures KeptBefore(p, nodes, specs, i)
    ensures NodesMade(p, nodes, i)
    ensures SpecsFilled(p, specs, i)
    ensures MarkedDone(p, bs, nodes, i)
    decreases |bs| - i, 1
  {
    hide Blocked, Finished, Check;
    if i == |bs| {
      ChainEnd(p);
      assert Rows(specs[..]) == p.rows;
      var ok := driver.BatchCreate(specs);
      return if ok then None else Some(InsertFailed);
    }
    ChainStep(p, i);
    if bs[i].hook.Refuse? {
      return Some(HookFailed(i));
    }
    var c := Check(bs[i].mutation.fields, rt);
    if c.Some? {
      return Some(CheckFailed(i, c.value));
    }
    error := Proceed(bs, nodes, specs, driver, rt, p, i);
  }

  /** The rest of the mutator of builder `i`, once its hook and its checks have let it through. */
  method Proceed(bs: seq<Builder>, nodes: array<Node?>, specs: array<Spec>, driver: Driver, rt: Runtime,
                 ghost p: Plan, i: nat) returns (error: Option<Error>)
    requires ValidBuilders(bs) && nodes.Length == specs.Length == |bs| && i < |bs|
    requires PlanOf(p, bs, driver, rt) && Passes(p, i)
    requires forall j :: 0 <= j < i ==> specs[j].fields == p.rows[j]
    modifies nodes, specs, driver`batches, Mutations(bs)`node, Mutations(bs)`done
    ensures error == ErrorFrom(p, i)
    ensures driver.batches == old(driver.batches) + if Blocked(p, i) == |bs| then [p.rows] else []
    ensures KeptBefore(p, nodes, specs, i)
    ensures NodesMade(p, nodes, i)
    ensures SpecsFilled(p, specs, i)
    ensures MarkedDone(p, bs, nodes, i)
    decreases |bs| - i, 0
  {
    hide Blocked, Finished, Check, ErrorFrom, Passes;
    ChainStep(p, i);
    var mutation := bs[i].mutation;
    assert mutation in Mutations(bs);
    var node := CreateSpec(nodes, specs, i, mutation.fields);
    error := Mutate(bs, nodes, specs, driver, rt, p, i + 1);
    if error.Some? {
      return error;
    }
    label before:
    assert nodes[i] == node && node.id == 0;
    assert forall j: nat :: j < |bs| && j != i ==> bs[j].mutation != mutation;
    assert forall j: nat :: j < |bs| && Finished(p, i + 1, j) ==> nodes[j] != node;
    Complete(mutation, node, specs[i].id);
    forall j: nat | j < |bs|
      ensures MarkedAt(p, bs[j].mutation, nodes[j], i, j)
    {
    }
    return if bs[i].hook.FailAfter? then Some(HookFailed(i)) else None;
  }

  method CreateSpec(nodes: array<Node?>, specs: array<Spec>, i: nat, fields: Fields) returns (node: Node)
    requires i < nodes.Length == specs.Length
    modifies nodes, specs
    ensures fresh(node) && node.fields == fields && node.id == 0
    ensures nodes[..] == old(nodes[..])[i := node] && specs[..] == old(specs[..])[i := Spec(fields, None)]
  {
    node := new Node(fields);
    nodes[i], specs[i] := node, Spec(fields, None);
  }

  /** Points the mutation at its node, whose ID is set when its row got one. */
  method Complete(mutation: Mutation, node: Node, id: Option<int>)
    modifies mutation`node, mutation`done, node
    ensures mutation.node == node && mutation.done
    ensures node.id == if id.Some? then id.value else old(node.id)
  {
    mutation.node := node;
    if id.Some? {
      node.id := id.value;
    }
    mutation.done := true;
  }

  // ---------------------------------------------------------------- Save

  /** What a bulk save is about to do: the fields are those after `defaults`, whose error is ignored. */
  ghost function PlanAfterDefaults(bs: seq<Builder>, driver: Driver, rt: Runtime): (p: Plan)
    reads Mutations(bs)
    ensures ValidPlan(p) && |p.rows| == |bs| && p.answer == driver.answer && p.rt == rt
    ensures forall j :: 0 <= j < |bs| ==>
              p.rows[j] == Defaults(bs[j].mutation.fields, rt).fields && p.hooks[j] == bs[j].hook
  {
    Plan(seq(|bs|, i requires 0 <= i < |bs| reads Mutations(bs) => Defaults(bs[i].mutation.fields, rt).fields),
         seq(|bs|, i requires 0 <= i < |bs| => bs[i].hook), driver.answer, rt)
  }

  method SetDefaults(bs: seq<Builder>, driver: Driver, rt: Runtime)
    requires ValidBuilders(bs)
    modifies Mutations(bs)`fields
    ensures PlanOf(old(PlanAfterDefaults(bs, driver, rt)), bs, driver, rt)
    ensures forall j :: 0 <= j < |bs| ==> bs[j].mutation.fields == Defaults(old(bs[j].mutation.fields), rt).fields
  {
    ghost var p := PlanAfterDefaults(bs, driver, rt);
    var i := 0;
    while i < |bs|
      invariant 0 <= i <= |bs|
      invariant forall j :: 0 <= j < i ==> bs[j].mutation.fields == p.rows[j]
      invariant forall j :: i <= j < |bs| ==> bs[j].mutation.fields == old(bs[j].mutation.fields)
    {
      var m := bs[i].mutation;
      assert m in Mutations(bs);
      m.fields := Defaults(m.fields, rt).fields;
      i := i + 1;
    }
  }

  /** An account whose defaults and checks pass: name, platform and type are set, the default
      functions needed are there, and every value that is checked is valid. */
  ghost predicate Ready(m: Fields, rt: Runtime) {
    && Name in m && Platform in m && AccountType in m && FunctionsPresent(m, rt)
    && forall f :: f in {Name, Platform, AccountType, Status, SessionWindowStatus, QuotaDimension} ==>
                     (ValueAfter(m, rt, f).Some? ==> rt.valid(f, ValueAfter(m, rt, f).value))
  }

  /** The row to insert for an account: what its caller set, and its defaults. */
  ghost predicate RowFor(row: Fields, m: Fields, rt: Runtime) {
    forall f :: (f in row <==> ValueAfter(m, rt, f).Some?) && (f in row ==> ValueAfter(m, rt, f) == Some(row[f]))
  }

  lemma ReadyPasses(m: Fields, rt: Runtime)
    requires Ready(m, rt)
    ensures Check(Defaults(m, rt).fields, rt).None? && RowFor(Defaults(m, rt).fields, m, rt)
  {
    hide Check, Defaults;
    DefaultsExact(m, rt);
    CheckPasses(Defaults(m, rt).fields, rt);
  }

  ghost predicate AllReady(bs: seq<Builder>, driver: Driver, rt: Runtime)
    reads Mutations(bs)`fields
  {
    && (forall j :: 0 <= j < |bs| ==> bs[j].hook.Pass? && Ready(bs[j].mutation.fields, rt))
    && (forall rows :: driver.answer(rows).Some?)
  }

  /** One row for each builder, in their order. */
  ghost predicate RowsFor(rows: seq<Fields>, ms: seq<Fields>, rt: Runtime) {
    |rows| == |ms| && forall j :: 0 <= j < |ms| ==> RowFor(rows[j], ms[j], rt)
  }

  ghost function FieldsOf(bs: seq<Builder>): (ms: seq<Fields>)
    reads Mutations(bs)
    ensures |ms| == |bs| && forall j :: 0 <= j < |bs| ==> ms[j] == bs[j].mutation.fields
  {
    seq(|bs|, i requires 0 <= i < |bs| reads Mutations(bs) => bs[i].mutation.fields)
  }

  lemma ReadyPlan(bs: seq<Builder>, driver: Driver, rt: Runtime)
    requires bs != [] && AllReady(bs, driver, rt)
    ensures var p := PlanAfterDefaults(bs, driver, rt);
            ErrorFrom(p, 0).None? && Blocked(p, 0) == |p.rows| && RowsFor(p.rows, FieldsOf(bs), rt)
  {
    hide Check, Defaults, RowFor, Ready;
    var p, ms := PlanAfterDefaults(bs, driver, rt), FieldsOf(bs);
    forall j | 0 <= j < |ms|
      ensures Check(p.rows[j], rt).None? && RowFor(p.rows[j], ms[j], rt)
    {
      ReadyPasses(ms[j], rt);
    }
    SucceedsExactlyWhen(p);
    ErrorExact(p, 0);
  }

  /** The chain of mutators over builders whose defaults are set. */
  method RunChain(bs: seq<Builder>, driver: Driver, rt: Runtime, ghost p: Plan)
    returns (result: Option<seq<Node?>>, error: Option<Error>)
    requires ValidBuilders(bs) && PlanOf(p, bs, driver, rt)
    modifies driver`batches, Mutations(bs)`node, Mutations(bs)`done
    ensures result.Some? <==> error.None?
    ensures error == if bs == [] then None else ErrorFrom(p, 0)
    ensures driver.batches == old(driver.batches) + if bs != [] && Blocked(p, 0) == |bs| then [p.rows] else []
    ensures result.Some? ==>
              && |result.value| == |bs|
              && forall j: nat :: j < |bs| ==> Filled(p, bs[j].mutation, result.value[j], j)
    ensures forall j: nat :: j < |bs| ==>
              if Finished(p, 0, j) then Filled(p, bs[j].mutation, bs[j].mutation.node, j)
              else bs[j].mutation.done == old(bs[j].mutation.done) && bs[j].mutation.node == old(bs[j].mutation.node)
  {
    var specs := new Spec[|bs|](_ => Spec(map[], None));
    var nodes := new Node?[|bs|](_ => null);
    if |bs| > 0 {
      error := Mutate(bs, nodes, specs, driver, rt, p, 0);
      if error.Some? {
        return None, error;
      }
      SuccessFinishesAll(p);
    }
    hide Finished, Blocked;
    assert forall j: nat :: j < |bs| ==> Finished(p, 0, j) && MarkedAt(p, bs[j].mutation, nodes[j], 0, j);
    return Some(nodes[..]), None;
  }

  /** Sets the defaults of every builder and runs the chain.  When every account is ready, every
      hook passes and the database answers, one batch is inserted with the row for each. */
  method Save(pending: Option<Error>, bs: seq<Builder>, driver: Driver, rt: Runtime)
    returns (result: Option<seq<Node?>>, error: Option<Error>)
    requires ValidBuilders(bs)
    modifies driver`batches, Mutations(bs)
    ensures result.Some? <==> error.None?
    ensures pending.Some? ==> error == pending && driver.batches == old(driver.batches) && unchanged(Mutations(bs))
    ensures pending.None? ==>
              var p := old(PlanAfterDefaults(bs, driver, rt));
              && error == (if bs == [] then None else ErrorFrom(p, 0))
              && driver.batches == old(driver.batches) + (if bs != [] && Blocked(p, 0) == |bs| then [p.rows] else [])
              && (result.Some? ==>
                    && |result.value| == |bs|
                    && forall j: nat :: j < |bs| ==> Filled(p, bs[j].mutation, result.value[j], j))
              && (forall j: nat :: j < |bs| ==>
                    if Finished(p, 0, j) then Filled(p, bs[j].mutation, bs[j].mutation.node, j)
                    else
                      && bs[j].mutation.done == old(bs[j].mutation.done)
                      && bs[j].mutation.node == old(bs[j].mutation.node))
    ensures pending.None? ==> forall j :: 0 <= j < |bs| ==>
              bs[j].mutation.fields == Defaults(old(bs[j].mutation.fields), rt).fields
    ensures pending.None? && bs != [] && old(AllReady(bs, driver, rt)) ==>
              && error.None? && |driver.batches| == |old(driver.batches)| + 1
              && driver.batches[..|old(driver.batches)|] == old(driver.batches)
              && RowsFor(driver.batches[|old(driver.batches)|], old(FieldsOf(bs)), rt)
  {
    hide Check, Defaults, RowsFor, AllReady, PlanAfterDefaults, FieldsOf, ErrorFrom, Finished, Blocked, Filled;
    if pending.Some? {
      return None, pending;
    }
    ghost var p := PlanAfterDefaults(bs, driver, rt);
    if bs != [] && AllReady(bs, driver, rt) { ReadyPlan(bs, driver, rt); }
    SetDefaults(bs, driver, rt);
    result, error := RunChain(bs, driver, rt, p);
  }

  lemma SuccessFinishesAll(p: Plan)
    requires ValidPlan(p) && |p.rows| > 0 && ErrorFrom(p, 0).None?
    ensures forall j: nat :: j < |p.rows| ==> Finished(p, 0, j)
  {
    ErrorExact(p, 0);
  }

  // ---------------------------------------------------------------- all or nothing

  /** A save succeeds exactly when every hook lets every call through, every check passes, and
      the insert succeeds. */
  lemma SucceedsExactlyWhen(p: Plan)
    requires ValidPlan(p) && p.rows != []
    ensures ErrorFrom(p, 0).None? <==>
              && (forall k: nat :: k < |p.rows| ==> p.hooks[k].Pass? && Check(p.rows[k], p.rt).None?)
              && p.answer(p.rows).Some?
  {
    hide Check;
    ErrorExact(p, 0);
    if ErrorFrom(p, 0).None? {
      forall k: nat | k < |p.rows|
        ensures p.hooks[k].Pass? && Check(p.rows[k], p.rt).None?
      {
        assert Passes(p, k);
      }
    }
  }

  /** A check that fails, or a hook that refuses, anywhere in the chain means no insert, and no
      builder marked done; the error is that of the first such builder. */
  lemma StoppedMeansNothing(p: Plan, k: nat)
    requires ValidPlan(p) && k < |p.rows| && !Passes(p, k)
    ensures Blocked(p, 0) <= k && !Inserted(p, 0) && forall j: nat :: !Finished(p, 0, j)
    ensures ErrorFrom(p, 0).Some?
  {
    hide Check;
    ErrorExact(p, 0);
  }

  /** A save that fails has inserted nothing, except exactly when a hook failed after letting the
      call through; with pass-through hooks a save is all or nothing. */
  lemma AllOrNothing(p: Plan)
    requires ValidPlan(p) && p.rows != []
    ensures ErrorFrom(p, 0).Some? && Inserted(p, 0) <==>
            Inserted(p, 0) && exists k: nat :: k < |p.rows| && p.hooks[k].FailAfter?
    ensures (forall k: nat :: k < |p.rows| ==> p.hooks[k].Pass?) ==>
              && (ErrorFrom(p, 0).None? <==> Inserted(p, 0))
              && (Inserted(p, 0) <==> forall j: nat :: j < |p.rows| ==> Finished(p, 0, j))
  {
    hide Check;
    ErrorExact(p, 0);
    assert Finished(p, 0, 0) ==> Inserted(p, 0);
  }

  /** No insert follows a builder whose `defaults` failed, although the error is ignored. */
  lemma FailedDefaultsStop(p: Plan, k: nat, before: Fields)
    requires ValidPlan(p) && k < |p.rows| && p.rows[k] == Defaults(before, p.rt).fields
    requires Defaults(before, p.rt).missing.Some?
    ensures !Passes(p, k) && !Inserted(p, 0) && ErrorFrom(p, 0).Some?
  {
    hide Check, Defaults;
    FailedDefaultsFailCheck(before, p.rt);
    StoppedMeansNothing(p, k);
  }
}
