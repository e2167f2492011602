/** `defaults` and `check` of backend/ent/account_create.go over the fields they look at. */
module AccountFields {
  import opened Text

  datatype Field =
    | CreatedAt | UpdatedAt | Name | Platform | AccountType | Credentials | Extra | Concurrency | Priority
    | RateMultiplier | Status | AutoPauseOnExpired | Schedulable | SessionWindowStatus | QuotaDimension

  type Value = string

  /** The fields a mutation has set. */
  type Fields = map<Field, Value>

  /** The package variables of `account`: default functions, which are nil until the runtime
      package is imported, default constants, and validators. */
  datatype Runtime = Runtime(
    function_: Field -> Option<Value>, constant: Field -> Value, valid: (Field, Value) -> bool)

  // ---------------------------------------------------------------- defaults

  function FunctionDefaults(): seq<Field> {
    [CreatedAt, UpdatedAt, Credentials, Extra]
  }

  function ConstantDefaults(): seq<Field> {
    [Concurrency, Priority, RateMultiplier, Status, AutoPauseOnExpired, Schedulable, QuotaDimension]
  }

  /** The fields after the attempt, and the one whose default function is missing. */
  datatype Defaulted = Defaulted(fields: Fields, missing: Option<Field>)

  function FillFunctions(m: Fields, order: seq<Field>, rt: Runtime): Defaulted
    decreases |order|
  {
    if order == [] then Defaulted(m, None)
    else if order[0] in m then FillFunctions(m, order[1..], rt)
    else if rt.function_(order[0]).None? then Defaulted(m, Some(order[0]))
    else FillFunctions(m[order[0] := rt.function_(order[0]).value], order[1..], rt)
  }

  function FillConstants(m: Fields, order: seq<Field>, rt: Runtime): Fields
    decreases |order|
  {
    if order == [] then m
    else FillConstants(if order[0] in m then m else m[order[0] := rt.constant(order[0])], order[1..], rt)
  }

  function Defaults(m: Fields, rt: Runtime): Defaulted {
    var d := FillFunctions(m, FunctionDefaults(), rt);
    if d.missing.Some? then d else Defaulted(FillConstants(d.fields, ConstantDefaults(), rt), None)
  }

  // ---------------------------------------------------------------- check

  /** The order in which the code checks the fields. */
  function CheckOrder(): seq<Field> {
    [CreatedAt, UpdatedAt, Name, Platform, AccountType, Credentials, Extra, Concurrency, Priority,
     RateMultiplier, Status, AutoPauseOnExpired, Schedulable, SessionWindowStatus, QuotaDimension]
  }

  predicate Required(f: Field) {
    f != SessionWindowStatus
  }

  predicate Validated(f: Field) {
    f == Name || f == Platform || f == AccountType || f == Status || f == SessionWindowStatus || f == QuotaDimension
  }

  datatype CheckError = Missing(field: Field) | Invalid(field: Field)

  function CheckField(m: Fields, f: Field, rt: Runtime): Option<CheckError> {
    if f !in m then (if Required(f) then Some(Missing(f)) else None)
    else if Validated(f) && !rt.valid(f, m[f]) then Some(Invalid(f))
    else None
  }

  function CheckFrom(m: Fields, order: seq<Field>, rt: Runtime): Option<CheckError> {
    if order == [] then None
    else
      var e := CheckField(m, order[0], rt);
      if e.Some? then e else CheckFrom(m, order[1..], rt)
  }

  function Check(m: Fields, rt: Runtime): Option<CheckError> {
    CheckFrom(m, CheckOrder(), rt)
  }

  // ---------------------------------------------------------------- how they fit together

  lemma {:induction false} CheckFromExact(m: Fields, order: seq<Field>, rt: Runtime)
    ensures CheckFrom(m, order, rt).None? <==> forall f :: f in order ==> CheckField(m, f, rt).None?
    ensures CheckFrom(m, order, rt).Some? ==>
              CheckField(m, CheckFrom(m, order, rt).value.field, rt) == CheckFrom(m, order, rt)
  {
    if order != [] { CheckFromExact(m, order[1..], rt); }
  }

  /** `check` passes exactly when every required field is set and every validated field that is
      set is valid; its error names a field for which that fails. */
  lemma CheckExact(m: Fields, rt: Runtime)
    ensures Check(m, rt).None? <==> forall f :: CheckField(m, f, rt).None?
    ensures Check(m, rt).Some? ==> CheckField(m, Check(m, rt).value.field, rt) == Check(m, rt)
  {
    EveryFieldChecked();
    hide CheckOrder, CheckField;
    CheckFromExact(m, CheckOrder(), rt);
  }

  /** The error is that of the first field, in this order, that fails. */
  lemma CheckFirst(m: Fields, rt: Runtime, f: Field)
    requires Check(m, rt).Some? && Position(f) < Position(Check(m, rt).value.field)
    ensures CheckField(m, f, rt).None?
  {
    var g := Check(m, rt).value.field;
    OrderAt(f);
    OrderAt(g);
    hide CheckField, CheckOrder, Position;
    CheckedBefore(m, CheckOrder(), rt, Position(f), Position(g));
  }

  lemma OrderAt(f: Field)
    ensures Position(f) < |CheckOrder()| && CheckOrder()[Position(f)] == f
    ensures forall k, l :: 0 <= k < l < |CheckOrder()| ==> CheckOrder()[k] != CheckOrder()[l]
  {
    forall k, l | 0 <= k < l < |CheckOrder()|
      ensures CheckOrder()[k] != CheckOrder()[l]
    {
      assert Position(CheckOrder()[k]) == k && Position(CheckOrder()[l]) == l;
    }
  }

  lemma {:induction false} CheckedBefore(m: Fields, order: seq<Field>, rt: Runtime, i: nat, j: nat)
    requires i < j < |order| && forall k, l :: 0 <= k < l < |order| ==> order[k] != order[l]
    requires CheckFrom(m, order, rt).Some? && CheckFrom(m, order, rt).value.field == order[j]
    ensures CheckField(m, order[i], rt).None?
  {
    hide CheckField;
    CheckFieldNames(m, order[0], rt);
    if i > 0 { CheckedBefore(m, order[1..], rt, i - 1, j - 1); }
  }

  lemma CheckFieldNames(m: Fields, f: Field, rt: Runtime)
    ensures CheckField(m, f, rt).Some? ==> CheckField(m, f, rt).value.field == f
  {
  }

  /** All fields but the window status must be set, and these six hold a valid value if any. */
  lemma CheckPasses(m: Fields, rt: Runtime)
    ensures Check(m, rt).None? <==>
              && {CreatedAt, UpdatedAt, Name, Platform, AccountType, Credentials, Extra, Concurrency, Priority,
                  RateMultiplier, Status, AutoPauseOnExpired, Schedulable, QuotaDimension} <= m.Keys
              && forall f :: f in {Name, Platform, AccountType, Status, SessionWindowStatus, QuotaDimension} ==>
                               (f in m ==> rt.valid(f, m[f]))
  {
    hide CheckFrom, Check;
    CheckExact(m, rt);
    if Check(m, rt).None? {
      forall f | f != SessionWindowStatus
        ensures f in m
      {
        assert CheckField(m, f, rt).None?;
      }
      forall f | f in {Name, Platform, AccountType, Status, SessionWindowStatus, QuotaDimension} && f in m
        ensures rt.valid(f, m[f])
      {
        assert CheckField(m, f, rt).None?;
      }
    }
  }

  lemma EveryFieldChecked()
    ensures forall f :: f in CheckOrder()
  {
    forall f: Field
      ensures f in CheckOrder()
    {
      assert CheckOrder()[Position(f)] == f;
    }
  }

  function Position(f: Field): nat {
    match f
    case CreatedAt => 0
    case UpdatedAt => 1
    case Name => 2
    case Platform => 3
    case AccountType => 4
    case Credentials => 5
    case Extra => 6
    case Concurrency => 7
    case Priority => 8
    case RateMultiplier => 9
    case Status => 10
    case AutoPauseOnExpired => 11
    case Schedulable => 12
    case SessionWindowStatus => 13
    case QuotaDimension => 14
  }

  lemma {:induction false} FillFunctionsExact(m: Fields, order: seq<Field>, rt: Runtime)
    ensures var d := FillFunctions(m, order, rt);
            && (forall f :: f in m ==> f in d.fields && d.fields[f] == m[f])
            && (forall f :: f in d.fields ==> f in m || f in order)
            && (d.missing.None? ==> forall f :: f in order ==> f in d.fields)
            && (d.missing.Some? ==> d.missing.value in order && d.missing.value !in d.fields)
    decreases |order|
  {
    if order != [] {
      if order[0] in m {
        FillFunctionsExact(m, order[1..], rt);
      } else if rt.function_(order[0]).Some? {
        FillFunctionsExact(m[order[0] := rt.function_(order[0]).value], order[1..], rt);
      }
    }
  }

  lemma {:induction false} FillConstantsExact(m: Fields, order: seq<Field>, rt: Runtime)
    ensures var d := FillConstants(m, order, rt);
            && (forall f :: f in m ==> f in d && d[f] == m[f])
            && (forall f :: f in d <==> f in m || f in order)
    decreases |order|
  {
    if order != [] {
      FillConstantsExact(if order[0] in m then m else m[order[0] := rt.constant(order[0])], order[1..], rt);
    }
  }

  /** What a field holds after defaults that succeed: the caller's value, the value of its
      default function, its default constant, or nothing. */
  function ValueAfter(m: Fields, rt: Runtime, f: Field): Option<Value> {
    if f in m then Some(m[f])
    else match f
      case CreatedAt => rt.function_(CreatedAt)
      case UpdatedAt => rt.function_(UpdatedAt)
      case Credentials => rt.function_(Credentials)
      case Extra => rt.function_(Extra)
      case Name => None
      case Platform => None
      case AccountType => None
      case SessionWindowStatus => None
      case _ => Some(rt.constant(f))
  }

  /** The default functions that are needed are there. */
  ghost predicate FunctionsPresent(m: Fields, rt: Runtime) {
    forall f :: f in {CreatedAt, UpdatedAt, Credentials, Extra} && f !in m ==> rt.function_(f).Some?
  }

  lemma {:induction false} FillFunctionsValues(m: Fields, order: seq<Field>, rt: Runtime)
    ensures var d := FillFunctions(m, order, rt);
            && (d.missing.None? <==> forall f :: f in order && f !in m ==> rt.function_(f).Some?)
            && (forall f :: f in d.fields && f !in m ==> f in order && rt.function_(f) == Some(d.fields[f]))
    decreases |order|
  {
    if order != [] {
      if order[0] in m {
        FillFunctionsValues(m, order[1..], rt);
      } else if rt.function_(order[0]).Some? {
        var m' := m[order[0] := rt.function_(order[0]).value];
        FillFunctionsValues(m', order[1..], rt);
        FillFunctionsExact(m', order[1..], rt);
      }
    }
  }

  lemma {:induction false} FillConstantsValues(m: Fields, order: seq<Field>, rt: Runtime)
    ensures forall f :: f in FillConstants(m, order, rt) && f !in m ==>
              FillConstants(m, order, rt)[f] == rt.constant(f)
    decreases |order|
  {
    if order != [] {
      var m' := if order[0] in m then m else m[order[0] := rt.constant(order[0])];
      FillConstantsValues(m', order[1..], rt);
      FillConstantsExact(m', order[1..], rt);
    }
  }

  lemma DefaultLists()
    ensures forall f :: f in FunctionDefaults() <==> f in {CreatedAt, UpdatedAt, Credentials, Extra}
    ensures forall f :: f in ConstantDefaults() <==>
              f !in {CreatedAt, UpdatedAt, Credentials, Extra, Name, Platform, AccountType, SessionWindowStatus}
  {
    assert forall f :: f in FunctionDefaults() <==> f in {CreatedAt, UpdatedAt, Credentials, Extra};
    assert forall f :: f in ConstantDefaults() ==> f !in {CreatedAt, UpdatedAt, Credentials, Extra};
    forall f
      ensures f in FunctionDefaults() || f in ConstantDefaults() <==>
              f !in {Name, Platform, AccountType, SessionWindowStatus}
    {
      DefaultedField(f);
    }
    hide FunctionDefaults, ConstantDefaults;
  }

  /** Defaults succeed exactly when the functions needed are there, and then every field holds
      exactly what it should. */
  lemma DefaultsExact(m: Fields, rt: Runtime)
    ensures Defaults(m, rt).missing.None? <==> FunctionsPresent(m, rt)
    ensures FunctionsPresent(m, rt) ==> forall f ::
              var d := Defaults(m, rt).fields;
              (f in d <==> ValueAfter(m, rt, f).Some?) && (f in d ==> ValueAfter(m, rt, f) == Some(d[f]))
  {
    hide FunctionDefaults, ConstantDefaults, FillFunctions, FillConstants;
    FillFunctionsExact(m, FunctionDefaults(), rt);
    FillFunctionsValues(m, FunctionDefaults(), rt);
    DefaultLists();
    var c := FillFunctions(m, FunctionDefaults(), rt);
    FillConstantsExact(c.fields, ConstantDefaults(), rt);
    FillConstantsValues(c.fields, ConstantDefaults(), rt);
  }

  /** The first field, in this order, whose default function is missing stops the rest. */
  lemma DefaultsStop(m: Fields, rt: Runtime)
    ensures var d := Defaults(m, rt);
            d.missing.Some? ==>
              && d.missing.value in {CreatedAt, UpdatedAt, Credentials, Extra}
              && d.missing.value !in m && rt.function_(d.missing.value).None?
              && (forall f :: f in {CreatedAt, UpdatedAt, Credentials, Extra} && f !in m
                              && Position(f) < Position(d.missing.value) ==>
                    f in d.fields && rt.function_(f) == Some(d.fields[f]))
              && (forall f :: f in d.fields && f !in m ==>
                    f in {CreatedAt, UpdatedAt, Credentials, Extra} && Position(f) < Position(d.missing.value))
  {
  }

  /** Defaults never replace a value, and when they fail a field is left unset that `check`
      requires: ignoring the error cannot let the account through. */
  lemma FailedDefaultsFailCheck(m: Fields, rt: Runtime)
    ensures var d := Defaults(m, rt);
            && (forall f :: f in m ==> f in d.fields && d.fields[f] == m[f])
            && (d.missing.Some? ==> d.missing.value !in d.fields && Check(d.fields, rt).Some?)
  {
    FillFunctionsExact(m, FunctionDefaults(), rt);
    var d := FillFunctions(m, FunctionDefaults(), rt);
    assert SessionWindowStatus !in FunctionDefaults();
    hide FunctionDefaults, ConstantDefaults, FillFunctions, FillConstants, Check;
    FillConstantsExact(d.fields, ConstantDefaults(), rt);
    CheckExact(d.fields, rt);
    if d.missing.Some? {
      assert CheckField(d.fields, d.missing.value, rt).Some?;
    }
  }

  lemma DefaultedField(f: Field)
    ensures f in FunctionDefaults() || f in ConstantDefaults() <==>
            f !in {Name, Platform, AccountType, SessionWindowStatus}
  {
  }

  /** After defaults that succeed, `check` passes exactly when the caller set name, platform and
      type, and every validated field that is set is valid; nothing else can be missing. */
  lemma CheckAfterDefaults(m: Fields, rt: Runtime)
    requires Defaults(m, rt).missing.None?
    ensures var d := Defaults(m, rt).fields;
            && (Check(d, rt).None? <==>
                  && Name in m && Platform in m && AccountType in m
                  && forall f :: f in d && Validated(f) ==> rt.valid(f, d[f]))
            && (Check(d, rt).Some? && Check(d, rt).value.Missing? ==>
                  Check(d, rt).value.field in {Name, Platform, AccountType})
  {
    hide FunctionDefaults, ConstantDefaults, FillFunctions, FillConstants, Check;
    FillFunctionsExact(m, FunctionDefaults(), rt);
    var c := FillFunctions(m, FunctionDefaults(), rt).fields;
    FillConstantsExact(c, ConstantDefaults(), rt);
    var d := Defaults(m, rt).fields;
    CheckExact(d, rt);
    forall f
      ensures f in d <==> f in m || f !in {Name, Platform, AccountType, SessionWindowStatus}
    {
      DefaultedField(f);
    }
    if Check(d, rt).None? {
      assert CheckField(d, Name, rt).None? && CheckField(d, Platform, rt).None? && CheckField(d, AccountType, rt).None?;
      forall f | f in d && Validated(f)
        ensures rt.valid(f, d[f])
      {
        assert CheckField(d, f, rt).None?;
      }
    }
  }
}
