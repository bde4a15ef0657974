/** The generic CRUD handlers (`RestApi`): the policy-driven build of documents to save,
    the readable projection of stored documents, the update merge and the batch plans.
    Storage calls are not modelled: a handler takes the answer of `findOne` as a parameter
    and returns the document, or the plan, it hands to the store. */
module RestApi {
  import opened Results
  import opened Values
  import opened Errors
  import opened RestConfig
  import opened ResourceFactory

  // ---------------------------------------------------------------------------------------
  // convertSaveData

  /** Whether the body has an own property `hasOwnProperty`. It then shadows the method, and
      since a JSON value is never a function, `userData.hasOwnProperty(key)` throws a
      `TypeError` at the first writable field the walk reaches. */
  predicate ShadowsHasOwnProperty(input: Document)
  {
    "hasOwnProperty" in input
  }

  /** The loop of `convertSaveData` over the policy's remaining `fields`, with the document
      built so far in `acc` and the counter store threaded through. */
  function ConvertFields(fields: Policy, input: Document, resName: string, createMode: bool,
                         store: CounterStore, acc: Document): (r: Step<Document>)
    ensures r.store.online == store.online
    ensures !createMode ==> r.store == store
    ensures !createMode && !ShadowsHasOwnProperty(input) ==> r.result.Ok?
    decreases |fields|
  {
    if fields == [] then Step(Ok(acc), store)
    else
      var f := fields[0];
      if createMode && f.policy.autoIncrement then
        var drawn := GetAutoValue(store, resName, f.name);
        match drawn.result
        case Err(e) => Step(Err(e), drawn.store)
        case Ok(v) => ConvertFields(fields[1..], input, resName, createMode, drawn.store, acc[f.name := Num(v)])
      else if f.policy.writable then
        if ShadowsHasOwnProperty(input) then
          Step(Err(TypeError), store)
        else if f.name in input then
          ConvertFields(fields[1..], input, resName, createMode, store, acc[f.name := input[f.name]])
        else if createMode && f.policy.required then
          Step(Err(Rest(MissingParameter(f.name, resName))), store)
        else
          ConvertFields(fields[1..], input, resName, createMode, store, acc)
      else
        ConvertFields(fields[1..], input, resName, createMode, store, acc)
  }

  /** `convertSaveData(userData, restConfig, resourceName, createMode)`: the allow-list build
      of the document to save. Only declared fields are ever copied; update never touches
      the counters, and fails only on a body that shadows `hasOwnProperty`. */
  function ConvertSaveData(input: Document, policy: Policy, resName: string, createMode: bool,
                           store: CounterStore): (r: Step<Document>)
    ensures !createMode ==> r.store == store
    ensures !createMode && !ShadowsHasOwnProperty(input) ==> r.result.Ok?
    ensures r.result.Err? ==> createMode || ShadowsHasOwnProperty(input)
  {
    ConvertFields(policy, input, resName, createMode, store, map[])
  }

  /** Only declared fields are ever copied into the document to save, and a failure is a
      counter store error, the `TypeError` of a shadowed `hasOwnProperty`, or a declared
      field's missing parameter. */
  lemma ConvertSaveDataAllowList(input: Document, policy: Policy, resName: string, createMode: bool,
                                 store: CounterStore)
    ensures var r := ConvertSaveData(input, policy, resName, createMode, store);
      && (r.result.Ok? ==> forall k :: k in r.result.value ==> k in Names(policy))
      && (r.result.Err? ==>
            || r.result.error == StoreFailure
            || (r.result.error == TypeError && ShadowsHasOwnProperty(input))
            || (r.result.error.Rest? && r.result.error.error.MissingParameterError?
                && r.result.error.error.parameterKey in Names(policy)))
  {
    ConvertFieldsAllowList(policy, input, resName, createMode, store, map[]);
  }

  /** The walk only ever adds declared fields to what it accumulated, and it can only fail
      on a counter store error, on a shadowed `hasOwnProperty` or on a declared field's
      missing parameter. */
  lemma {:induction false} ConvertFieldsAllowList(fields: Policy, input: Document, resName: string,
                                                 createMode: bool, store: CounterStore, acc: Document)
    ensures var r := ConvertFields(fields, input, resName, createMode, store, acc);
      && (r.result.Ok? ==> acc.Keys <= r.result.value.Keys)
      && (r.result.Ok? ==> forall k :: k in r.result.value ==> k in acc || k in Names(fields))
      && (r.result.Err? ==>
            || r.result.error == StoreFailure
            || (r.result.error == TypeError && ShadowsHasOwnProperty(input))
            || (r.result.error.Rest? && r.result.error.error.MissingParameterError?
                && r.result.error.error.parameterKey in Names(fields)))
    decreases |fields|
  {
    if fields != [] {
      var f := fields[0];
      var rest := fields[1..];
      if createMode && f.policy.autoIncrement {
        var drawn := GetAutoValue(store, resName, f.name);
        if drawn.result.Ok? {
          ConvertFieldsAllowList(rest, input, resName, createMode, drawn.store, acc[f.name := Num(drawn.result.value)]);
        }
      } else if f.policy.writable && !ShadowsHasOwnProperty(input) && f.name in input {
        ConvertFieldsAllowList(rest, input, resName, createMode, store, acc[f.name := input[f.name]]);
      } else {
        ConvertFieldsAllowList(rest, input, resName, createMode, store, acc);
      }
    }
  }

  /** In create mode, whether the walk stops at field `f`: its counter draw meets an
      unreachable store, or it is a writable, non-auto-increment field and either the input
      shadows `hasOwnProperty` or the field is required and the input lacks it. */
  predicate StopsCreate(f: Field, input: Document, online: bool)
  {
    if f.policy.autoIncrement then !online
    else f.policy.writable && (ShadowsHasOwnProperty(input) || (f.policy.required && f.name !in input))
  }

  /** The error a create walk reports when it stops at `f`. */
  function CreateError(f: Field, input: Document, resName: string): Failure
  {
    if f.policy.autoIncrement then StoreFailure
    else if ShadowsHasOwnProperty(input) then TypeError
    else Rest(MissingParameter(f.name, resName))
  }

  /** Update mode: the result is the accumulated document overlaid with the input cut down
      to the declared writable fields, unless a writable field meets a shadowed
      `hasOwnProperty`; the counters are untouched either way. */
  lemma {:induction false} UpdateFieldsRestrict(fields: Policy, input: Document, resName: string,
                                               store: CounterStore, acc: Document)
    ensures ConvertFields(fields, input, resName, false, store, acc)
            == if ShadowsHasOwnProperty(input) && WritableNames(fields) != {} then Step(Err(TypeError), store)
               else Step(Ok(acc + Restrict(input, WritableNames(fields))), store)
    decreases |fields|
  {
    if fields == [] {
      NamesWhereEmpty(IsWritable);
      assert Restrict(input, WritableNames(fields)) == map[];
      assert acc + map[] == acc;
    } else if fields[0].policy.writable && ShadowsHasOwnProperty(input) {
      NamesWhereCons(fields, IsWritable);
    } else {
      var f := fields[0];
      var rest := fields[1..];
      NamesWhereCons(fields, IsWritable);
      var acc' := if f.policy.writable && f.name in input then acc[f.name := input[f.name]] else acc;
      assert ConvertFields(fields, input, resName, false, store, acc)
          == ConvertFields(rest, input, resName, false, store, acc');
      UpdateFieldsRestrict(rest, input, resName, store, acc');
      OverlayCons(acc, input, f.name, f.policy.writable, WritableNames(rest));
    }
  }

  /** Copying one writable field into the accumulator and then overlaying the rest of the
      writable input is the same as overlaying all of it at once. */
  lemma OverlayCons(acc: Document, input: Document, name: string, writable: bool, restKeys: set<string>)
    ensures (if writable && name in input then acc[name := input[name]] else acc) + Restrict(input, restKeys)
            == acc + Restrict(input, (if writable then {name} else {}) + restKeys)
  {
    var lhs := (if writable && name in input then acc[name := input[name]] else acc) + Restrict(input, restKeys);
    var rhs := acc + Restrict(input, (if writable then {name} else {}) + restKeys);
    assert lhs.Keys == rhs.Keys;
    forall k | k in lhs
      ensures lhs[k] == rhs[k]
    {
    }
  }

  /** Update mode yields exactly the input restricted to the declared writable fields; a
      body that shadows `hasOwnProperty` fails with a `TypeError` as soon as the policy has
      a writable field. */
  lemma UpdateModeRestricts(input: Document, policy: Policy, resName: string, store: CounterStore)
    ensures ConvertSaveData(input, policy, resName, false, store)
            == if ShadowsHasOwnProperty(input) && WritableNames(policy) != {} then Step(Err(TypeError), store)
               else Step(Ok(Restrict(input, WritableNames(policy))), store)
  {
    UpdateFieldsRestrict(policy, input, resName, store, map[]);
    assert map[] + Restrict(input, WritableNames(policy)) == Restrict(input, WritableNames(policy));
  }

  /** A create walk succeeds exactly when no field stops it. */
  lemma {:induction false} CreateFieldsSucceedIff(fields: Policy, input: Document, resName: string,
                                                 store: CounterStore, acc: Document)
    ensures ConvertFields(fields, input, resName, true, store, acc).result.Ok?
            <==> forall i :: 0 <= i < |fields| ==> !StopsCreate(fields[i], input, store.online)
    decreases |fields|
  {
    if fields != [] {
      var f := fields[0];
      var rest := fields[1..];
      assert forall i :: 1 <= i < |fields| ==> fields[i] == rest[i - 1];
      if f.policy.autoIncrement {
        var drawn := GetAutoValue(store, resName, f.name);
        if drawn.result.Ok? {
          CreateFieldsSucceedIff(rest, input, resName, drawn.store, acc[f.name := Num(drawn.result.value)]);
        }
      } else if f.policy.writable && !ShadowsHasOwnProperty(input) && f.name in input {
        CreateFieldsSucceedIff(rest, input, resName, store, acc[f.name := input[f.name]]);
      } else if !(f.policy.writable && (ShadowsHasOwnProperty(input) || f.policy.required)) {
        CreateFieldsSucceedIff(rest, input, resName, store, acc);
      }
    }
  }

  /** A successful create walk advances the counter of every auto-increment field by one
      and no other counter. */
  lemma {:induction false} CreateFieldsCounters(fields: Policy, input: Document, resName: string,
                                               store: CounterStore, acc: Document)
    requires DistinctNames(fields)
    requires ConvertFields(fields, input, resName, true, store, acc).result.Ok?
    ensures Advanced(store, ConvertFields(fields, input, resName, true, store, acc).store,
                     CounterKeys(resName, AutoIncrementNames(fields)))
    decreases |fields|
  {
    if fields == [] {
      NamesWhereEmpty(IsAutoIncrement);
      assert CounterKeys(resName, {}) == {};
      AdvancedNothing(store);
    } else {
      var f := fields[0];
      var rest := fields[1..];
      CreateOkFirst(fields, input, resName, store, acc);
      CreateStep(fields, input, resName, store, acc);
      var st1 := CreateStepStore(f, resName, store);
      var acc' := CreateStepAcc(f, input, resName, store, acc);
      NotInRest(fields);
      CreateFieldsCounters(rest, input, resName, st1, acc');
      AutoPrefixCons(fields, |fields|);
      assert fields[..|fields|] == fields && rest[..|fields| - 1] == rest;
      if f.policy.autoIncrement {
        AdvancedPrepend(store, st1, ConvertFields(rest, input, resName, true, st1, acc').store,
                        resName, f.name, AutoIncrementNames(rest));
      }
    }
  }

  /** The first declared name does not occur again further down a policy. */
  lemma NotInRest(fields: Policy)
    requires DistinctNames(fields)
    requires |fields| > 0
    ensures fields[0].name !in Names(fields[1..])
    ensures DistinctNames(fields[1..])
  {
    var rest := fields[1..];
    forall i | 0 <= i < |rest|
      ensures Names(rest)[i] != fields[0].name
    {
      assert rest[i] == fields[i + 1];
    }
  }

  lemma NotSelectedWhenUndeclared(p: Policy, sel: FieldPolicy -> bool, k: string)
    requires k !in Names(p)
    ensures k !in NamesWhere(p, sel)
  {
    if k in NamesWhere(p, sel) {
      NamesWhereDeclared(p, sel, k);
    }
  }

  /** A prefix of a policy declares no name the whole policy does not. */
  lemma NamesPrefix(p: Policy, n: int, k: string)
    requires 0 <= n <= |p|
    requires k !in Names(p)
    ensures k !in Names(p[..n])
  {
    forall j | 0 <= j < n
      ensures Names(p[..n])[j] != k
    {
      assert Names(p[..n])[j] == Names(p)[j];
    }
  }

  /** A counter of another field of the same resource is not disturbed by a draw. */
  lemma OtherCounterUnchanged(store: CounterStore, after: CounterStore, resName: string, f: string, k: string)
    requires Advanced(store, after, {CounterKey(resName, f)})
    requires k != f
    ensures CounterValue(after, CounterKey(resName, k)) == CounterValue(store, CounterKey(resName, k))
  {
    if CounterKey(resName, k) == CounterKey(resName, f) {
      CounterKeyInjectiveWithinResource(resName, k, f);
    }
  }

  /** One field's draw followed by the draws of other fields of the same resource advances
      all their counters. */
  lemma AdvancedPrepend(store: CounterStore, mid: CounterStore, after: CounterStore,
                        resName: string, name: string, later: set<string>)
    requires Advanced(store, mid, {CounterKey(resName, name)})
    requires Advanced(mid, after, CounterKeys(resName, later))
    requires name !in later
    ensures Advanced(store, after, CounterKeys(resName, {name} + later))
  {
    CounterKeysInsert(resName, name, later);
    AdvancedCompose(store, mid, after, {CounterKey(resName, name)}, CounterKeys(resName, later));
  }

  /** The counter store after a create walk has passed field `f` without stopping. */
  function CreateStepStore(f: Field, resName: string, store: CounterStore): CounterStore
  {
    if f.policy.autoIncrement then GetAutoValue(store, resName, f.name).store else store
  }

  /** The accumulated document after a create walk has passed field `f` without stopping. */
  function CreateStepAcc(f: Field, input: Document, resName: string, store: CounterStore, acc: Document): Document
  {
    if f.policy.autoIncrement then acc[f.name := Num(CounterValue(store, CounterKey(resName, f.name)) + 1)]
    else if f.policy.writable && f.name in input then acc[f.name := input[f.name]]
    else acc
  }

  /** One step of a create walk over a field that does not stop it. */
  lemma CreateStep(fields: Policy, input: Document, resName: string, store: CounterStore, acc: Document)
    requires fields != []
    requires !StopsCreate(fields[0], input, store.online)
    ensures ConvertFields(fields, input, resName, true, store, acc)
         == ConvertFields(fields[1..], input, resName, true,
                          CreateStepStore(fields[0], resName, store),
                          CreateStepAcc(fields[0], input, resName, store, acc))
    ensures fields[0].policy.autoIncrement ==>
              Advanced(store, CreateStepStore(fields[0], resName, store), {CounterKey(resName, fields[0].name)})
    ensures !fields[0].policy.autoIncrement ==> CreateStepStore(fields[0], resName, store) == store
    ensures CreateStepStore(fields[0], resName, store).online == store.online
  {
    if fields[0].policy.autoIncrement {
      GetAutoValueAdvances(store, resName, fields[0].name);
    }
  }

  /** A create walk that succeeds did not stop at its first field. */
  lemma CreateOkFirst(fields: Policy, input: Document, resName: string, store: CounterStore, acc: Document)
    requires fields != []
    requires ConvertFields(fields, input, resName, true, store, acc).result.Ok?
    ensures !StopsCreate(fields[0], input, store.online)
  {
  }

  /** The keys a successful create walk produces: what was accumulated, every auto-increment
      field, and every create-writable field the input has. */
  lemma {:induction false} CreateFieldsKeys(fields: Policy, input: Document, resName: string,
                                           store: CounterStore, acc: Document)
    requires ConvertFields(fields, input, resName, true, store, acc).result.Ok?
    ensures ConvertFields(fields, input, resName, true, store, acc).result.value.Keys
            == acc.Keys + AutoIncrementNames(fields) + (input.Keys * CreateWritableNames(fields))
    decreases |fields|
  {
    if fields == [] {
      NamesWhereEmpty(IsAutoIncrement);
      NamesWhereEmpty(IsCreateWritable);
    } else {
      var f := fields[0];
      CreateOkFirst(fields, input, resName, store, acc);
      CreateStep(fields, input, resName, store, acc);
      NamesWhereCons(fields, IsAutoIncrement);
      NamesWhereCons(fields, IsCreateWritable);
      CreateFieldsKeys(fields[1..], input, resName, CreateStepStore(f, resName, store),
                       CreateStepAcc(f, input, resName, store, acc));
    }
  }

  /** A successful create walk copies the create-writable fields the input has verbatim and
      keeps accumulated keys the remaining fields do not declare. */
  lemma {:induction false} CreateFieldsCopies(fields: Policy, input: Document, resName: string,
                                             store: CounterStore, acc: Document)
    requires DistinctNames(fields)
    requires ConvertFields(fields, input, resName, true, store, acc).result.Ok?
    ensures var d := ConvertFields(fields, input, resName, true, store, acc).result.value;
      && (forall k :: k in input && k in CreateWritableNames(fields) ==> k in d && d[k] == input[k])
      && (forall k :: k in acc && k !in Names(fields) ==> k in d && d[k] == acc[k])
    decreases |fields|
  {
    if fields == [] {
      NamesWhereEmpty(IsCreateWritable);
    } else {
      var f := fields[0];
      var rest := fields[1..];
      CreateOkFirst(fields, input, resName, store, acc);
      CreateStep(fields, input, resName, store, acc);
      NotInRest(fields);
      NamesWhereCons(fields, IsCreateWritable);
      var acc' := CreateStepAcc(f, input, resName, store, acc);
      CreateFieldsCopies(rest, input, resName, CreateStepStore(f, resName, store), acc');
      var d := ConvertFields(fields, input, resName, true, store, acc).result.value;
      forall k | k in acc && k !in Names(fields)
        ensures k in d && d[k] == acc[k]
      {
        assert k != f.name;
      }
    }
  }

  /** A successful create walk sets an auto-increment field to its counter's next value,
      whatever the input holds for it. */
  lemma {:induction false} CreateFieldsAutoValue(fields: Policy, input: Document, resName: string,
                                                store: CounterStore, acc: Document, k: string)
    requires DistinctNames(fields)
    requires ConvertFields(fields, input, resName, true, store, acc).result.Ok?
    requires k in AutoIncrementNames(fields)
    ensures var d := ConvertFields(fields, input, resName, true, store, acc).result.value;
      k in d && d[k] == Num(CounterValue(store, CounterKey(resName, k)) + 1)
    decreases |fields|
  {
    var f := fields[0];
    var rest := fields[1..];
    CreateOkFirst(fields, input, resName, store, acc);
    CreateStep(fields, input, resName, store, acc);
    NotInRest(fields);
    NamesWhereCons(fields, IsAutoIncrement);
    var st1 := CreateStepStore(f, resName, store);
    var acc' := CreateStepAcc(f, input, resName, store, acc);
    if k == f.name {
      CreateFieldsCopies(rest, input, resName, st1, acc');
    } else {
      CreateFieldsAutoValue(rest, input, resName, st1, acc', k);
      NamesWhereDeclared(rest, IsAutoIncrement, k);
      if f.policy.autoIncrement {
        OtherCounterUnchanged(store, st1, resName, f.name, k);
      }
    }
  }

  /** A failed create walk stops at the first field that stops it and reports that field's
      error. */
  lemma {:induction false} CreateFieldsFailure(fields: Policy, input: Document, resName: string,
                                              store: CounterStore, acc: Document)
    returns (i: int)
    requires ConvertFields(fields, input, resName, true, store, acc).result.Err?
    ensures 0 <= i < |fields|
    ensures StopsCreate(fields[i], input, store.online)
    ensures forall j :: 0 <= j < i ==> !StopsCreate(fields[j], input, store.online)
    ensures ConvertFields(fields, input, resName, true, store, acc).result.error == CreateError(fields[i], input, resName)
    decreases |fields|
  {
    var f := fields[0];
    var rest := fields[1..];
    if StopsCreate(f, input, store.online) {
      i := 0;
    } else {
      CreateStep(fields, input, resName, store, acc);
      var st1 := CreateStepStore(f, resName, store);
      var acc' := CreateStepAcc(f, input, resName, store, acc);
      var i' := CreateFieldsFailure(rest, input, resName, st1, acc');
      i := i' + 1;
      assert fields[i] == rest[i'];
      forall j | 0 <= j < i
        ensures !StopsCreate(fields[j], input, store.online)
      {
        if j > 0 {
          assert fields[j] == rest[j - 1];
        }
      }
    }
  }

  /** When a create walk first stops at field `i`, it has advanced the counters of exactly
      the auto-increment fields declared before `i`. */
  lemma {:induction false} CreateFieldsFailureCounters(fields: Policy, input: Document, resName: string,
                                                      store: CounterStore, acc: Document, i: int)
    requires DistinctNames(fields)
    requires 0 <= i < |fields|
    requires StopsCreate(fields[i], input, store.online)
    requires forall j :: 0 <= j < i ==> !StopsCreate(fields[j], input, store.online)
    ensures Advanced(store, ConvertFields(fields, input, resName, true, store, acc).store,
                     CounterKeys(resName, AutoIncrementNames(fields[..i])))
    decreases |fields|
  {
    var f := fields[0];
    var rest := fields[1..];
    if i == 0 {
      CreateStopsFirst(fields, input, resName, store, acc);
      AdvancedNothing(store);
    } else {
      CreateStep(fields, input, resName, store, acc);
      var st1 := CreateStepStore(f, resName, store);
      var acc' := CreateStepAcc(f, input, resName, store, acc);
      assert forall j :: 0 <= j < i - 1 ==> rest[j] == fields[j + 1];
      NotInRest(fields);
      CreateFieldsFailureCounters(rest, input, resName, st1, acc', i - 1);
      AutoPrefixCons(fields, i);
      AdvancedAfterStep(store, st1, ConvertFields(rest, input, resName, true, st1, acc').store, resName, f,
                        AutoIncrementNames(rest[..i - 1]), AutoIncrementNames(fields[..i]));
    }
  }

  /** Passing field `f` and then advancing the counters of `later` advances those of `f`,
      if it is auto-increment, and of `later`. */
  lemma AdvancedAfterStep(store: CounterStore, mid: CounterStore, after: CounterStore, resName: string,
                          f: Field, later: set<string>, all: set<string>)
    requires f.policy.autoIncrement ==> Advanced(store, mid, {CounterKey(resName, f.name)})
    requires !f.policy.autoIncrement ==> mid == store
    requires Advanced(mid, after, CounterKeys(resName, later))
    requires all == (if f.policy.autoIncrement then {f.name} else {}) + later
    requires f.name !in later
    ensures Advanced(store, after, CounterKeys(resName, all))
  {
    if f.policy.autoIncrement {
      AdvancedPrepend(store, mid, after, resName, f.name, later);
    } else {
      assert all == later;
    }
  }

  /** A create walk that stops at its first field reports that field's error and leaves the
      counters as they were. */
  lemma CreateStopsFirst(fields: Policy, input: Document, resName: string, store: CounterStore, acc: Document)
    requires fields != []
    requires StopsCreate(fields[0], input, store.online)
    ensures ConvertFields(fields, input, resName, true, store, acc) == Step(Err(CreateError(fields[0], input, resName)), store)
    ensures AutoIncrementNames(fields[..0]) == {}
  {
    assert fields[..0] == [];
    NamesWhereEmpty(IsAutoIncrement);
  }

  /** The auto-increment fields of a non-empty prefix: the first field's, if it is one, and
      those of the rest of the prefix, which with distinct names never repeat it. */
  lemma AutoPrefixCons(fields: Policy, i: int)
    requires DistinctNames(fields)
    requires 0 < i <= |fields|
    ensures AutoIncrementNames(fields[..i])
            == (if fields[0].policy.autoIncrement then {fields[0].name} else {}) + AutoIncrementNames(fields[1..][..i - 1])
    ensures fields[0].name !in AutoIncrementNames(fields[1..][..i - 1])
  {
    var prefix := fields[..i];
    assert prefix[1..] == fields[1..][..i - 1];
    NamesWhereCons(prefix, IsAutoIncrement);
    NotInRest(fields);
    NamesPrefix(fields[1..], i - 1, fields[0].name);
    NotSelectedWhenUndeclared(fields[1..][..i - 1], IsAutoIncrement, fields[0].name);
  }

  /** Create mode succeeds exactly when no declared field stops it: every required,
      writable, non-auto-increment field is present, and the counter store answers if any
      field is auto-increment. */
  lemma CreateSucceedsIff(input: Document, policy: Policy, resName: string, store: CounterStore)
    ensures ConvertSaveData(input, policy, resName, true, store).result.Ok?
            <==> forall i :: 0 <= i < |policy| ==> !StopsCreate(policy[i], input, store.online)
  {
    CreateFieldsSucceedIff(policy, input, resName, store, map[]);
  }

  /** A successful create yields exactly the auto-increment fields, each holding the next
      value of its own counter whatever the caller sent, plus the writable fields the input
      has, copied verbatim. Each auto-increment counter advanced by one, no other moved, and
      the stored counter equals the value placed in the document. */
  lemma CreateResult(input: Document, policy: Policy, resName: string, store: CounterStore)
    requires DistinctNames(policy)
    requires ConvertSaveData(input, policy, resName, true, store).result.Ok?
    ensures var r := ConvertSaveData(input, policy, resName, true, store);
      && r.result.value.Keys == AutoIncrementNames(policy) + (input.Keys * CreateWritableNames(policy))
      && (forall k :: k in AutoIncrementNames(policy) ==>
            && r.result.value[k] == Num(CounterValue(store, CounterKey(resName, k)) + 1)
            && r.result.value[k] == Num(CounterValue(r.store, CounterKey(resName, k))))
      && (forall k :: k in input && k in CreateWritableNames(policy) ==> r.result.value[k] == input[k])
      && Advanced(store, r.store, CounterKeys(resName, AutoIncrementNames(policy)))
  {
    CreateFieldsKeys(policy, input, resName, store, map[]);
    CreateFieldsCopies(policy, input, resName, store, map[]);
    CreateFieldsCounters(policy, input, resName, store, map[]);
    var r := ConvertSaveData(input, policy, resName, true, store);
    forall k | k in AutoIncrementNames(policy)
      ensures k in r.result.value && r.result.value[k] == Num(CounterValue(store, CounterKey(resName, k)) + 1)
      ensures CounterKey(resName, k) in CounterKeys(resName, AutoIncrementNames(policy))
    {
      CreateFieldsAutoValue(policy, input, resName, store, map[], k);
    }
  }

  /** A failed create names the first declared field that stops it: a required, writable,
      non-auto-increment field missing from the input (`MissingParameterError` carrying its
      name), the first writable non-auto-increment field when the input shadows
      `hasOwnProperty` (`TypeError`), or an auto-increment field whose counter store
      failed. The counters of the auto-increment fields declared before it have already
      advanced. */
  lemma CreateFailure(input: Document, policy: Policy, resName: string, store: CounterStore)
    returns (i: int)
    requires DistinctNames(policy)
    requires ConvertSaveData(input, policy, resName, true, store).result.Err?
    ensures 0 <= i < |policy|
    ensures forall j :: 0 <= j < i ==> !StopsCreate(policy[j], input, store.online)
    ensures var r := ConvertSaveData(input, policy, resName, true, store);
      && Advanced(store, r.store, CounterKeys(resName, AutoIncrementNames(policy[..i])))
      && r.result.error == CreateError(policy[i], input, resName)
      && (r.result.error.Rest? ==>
            && r.result.error.error.MissingParameterError?
            && r.result.error.error.parameterKey == policy[i].name
            && policy[i].policy.writable && policy[i].policy.required
            && !policy[i].policy.autoIncrement && policy[i].name !in input)
      && (r.result.error == StoreFailure ==> policy[i].policy.autoIncrement && !store.online)
      && (r.result.error == TypeError ==>
            ShadowsHasOwnProperty(input) && policy[i].policy.writable && !policy[i].policy.autoIncrement)
  {
    i := CreateFieldsFailure(policy, input, resName, store, map[]);
    CreateFieldsFailureCounters(policy, input, resName, store, map[], i);
  }

  /** A declared field that is not writable, and not auto-increment in create mode, never
      appears in the built document, whatever the caller sent. */
  lemma NonWritableNeverCopied(input: Document, policy: Policy, resName: string, createMode: bool,
                               store: CounterStore, i: int)
    requires DistinctNames(policy)
    requires 0 <= i < |policy|
    requires !policy[i].policy.writable
    requires !(createMode && policy[i].policy.autoIncrement)
    ensures var r := ConvertSaveData(input, policy, resName, createMode, store);
      r.result.Ok? ==> policy[i].name !in r.result.value
  {
    if createMode {
      if ConvertSaveData(input, policy, resName, createMode, store).result.Ok? {
        CreateResult(input, policy, resName, store);
        NamesWhereAt(policy, IsAutoIncrement, i);
        NamesWhereAt(policy, IsCreateWritable, i);
      }
    } else {
      UpdateModeRestricts(input, policy, resName, store);
      NamesWhereAt(policy, IsWritable, i);
    }
  }

  /** In update mode an auto-increment field is governed by its `writable` flag alone: when
      writable, the caller's value is copied (or, on a body shadowing `hasOwnProperty`, the
      walk throws on reaching it). */
  lemma UpdateWritesWritableAutoIncrement(input: Document, policy: Policy, resName: string,
                                          store: CounterStore, i: int)
    requires DistinctNames(policy)
    requires 0 <= i < |policy|
    requires policy[i].policy.autoIncrement && policy[i].policy.writable
    requires policy[i].name in input
    ensures var r := ConvertSaveData(input, policy, resName, false, store).result;
      && (ShadowsHasOwnProperty(input) ==> r == Err(TypeError))
      && (!ShadowsHasOwnProperty(input) ==>
            r.Ok? && policy[i].name in r.value && r.value[policy[i].name] == input[policy[i].name])
  {
    UpdateModeRestricts(input, policy, resName, store);
    NamesWhereAt(policy, IsWritable, i);
  }

  // ---------------------------------------------------------------------------------------
  // Output projection and update merge

  /** `_.pickBy(doc, (value, key) => restConfig.isReadable(key))`. */
  function Project(doc: Document, policy: Policy): (r: Document)
    ensures r.Keys <= doc.Keys
    ensures forall k :: k in r ==> r[k] == doc[k]
    ensures forall k :: k in doc && k !in Names(policy) ==> k in r
  {
    map k | k in doc && IsReadable(policy, k) :: doc[k]
  }

  /** When the unreadable names among a document's fields are exactly `hidden`, projection
      removes exactly those fields. */
  lemma ProjectHides(doc: Document, policy: Policy, hidden: set<string>)
    requires forall k :: k in doc ==> (IsReadable(policy, k) <==> k !in hidden)
    ensures Project(doc, policy).Keys == doc.Keys - hidden
  {
  }

  /** Projecting twice is projecting once. */
  lemma ProjectIdempotent(doc: Document, policy: Policy)
    ensures Project(Project(doc, policy), policy) == Project(doc, policy)
  {
  }

  /** A projection holds exactly the readable keys of its input: a field declared with
      `readable: false` never appears, every other key of the input does. */
  lemma ProjectExactlyReadable(doc: Document, policy: Policy)
    requires DistinctNames(policy)
    ensures forall i :: 0 <= i < |policy| && !policy[i].policy.readable ==> policy[i].name !in Project(doc, policy)
    ensures forall k :: k in doc ==>
              (k in Project(doc, policy) <==> forall i :: 0 <= i < |policy| && policy[i].name == k ==> policy[i].policy.readable)
  {
    forall i | 0 <= i < |policy| && !policy[i].policy.readable
      ensures policy[i].name !in Project(doc, policy)
    {
      FindDeclared(policy, i);
    }
    forall k | k in doc
      ensures k in Project(doc, policy) <==> forall i :: 0 <= i < |policy| && policy[i].name == k ==> policy[i].policy.readable
    {
      IsReadableExactly(policy, k);
    }
  }

  /** The projection as the library's code computes it, through `IsReadableAsWritten`: it also
      drops undeclared keys named like `Object.prototype` members. */
  function ProjectAsWritten(doc: Document, policy: Policy): (r: Document)
    ensures r.Keys <= Project(doc, policy).Keys
    ensures forall k :: k in r ==> r[k] == doc[k]
  {
    map k | k in doc && IsReadableAsWritten(policy, k) :: doc[k]
  }

  /** The library's projection loses, compared with the intended one, exactly the stored
      fields that are undeclared and named like an `Object.prototype` member. */
  lemma ProjectAsWrittenLosesInherited(doc: Document, policy: Policy)
    ensures forall k :: k in doc ==>
              (k in Project(doc, policy) && k !in ProjectAsWritten(doc, policy)
               <==> k !in Names(policy) && k in ObjectPrototypeNames)
  {
    forall k | k in doc
      ensures k in Project(doc, policy) && k !in ProjectAsWritten(doc, policy)
              <==> k !in Names(policy) && k in ObjectPrototypeNames
    {
      IsReadableAsWrittenHidesInherited(policy, k);
    }
  }

  /** A stored document with a field `constructor` that the policy does not mention loses
      that field in the library's response, although nothing declares it unreadable. */
  lemma ProjectAsWrittenDropsConstructor()
    ensures var doc := map["constructor" := Str("Zeus")];
      ProjectAsWritten(doc, []) == map[] && Project(doc, []) == doc
  {
    var doc := map["constructor" := Str("Zeus")];
    assert "constructor" in ObjectPrototypeNames;
    assert ProjectAsWritten(doc, []).Keys == {};
  }

  /** `Object.assign(target, source)`: every key of `source` overwrites, every other key of
      `target` stays as it was. */
  function Assign(target: Document, source: Document): (r: Document)
    ensures r.Keys == target.Keys + source.Keys
    ensures forall k :: k in source ==> r[k] == source[k]
    ensures forall k :: k in target && k !in source ==> r[k] == target[k]
  {
    target + source
  }

  // ---------------------------------------------------------------------------------------
  // Batch requests

  /** A request body: one object, or an array (`req.body instanceof Array`). */
  datatype Body<T> = One(item: T) | Many(items: seq<T>)

  /** `req.body instanceof Array ? req.body : [req.body]`. */
  function Items<T>(body: Body<T>): (items: seq<T>)
    ensures body.One? ==> items == [body.item]
    ensures body.Many? ==> items == body.items
  {
    match body
    case One(x) => [x]
    case Many(xs) => xs
  }

  /** `_.chain(items).map(pk).filter(x => x !== undefined)`: the primary-key values of the
      items that have one, in item order. */
  function PrimaryKeyValues(items: seq<Value>, pk: string): (ids: seq<Value>)
    ensures |ids| <= |items|
    ensures forall v :: v in ids ==> v != Undefined
  {
    if items == [] then [] else ItemIds(items[0], pk) + PrimaryKeyValues(items[1..], pk)
  }

  /** What one item adds to the collected ids: its primary-key value when that is defined. */
  function ItemIds(item: Value, pk: string): (ids: seq<Value>)
    ensures |ids| <= 1
    ensures Undefined !in ids
  {
    var v := Property(item, pk);
    if v == Undefined then [] else [v]
  }

  /** Batch delete collects exactly the defined primary-key values of the items. */
  lemma {:induction false} PrimaryKeyValuesExactly(items: seq<Value>, pk: string)
    ensures forall v :: v in PrimaryKeyValues(items, pk) <==>
              v != Undefined && exists i :: 0 <= i < |items| && Property(items[i], pk) == v
    decreases |items|
  {
    if items != [] {
      var rest := items[1..];
      PrimaryKeyValuesExactly(rest, pk);
      forall v | v != Undefined && (exists i :: 0 <= i < |items| && Property(items[i], pk) == v)
        ensures v in PrimaryKeyValues(items, pk)
      {
        var i :| 0 <= i < |items| && Property(items[i], pk) == v;
        if i > 0 {
          assert rest[i - 1] == items[i];
        }
      }
      forall v | v in PrimaryKeyValues(rest, pk)
        ensures exists i :: 0 <= i < |items| && Property(items[i], pk) == v
      {
        var i :| 0 <= i < |rest| && Property(rest[i], pk) == v;
        assert items[i + 1] == rest[i];
      }
    }
  }

  /** The values of a concatenation are the values of each part, in order. */
  lemma {:induction false} PrimaryKeyValuesAppend(a: seq<Value>, b: seq<Value>, pk: string)
    ensures PrimaryKeyValues(a + b, pk) == PrimaryKeyValues(a, pk) + PrimaryKeyValues(b, pk)
    decreases |a|
  {
    if a == [] {
      assert a + b == b;
    } else {
      assert (a + b)[0] == a[0] && (a + b)[1..] == a[1..] + b;
      PrimaryKeyValuesAppend(a[1..], b, pk);
    }
  }

  /** One item contributes its primary-key value once when it is defined, and nothing
      otherwise; with `PrimaryKeyValuesAppend` this fixes both order and multiplicity. */
  lemma PrimaryKeyValuesOne(x: Value, pk: string)
    ensures PrimaryKeyValues([x], pk) == if Property(x, pk) == Undefined then [] else [Property(x, pk)]
  {
    assert [x][1..] == [];
  }

  /** What batch delete answers or asks the store for. */
  datatype DeletePlan =
    | NothingDeleted                              // `{deleted: 0}`, store untouched
    | DeleteMany(key: string, ids: seq<Value>)    // `deleteMany({[key]: {$in: ids}})`

  /** One `updateOne` operation of a bulk write. */
  datatype UpdateOne = UpdateOne(filterKey: string, filterValue: Value, update: Document)

  /** What batch update answers or asks the store for. */
  datatype UpdatePlan =
    | NothingUpdated                              // `{updated: 0}`, store untouched
    | BulkWrite(ops: seq<UpdateOne>)

  /** The `updateOne` operation of one batch-update item: filter on the item's own
      primary-key value, write what update mode builds from the item. */
  function UpdateOp(doc: Document, policy: Policy, resName: string, store: CounterStore)
    : (r: Result<UpdateOne, Failure>)
    ensures r.Ok? <==> !(ShadowsHasOwnProperty(doc) && WritableNames(policy) != {})
    ensures r.Ok? ==> r.value == UpdateOne(PrimaryKey(policy), Get(doc, PrimaryKey(policy)),
                                            Restrict(doc, WritableNames(policy)))
    ensures r.Err? ==> r.error == TypeError
  {
    UpdateModeRestricts(doc, policy, resName, store);
    match ConvertSaveData(doc, policy, resName, false, store).result
    case Err(e) => Err(e)
    case Ok(update) => Ok(UpdateOne(PrimaryKey(policy), Get(doc, PrimaryKey(policy)), update))
  }

  /** The `updateOne` operations of a batch update, one per item, in item order; the batch
      rejects when any item's conversion does. */
  function UpdateOps(docs: seq<Document>, policy: Policy, resName: string, store: CounterStore)
    : (r: Result<seq<UpdateOne>, Failure>)
    ensures r.Ok? ==> |r.value| == |docs|
    ensures r.Ok? ==> forall i :: 0 <= i < |docs| ==> UpdateOp(docs[i], policy, resName, store) == Ok(r.value[i])
    ensures r.Err? ==> r.error == TypeError
    decreases |docs|
  {
    if docs == [] then Ok([])
    else
      match UpdateOp(docs[0], policy, resName, store)
      case Err(e) => Err(e)
      case Ok(op) =>
        match UpdateOps(docs[1..], policy, resName, store)
        case Err(e) => Err(e)
        case Ok(ops) =>
          assert forall i :: 1 <= i < |docs| ==> docs[i] == docs[1..][i - 1];
          Ok([op] + ops)
  }

  /** A batch update builds its operations exactly when no item shadows `hasOwnProperty`
      or the policy has no writable field. */
  lemma {:induction false} UpdateOpsFails(docs: seq<Document>, policy: Policy, resName: string, store: CounterStore)
    ensures UpdateOps(docs, policy, resName, store).Err?
            <==> WritableNames(policy) != {} && exists i :: 0 <= i < |docs| && ShadowsHasOwnProperty(docs[i])
    decreases |docs|
  {
    if docs != [] {
      UpdateOpsFails(docs[1..], policy, resName, store);
      if exists i :: 0 <= i < |docs[1..]| && ShadowsHasOwnProperty(docs[1..][i]) {
        var i :| 0 <= i < |docs[1..]| && ShadowsHasOwnProperty(docs[1..][i]);
        assert ShadowsHasOwnProperty(docs[i + 1]);
      }
      if exists i :: 0 <= i < |docs| && ShadowsHasOwnProperty(docs[i]) {
        var i :| 0 <= i < |docs| && ShadowsHasOwnProperty(docs[i]);
        if i > 0 {
          assert ShadowsHasOwnProperty(docs[1..][i - 1]);
        }
      }
    }
  }

  // ---------------------------------------------------------------------------------------
  // Route handlers

  /** The lookups every handler starts with: `resourceModel(name)`, then `restConfig(name)`. */
  function Resolve(reg: Registry, resourceName: string): (r: Result<Policy, Failure>)
    ensures r.Ok? <==> resourceName in reg.modelMap && resourceName in reg.restConfigs
    ensures r.Ok? ==> r.value == reg.restConfigs[resourceName]
    ensures r.Err? ==> r.error == Rest(SchemaNotConfigured(resourceName))
  {
    match ResourceModelOf(reg, resourceName)
    case Err(e) => Err(e)
    case Ok(_) => RestConfigOf(reg, resourceName)
  }

  /** The store's `findOne({[key]: value})`, supplied by the caller of a handler. */
  type FindOne = (string, Value) -> Option<Document>

  /** GET /:resource/:id: the projection of the document whose primary key equals `id`. */
  function GetOne(reg: Registry, resourceName: string, id: string, findOne: FindOne)
    : (r: Result<Document, Failure>)
    ensures Resolve(reg, resourceName).Err? ==> r == Err(Rest(SchemaNotConfigured(resourceName)))
    ensures r.Ok? ==> Resolve(reg, resourceName).Ok?
    ensures r.Ok? ==> var p := reg.restConfigs[resourceName];
      findOne(PrimaryKey(p), Str(id)).Some? && r.value == Project(findOne(PrimaryKey(p), Str(id)).value, p)
    ensures r.Err? && Resolve(reg, resourceName).Ok? ==>
      r.error == Rest(NotFound(resourceName, id)) && findOne(PrimaryKey(reg.restConfigs[resourceName]), Str(id)).None?
  {
    match Resolve(reg, resourceName)
    case Err(e) => Err(e)
    case Ok(p) =>
      match findOne(PrimaryKey(p), Str(id))
      case None => Err(Rest(NotFound(resourceName, id)))
      case Some(doc) => Ok(Project(doc, p))
  }

  /** What the library's code answers for get differs from `GetOne` only on fields that are
      undeclared and named like an `Object.prototype` member, which it drops. */
  lemma GetOneAsWritten(reg: Registry, resourceName: string, id: string, findOne: FindOne)
    requires GetOne(reg, resourceName, id, findOne).Ok?
    ensures var p := reg.restConfigs[resourceName];
      var doc := findOne(PrimaryKey(p), Str(id)).value;
      var r := GetOne(reg, resourceName, id, findOne).value;
      && ProjectAsWritten(doc, p).Keys <= r.Keys
      && (forall k :: k in r ==> (k in ProjectAsWritten(doc, p) <==> k in Names(p) || k !in ObjectPrototypeNames))
      && (forall k :: k in ProjectAsWritten(doc, p) ==> ProjectAsWritten(doc, p)[k] == r[k])
  {
    var p := reg.restConfigs[resourceName];
    var doc := findOne(PrimaryKey(p), Str(id)).value;
    ProjectAsWrittenLosesInherited(doc, p);
  }

  /** GET /:resource: every stored document, each projected. */
  function List(reg: Registry, resourceName: string, docs: seq<Document>)
    : (r: Result<seq<Document>, Failure>)
    ensures r.Ok? <==> Resolve(reg, resourceName).Ok?
    ensures r.Err? ==> r.error == Rest(SchemaNotConfigured(resourceName))
    ensures r.Ok? ==> |r.value| == |docs|
    ensures r.Ok? ==> forall i :: 0 <= i < |docs| ==> r.value[i] == Project(docs[i], reg.restConfigs[resourceName])
  {
    match Resolve(reg, resourceName)
    case Err(e) => Err(e)
    case Ok(p) => Ok(seq(|docs|, i requires 0 <= i < |docs| => Project(docs[i], p)))
  }

  /** Creates for the items of a batch, one after the other, stopping at the first error;
      the counter store is threaded through and kept on the error path. */
  function CreateAll(docs: seq<Document>, policy: Policy, resName: string, store: CounterStore)
    : (r: Step<seq<Document>>)
    ensures r.result.Ok? ==> |r.result.value| == |docs|
    decreases |docs|
  {
    if docs == [] then Step(Ok([]), store)
    else
      var first := ConvertSaveData(docs[0], policy, resName, true, store);
      match first.result
      case Err(e) => Step(Err(e), first.store)
      case Ok(d) =>
        var rest := CreateAll(docs[1..], policy, resName, first.store);
        match rest.result
        case Err(e) => Step(Err(e), rest.store)
        case Ok(ds) => Step(Ok([d] + ds), rest.store)
  }

  /** POST /:resource: the document, or documents, to insert. */
  function Create(reg: Registry, resourceName: string, body: Body<Document>, store: CounterStore)
    : (r: Step<Body<Document>>)
    ensures Resolve(reg, resourceName).Err? ==> r == Step(Err(Rest(SchemaNotConfigured(resourceName))), store)
    ensures Resolve(reg, resourceName).Ok? && body.One? ==>
      var s := ConvertSaveData(body.item, reg.restConfigs[resourceName], resourceName, true, store);
      && r.store == s.store
      && (r.result.Ok? <==> s.result.Ok?)
      && (r.result.Ok? ==> r.result.value == One(s.result.value))
      && (r.result.Err? ==> r.result.error == s.result.error)
    ensures Resolve(reg, resourceName).Ok? && body.Many? ==>
      var s := CreateAll(body.items, reg.restConfigs[resourceName], resourceName, store);
      && r.store == s.store
      && (r.result.Ok? <==> s.result.Ok?)
      && (r.result.Ok? ==> r.result.value == Many(s.result.value))
      && (r.result.Err? ==> r.result.error == s.result.error)
  {
    match Resolve(reg, resourceName)
    case Err(e) => Step(Err(e), store)
    case Ok(p) =>
      match body
      case One(doc) =>
        var s := ConvertSaveData(doc, p, resourceName, true, store);
        (match s.result
         case Err(e) => Step(Err(e), s.store)
         case Ok(d) => Step(Ok(One(d)), s.store))
      case Many(docs) =>
        var s := CreateAll(docs, p, resourceName, store);
        (match s.result
         case Err(e) => Step(Err(e), s.store)
         case Ok(ds) => Step(Ok(Many(ds)), s.store))
  }

  /** PUT /:resource/:id: the matched document with the caller's writable fields assigned
      over it. */
  function UpdateOneById(reg: Registry, resourceName: string, id: string, body: Document,
                         findOne: FindOne, store: CounterStore)
    : (r: Result<Document, Failure>)
    ensures Resolve(reg, resourceName).Err? ==> r == Err(Rest(SchemaNotConfigured(resourceName)))
    ensures Resolve(reg, resourceName).Ok? ==>
      var p := reg.restConfigs[resourceName];
      var matched := findOne(PrimaryKey(p), Str(id));
      && (matched.None? ==> r == Err(Rest(NotFound(resourceName, id))))
      && (matched.Some? && ShadowsHasOwnProperty(body) && WritableNames(p) != {} ==> r == Err(TypeError))
      && (matched.Some? && !(ShadowsHasOwnProperty(body) && WritableNames(p) != {}) ==>
            r == Ok(Assign(matched.value, Restrict(body, WritableNames(p)))))
  {
    match Resolve(reg, resourceName)
    case Err(e) => Err(e)
    case Ok(p) =>
      match findOne(PrimaryKey(p), Str(id))
      case None => Err(Rest(NotFound(resourceName, id)))
      case Some(doc) =>
        UpdateModeRestricts(body, p, resourceName, store);
        match ConvertSaveData(body, p, resourceName, false, store).result
        case Err(e) => Err(e)
        case Ok(updateData) => Ok(Assign(doc, updateData))
  }

  /** DELETE /:resource/:id: the document to remove. */
  function DeleteOneById(reg: Registry, resourceName: string, id: string, findOne: FindOne)
    : (r: Result<Document, Failure>)
    ensures Resolve(reg, resourceName).Err? ==> r == Err(Rest(SchemaNotConfigured(resourceName)))
    ensures r.Ok? ==> Resolve(reg, resourceName).Ok?
    ensures r.Ok? ==> Some(r.value) == findOne(PrimaryKey(reg.restConfigs[resourceName]), Str(id))
    ensures r.Err? && Resolve(reg, resourceName).Ok? ==>
      r.error == Rest(NotFound(resourceName, id)) && findOne(PrimaryKey(reg.restConfigs[resourceName]), Str(id)).None?
  {
    match Resolve(reg, resourceName)
    case Err(e) => Err(e)
    case Ok(p) =>
      match findOne(PrimaryKey(p), Str(id))
      case None => Err(Rest(NotFound(resourceName, id)))
      case Some(doc) => Ok(doc)
  }

  /** POST /:resource/batch-delete. */
  function DeleteMultiple(reg: Registry, resourceName: string, body: Body<Value>)
    : (r: Result<DeletePlan, Failure>)
    ensures r.Ok? <==> Resolve(reg, resourceName).Ok?
    ensures r.Err? ==> r.error == Rest(SchemaNotConfigured(resourceName))
    ensures r.Ok? ==> var pk := PrimaryKey(reg.restConfigs[resourceName]);
      (r.value == NothingDeleted <==> PrimaryKeyValues(Items(body), pk) == [])
    ensures r.Ok? && r.value.DeleteMany? ==> var pk := PrimaryKey(reg.restConfigs[resourceName]);
      && r.value.key == pk
      && r.value.ids == PrimaryKeyValues(Items(body), pk)
      && |r.value.ids| > 0
  {
    match Resolve(reg, resourceName)
    case Err(e) => Err(e)
    case Ok(p) =>
      var ids := PrimaryKeyValues(Items(body), PrimaryKey(p));
      if |ids| == 0 then Ok(NothingDeleted) else Ok(DeleteMany(PrimaryKey(p), ids))
  }

  /** PUT /:resource. */
  function UpdateMultiple(reg: Registry, resourceName: string, body: Body<Document>, store: CounterStore)
    : (r: Result<UpdatePlan, Failure>)
    ensures Resolve(reg, resourceName).Err? ==> r == Err(Rest(SchemaNotConfigured(resourceName)))
    ensures r.Ok? ==> Resolve(reg, resourceName).Ok?
    ensures r.Ok? ==> (r.value == NothingUpdated <==> body == Many([]))
    ensures r.Ok? && r.value.BulkWrite? ==>
      var p := reg.restConfigs[resourceName];
      var items := Items(body);
      && |r.value.ops| == |items|
      && forall i :: 0 <= i < |items| ==>
           r.value.ops[i] == UpdateOne(PrimaryKey(p), Get(items[i], PrimaryKey(p)), Restrict(items[i], WritableNames(p)))
    ensures r.Err? && Resolve(reg, resourceName).Ok? ==>
      && r.error == TypeError
      && WritableNames(reg.restConfigs[resourceName]) != {}
      && exists i :: 0 <= i < |Items(body)| && ShadowsHasOwnProperty(Items(body)[i])
  {
    match Resolve(reg, resourceName)
    case Err(e) => Err(e)
    case Ok(p) =>
      var items := Items(body);
      if |items| == 0 then Ok(NothingUpdated)
      else
        UpdateOpsFails(items, p, resourceName, store);
        match UpdateOps(items, p, resourceName, store)
        case Err(e) => Err(e)
        case Ok(ops) => Ok(BulkWrite(ops))
  }

  /** Single update overwrites exactly the caller's declared writable fields and leaves every
      other field of the matched document as it was. */
  lemma UpdateMerge(reg: Registry, resourceName: string, id: string, body: Document,
                    findOne: FindOne, store: CounterStore)
    requires UpdateOneById(reg, resourceName, id, body, findOne, store).Ok?
    ensures var p := reg.restConfigs[resourceName];
      var matched := findOne(PrimaryKey(p), Str(id));
      var r := UpdateOneById(reg, resourceName, id, body, findOne, store).value;
      && matched.Some?
      && r == Assign(matched.value, Restrict(body, WritableNames(p)))
      && (forall k :: k in body && k in WritableNames(p) ==> k in r && r[k] == body[k])
      && (forall k :: !(k in body && k in WritableNames(p)) ==>
            (k in r <==> k in matched.value) && (k in r ==> r[k] == matched.value[k]))
  {
    var p := reg.restConfigs[resourceName];
    UpdateModeRestricts(body, p, resourceName, store);
  }

  /** Numbering from `start + 1` is kept when a document numbered `start + 1` is put in front
      of documents numbered from `start + 2`. */
  lemma NumberedCons(d: Document, ds: seq<Document>, k: string, start: int)
    requires k in d && d[k] == Num(start + 1)
    requires forall n :: 0 <= n < |ds| ==> k in ds[n] && ds[n][k] == Num(start + 1 + n + 1)
    ensures forall n :: 0 <= n < |[d] + ds| ==> k in ([d] + ds)[n] && ([d] + ds)[n][k] == Num(start + n + 1)
  {
    forall n | 0 < n < |[d] + ds|
      ensures k in ([d] + ds)[n] && ([d] + ds)[n][k] == Num(start + n + 1)
    {
      assert ([d] + ds)[n] == ds[n - 1];
    }
  }

  /** A document no field stops when the counter store answers. */
  ghost predicate Admissible(input: Document, policy: Policy)
  {
    forall i :: 0 <= i < |policy| ==> !StopsCreate(policy[i], input, true)
  }

  /** An admissible document is created whenever the counter store answers. */
  lemma AdmissibleCreates(input: Document, policy: Policy, resName: string, store: CounterStore)
    requires Admissible(input, policy)
    requires store.online
    ensures ConvertSaveData(input, policy, resName, true, store).result.Ok?
  {
    CreateSucceedsIff(input, policy, resName, store);
  }

  /** A batch whose first item and remaining items both succeed returns the first item's
      document in front of the others'. */
  lemma CreateAllCons(docs: seq<Document>, policy: Policy, resName: string, store: CounterStore)
    requires docs != []
    requires ConvertSaveData(docs[0], policy, resName, true, store).result.Ok?
    requires CreateAll(docs[1..], policy, resName, ConvertSaveData(docs[0], policy, resName, true, store).store).result.Ok?
    ensures var first := ConvertSaveData(docs[0], policy, resName, true, store);
      var tail := CreateAll(docs[1..], policy, resName, first.store);
      CreateAll(docs, policy, resName, store) == Step(Ok([first.result.value] + tail.result.value), tail.store)
  {
  }

  /** One admissible create advances an auto-increment field's counter by one and puts the
      new value in the document. */
  lemma CreateAdvancesCounter(input: Document, policy: Policy, resName: string, store: CounterStore, k: string)
    requires DistinctNames(policy)
    requires ConvertSaveData(input, policy, resName, true, store).result.Ok?
    requires k in AutoIncrementNames(policy)
    ensures var r := ConvertSaveData(input, policy, resName, true, store);
      && k in r.result.value
      && r.result.value[k] == Num(CounterValue(store, CounterKey(resName, k)) + 1)
      && CounterValue(r.store, CounterKey(resName, k)) == CounterValue(store, CounterKey(resName, k)) + 1
      && r.store.online == store.online
  {
    CreateFieldsAutoValue(policy, input, resName, store, map[], k);
    CreateFieldsCounters(policy, input, resName, store, map[]);
    assert CounterKey(resName, k) in CounterKeys(resName, AutoIncrementNames(policy));
  }

  /** N creates in a row, each admissible, number every auto-increment field consecutively
      from its counter's value before the batch: no value is skipped or repeated. */
  lemma {:induction false} CreateAllNumbersConsecutively(docs: seq<Document>, policy: Policy, resName: string,
                                                        store: CounterStore, k: string)
    requires DistinctNames(policy)
    requires store.online
    requires forall n :: 0 <= n < |docs| ==> Admissible(docs[n], policy)
    requires k in AutoIncrementNames(policy)
    ensures var r := CreateAll(docs, policy, resName, store);
      && r.result.Ok?
      && r.store.online
      && (forall n :: 0 <= n < |docs| ==>
            k in r.result.value[n] && r.result.value[n][k] == Num(CounterValue(store, CounterKey(resName, k)) + n + 1))
      && CounterValue(r.store, CounterKey(resName, k)) == CounterValue(store, CounterKey(resName, k)) + |docs|
    decreases |docs|
  {
    if docs != [] {
      var c := CounterKey(resName, k);
      var first := ConvertSaveData(docs[0], policy, resName, true, store);
      assert first.result.Ok? && first.store.online && k in first.result.value
          && first.result.value[k] == Num(CounterValue(store, c) + 1)
          && CounterValue(first.store, c) == CounterValue(store, c) + 1 by {
        AdmissibleCreates(docs[0], policy, resName, store);
        CreateAdvancesCounter(docs[0], policy, resName, store, k);
      }
      var rest := docs[1..];
      assert forall n :: 0 <= n < |rest| ==> Admissible(rest[n], policy) by {
        assert forall n :: 0 <= n < |rest| ==> rest[n] == docs[n + 1];
      }
      CreateAllNumbersConsecutively(rest, policy, resName, first.store, k);
      var tail := CreateAll(rest, policy, resName, first.store);
      CreateAllCons(docs, policy, resName, store);
      NumberedCons(first.result.value, tail.result.value, k, CounterValue(store, c));
    }
  }

  /** The counter store after the first `n` items of a batch have been converted one after
      the other. */
  function BatchStore(docs: seq<Document>, policy: Policy, resName: string, store: CounterStore, n: nat)
    : CounterStore
    requires n <= |docs|
    decreases n
  {
    if n == 0 then store
    else BatchStore(docs[1..], policy, resName, ConvertSaveData(docs[0], policy, resName, true, store).store, n - 1)
  }

  /** A successful batch holds, at each position, the document that converting that item
      builds from the counter store the earlier items left, and ends with the store all the
      items leave. */
  lemma {:induction false} CreateAllDocuments(docs: seq<Document>, policy: Policy, resName: string,
                                             store: CounterStore)
    requires CreateAll(docs, policy, resName, store).result.Ok?
    ensures var r := CreateAll(docs, policy, resName, store);
      && r.store == BatchStore(docs, policy, resName, store, |docs|)
      && forall n :: 0 <= n < |docs| ==>
           ConvertSaveData(docs[n], policy, resName, true, BatchStore(docs, policy, resName, store, n)).result
             == Ok(r.result.value[n])
    decreases |docs|
  {
    if docs != [] {
      var first := ConvertSaveData(docs[0], policy, resName, true, store);
      var rest := docs[1..];
      assert first.result.Ok?;
      var tail := CreateAll(rest, policy, resName, first.store);
      assert tail.result.Ok?;
      CreateAllDocuments(rest, policy, resName, first.store);
      CreateAllCons(docs, policy, resName, store);
      var r := CreateAll(docs, policy, resName, store);
      forall n | 0 < n < |docs|
        ensures ConvertSaveData(docs[n], policy, resName, true, BatchStore(docs, policy, resName, store, n)).result
                == Ok(r.result.value[n])
      {
        assert docs[n] == rest[n - 1];
        assert BatchStore(docs, policy, resName, store, n) == BatchStore(rest, policy, resName, first.store, n - 1);
        assert r.result.value[n] == tail.result.value[n - 1];
      }
    }
  }

  /** A batch succeeds exactly when no field stops the conversion of any item. */
  lemma {:induction false} CreateAllSucceedsIff(docs: seq<Document>, policy: Policy, resName: string,
                                               store: CounterStore)
    ensures CreateAll(docs, policy, resName, store).result.Ok?
            <==> forall n :: 0 <= n < |docs| ==>
                   forall i :: 0 <= i < |policy| ==> !StopsCreate(policy[i], docs[n], store.online)
    decreases |docs|
  {
    if docs != [] {
      var first := ConvertSaveData(docs[0], policy, resName, true, store);
      var rest := docs[1..];
      CreateSucceedsIff(docs[0], policy, resName, store);
      CreateAllSucceedsIff(rest, policy, resName, first.store);
      assert forall n :: 0 < n < |docs| ==> docs[n] == rest[n - 1];
    }
  }

  /** A failed batch reports the error of its first failing item: every earlier item
      converts, and the batch ends with that item's error and the counter store its failed
      conversion leaves, earlier draws included. */
  lemma {:induction false} CreateAllFailure(docs: seq<Document>, policy: Policy, resName: string,
                                           store: CounterStore)
    returns (n: int)
    requires CreateAll(docs, policy, resName, store).result.Err?
    ensures 0 <= n < |docs|
    ensures forall m :: 0 <= m < n ==>
              ConvertSaveData(docs[m], policy, resName, true, BatchStore(docs, policy, resName, store, m)).result.Ok?
    ensures var r := CreateAll(docs, policy, resName, store);
      var s := ConvertSaveData(docs[n], policy, resName, true, BatchStore(docs, policy, resName, store, n));
      s.result == Err(r.result.error) && s.store == r.store
    decreases |docs|
  {
    var first := ConvertSaveData(docs[0], policy, resName, true, store);
    if first.result.Err? {
      n := 0;
    } else {
      var rest := docs[1..];
      var n' := CreateAllFailure(rest, policy, resName, first.store);
      n := n' + 1;
      assert docs[n] == rest[n'];
      assert BatchStore(docs, policy, resName, store, n) == BatchStore(rest, policy, resName, first.store, n');
      forall m | 0 < m < n
        ensures ConvertSaveData(docs[m], policy, resName, true, BatchStore(docs, policy, resName, store, m)).result.Ok?
      {
        assert docs[m] == rest[m - 1];
        assert BatchStore(docs, policy, resName, store, m) == BatchStore(rest, policy, resName, first.store, m - 1);
      }
    }
  }
}
