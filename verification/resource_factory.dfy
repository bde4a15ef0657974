/** The registry of configured resources and the sequence generator behind auto-increment
    fields (`ResourceFactory`). */
module ResourceFactory {
  import opened Results
  import opened Errors
  import opened RestConfig

  /** A resource's storage schema (`db` section): field name to type name, opaque here. */
  datatype DbSchema = DbSchema(fields: map<string, string>)

  /** One entry of the static configuration map: storage schema and field policies. */
  datatype ResourceConfig = ResourceConfig(db: DbSchema, rest: RawPolicy)

  /** `RestConfigMap`: resource name to its configuration. */
  type ConfigMap = map<string, ResourceConfig>

  /** The storage handle (`model(name, new Schema(db))`) of one resource. */
  datatype ResourceModel = ResourceModel(name: string, schema: DbSchema)

  /** The two maps the constructor builds; read-only afterwards. */
  datatype Registry = Registry(
    modelMap: map<string, ResourceModel>,
    restConfigs: map<string, Policy>)

  /** The constructor: one storage handle and one policy per configured resource name. */
  function BuildRegistry(cfg: ConfigMap): (reg: Registry)
    ensures reg.modelMap.Keys == cfg.Keys
    ensures reg.restConfigs.Keys == cfg.Keys
    ensures forall name :: name in cfg ==> reg.modelMap[name].name == name
  {
    Registry(
      map name | name in cfg :: ResourceModel(name, cfg[name].db),
      map name | name in cfg :: BuildPolicy(cfg[name].rest))
  }

  /** `restConfig(resourceName)`: the resource's policy, or a `SchemaConfigError` naming it. */
  function RestConfigOf(reg: Registry, resourceName: string): (r: Result<Policy, Failure>)
    ensures r.Ok? <==> resourceName in reg.restConfigs
    ensures r.Ok? ==> r.value == reg.restConfigs[resourceName]
    ensures r.Err? ==> r.error.Rest? && r.error.error.SchemaConfigError? && r.error.error.schemaName == resourceName
  {
    if resourceName in reg.restConfigs then Ok(reg.restConfigs[resourceName])
    else Err(Rest(SchemaNotConfigured(resourceName)))
  }

  /** `resourceModel(resourceName)`: the resource's storage handle, or a `SchemaConfigError`. */
  function ResourceModelOf(reg: Registry, resourceName: string): (r: Result<ResourceModel, Failure>)
    ensures r.Ok? <==> resourceName in reg.modelMap
    ensures r.Ok? ==> r.value == reg.modelMap[resourceName]
    ensures r.Err? ==> r.error.Rest? && r.error.error.SchemaConfigError? && r.error.error.schemaName == resourceName
  {
    if resourceName in reg.modelMap then Ok(reg.modelMap[resourceName])
    else Err(Rest(SchemaNotConfigured(resourceName)))
  }

  /** A resource name resolves exactly when it was configured, to the policy built from
      its own `rest` section; any other name fails with a `SchemaConfigError` carrying it. */
  lemma RegistryLookup(cfg: ConfigMap, resourceName: string)
    ensures resourceName in cfg ==>
      && RestConfigOf(BuildRegistry(cfg), resourceName) == Ok(BuildPolicy(cfg[resourceName].rest))
      && ResourceModelOf(BuildRegistry(cfg), resourceName) == Ok(ResourceModel(resourceName, cfg[resourceName].db))
    ensures resourceName !in cfg ==>
      && RestConfigOf(BuildRegistry(cfg), resourceName) == Err(Rest(SchemaNotConfigured(resourceName)))
      && ResourceModelOf(BuildRegistry(cfg), resourceName) == Err(Rest(SchemaNotConfigured(resourceName)))
  {
  }

  // ---------------------------------------------------------------------------------------
  // Sequence generator

  /** The durable counter collection: counter key to `seq`, and whether the store answers. */
  datatype CounterStore = CounterStore(seqs: map<string, int>, online: bool)

  /** A store call's outcome together with the store state after it. */
  datatype Step<T> = Step(result: Result<T, Failure>, store: CounterStore)

  /** A counter's `seq`; a record that does not exist yet has the schema default 0. */
  function CounterValue(store: CounterStore, key: string): int
  {
    if key in store.seqs then store.seqs[key] else 0
  }

  /** The id of the counter record for one field of one resource. */
  function CounterKey(resName: string, key: string): (c: string)
    ensures |c| == |resName| + 1 + |key|
    ensures c[..|resName|] == resName && c[|resName|] == '_' && c[|resName| + 1..] == key
  {
    resName + "_" + key
  }

  /** The counter keys of the given fields of one resource. */
  function CounterKeys(resName: string, keys: set<string>): set<string>
  {
    set key | key in keys :: CounterKey(resName, key)
  }

  /** `after` is `before` with each counter in `keys` created if need be and incremented by
      one, and every other counter untouched. */
  ghost predicate Advanced(before: CounterStore, after: CounterStore, keys: set<string>)
  {
    && after.online == before.online
    && after.seqs.Keys == before.seqs.Keys + keys
    && (forall c :: c in keys ==> after.seqs[c] == CounterValue(before, c) + 1)
    && (forall c :: c in before.seqs && c !in keys ==> after.seqs[c] == before.seqs[c])
  }

  /** `getAutoValue(resName, key)`: one `findByIdAndUpdate` with `$inc: {seq: 1}`, `upsert`
      and `new`, resolving to the incremented `seq`. A store error rejects, issues no value
      and leaves the counters as they were. */
  function GetAutoValue(store: CounterStore, resName: string, key: string): (r: Step<int>)
    ensures r.result.Ok? <==> store.online
    ensures r.result.Err? ==> r.result.error == StoreFailure && r.store == store
    ensures r.result.Ok? ==> r.store.online && CounterKey(resName, key) in r.store.seqs
    ensures r.result.Ok? ==> r.result.value == r.store.seqs[CounterKey(resName, key)]
    ensures r.result.Ok? ==> r.result.value == CounterValue(store, CounterKey(resName, key)) + 1
  {
    if !store.online then Step(Err(StoreFailure), store)
    else
      var c := CounterKey(resName, key);
      var next := CounterValue(store, c) + 1;
      Step(Ok(next), store.(seqs := store.seqs[c := next]))
  }

  /** A successful draw advances its own counter and no other. */
  lemma GetAutoValueAdvances(store: CounterStore, resName: string, key: string)
    requires store.online
    ensures Advanced(store, GetAutoValue(store, resName, key).store, {CounterKey(resName, key)})
  {
  }

  /** The first value drawn for a counter that does not exist yet is 1. */
  lemma FirstAutoValueIsOne(store: CounterStore, resName: string, key: string)
    requires store.online
    requires CounterKey(resName, key) !in store.seqs
    ensures GetAutoValue(store, resName, key).result == Ok(1)
  {
  }

  /** `n` draws in a row for one field; models `n` creates served one after the other. */
  method DrawAutoValues(store: CounterStore, resName: string, key: string, n: nat)
    returns (values: seq<int>, after: CounterStore)
    requires store.online
    ensures |values| == n
    ensures forall i :: 0 <= i < n ==> values[i] == CounterValue(store, CounterKey(resName, key)) + i + 1
    ensures CounterValue(after, CounterKey(resName, key)) == CounterValue(store, CounterKey(resName, key)) + n
    ensures forall c :: c != CounterKey(resName, key) ==>
              (c in after.seqs <==> c in store.seqs) && CounterValue(after, c) == CounterValue(store, c)
  {
    var c := CounterKey(resName, key);
    var start := CounterValue(store, c);
    values := [];
    after := store;
    var i := 0;
    while i < n
      invariant 0 <= i <= n
      invariant after.online
      invariant |values| == i
      invariant forall j :: 0 <= j < i ==> values[j] == start + j + 1
      invariant CounterValue(after, c) == start + i
      invariant forall d :: d != c ==> (d in after.seqs <==> d in store.seqs) && CounterValue(after, d) == CounterValue(store, d)
    {
      var r := GetAutoValue(after, resName, key);
      values := values + [r.result.value];
      after := r.store;
      i := i + 1;
    }
  }

  /** Within one resource, distinct fields have distinct counters. Across resources the
      plain concatenation can collide; see `CounterKeyCollision`. */
  lemma CounterKeyInjectiveWithinResource(resName: string, a: string, b: string)
    requires CounterKey(resName, a) == CounterKey(resName, b)
    ensures a == b
  {
    assert a == CounterKey(resName, a)[|resName| + 1..];
  }

  /** Two different (resource, field) pairs can share one counter record. */
  lemma CounterKeyCollision()
    ensures CounterKey("a_b", "c") == CounterKey("a", "b_c")
  {
  }

  /** The counter keys of a field set, split at one field. */
  lemma CounterKeysInsert(resName: string, key: string, keys: set<string>)
    ensures CounterKeys(resName, {key} + keys) == {CounterKey(resName, key)} + CounterKeys(resName, keys)
    ensures key !in keys ==> CounterKey(resName, key) !in CounterKeys(resName, keys)
  {
    forall other | other in keys && other != key
      ensures CounterKey(resName, other) != CounterKey(resName, key)
    {
      assert CounterKey(resName, other)[|resName| + 1..] == other;
    }
  }

  /** Advancing two disjoint sets of counters one after the other advances their union. */
  lemma AdvancedCompose(a: CounterStore, b: CounterStore, c: CounterStore, k1: set<string>, k2: set<string>)
    requires Advanced(a, b, k1)
    requires Advanced(b, c, k2)
    requires k1 !! k2
    ensures Advanced(a, c, k1 + k2)
  {
  }

  lemma AdvancedNothing(a: CounterStore)
    ensures Advanced(a, a, {})
  {
  }
}
