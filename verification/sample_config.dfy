/** The demo configuration: one resource, `asset`, and what the handlers do with it. */
module SampleConfig {
  import opened Results
  import opened Values
  import opened Errors
  import opened RestConfig
  import opened ResourceFactory
  import opened RestApi

  /** The `rest` section of `asset`, in declaration order. */
  const AssetRest: RawPolicy := [
    RawField("id", NoOverrides.(autoIncrement := Some(true), primaryKey := Some(true), writable := Some(false))),
    RawField("name", NoOverrides.(required := Some(true))),
    RawField("_id", NoOverrides.(readable := Some(false))),
    RawField("__v", NoOverrides.(readable := Some(false), writable := Some(false))),
    RawField("address", NoOverrides.(readable := Some(false)))]

  /** The `db` section of `asset`. */
  const AssetDb := DbSchema(map["id" := "String", "name" := "String", "address" := "String"])

  const Sample: ConfigMap := map["asset" := ResourceConfig(AssetDb, AssetRest)]

  /** The counter record behind `asset.id`: `asset_id`. */
  const AssetIdCounter := CounterKey("asset", "id")

  /** The policy the constructor builds from `AssetRest`, written out. */
  const Asset: Policy := [
    Field("id", FieldPolicy(required := false, writable := false, readable := true, primaryKey := true, autoIncrement := true)),
    Field("name", FieldPolicy(required := true, writable := true, readable := true, primaryKey := false, autoIncrement := false)),
    Field("_id", FieldPolicy(required := false, writable := true, readable := false, primaryKey := false, autoIncrement := false)),
    Field("__v", FieldPolicy(required := false, writable := false, readable := false, primaryKey := false, autoIncrement := false)),
    Field("address", FieldPolicy(required := false, writable := true, readable := false, primaryKey := false, autoIncrement := false))]

  /** The constructor turns the `rest` section into the written-out policy. */
  lemma AssetBuilt()
    ensures BuildPolicy(AssetRest) == Asset
  {
    var built := BuildPolicy(AssetRest);
    forall i | 0 <= i < |Asset|
      ensures built[i] == Asset[i]
    {
    }
  }

  /** The registry resolves `asset` to that policy. */
  lemma AssetRegistered()
    ensures Resolve(BuildRegistry(Sample), "asset") == Ok(Asset)
  {
    AssetBuilt();
    RegistryLookup(Sample, "asset");
  }

  /** The policy of `asset` declares each name once. */
  lemma AssetDistinct()
    ensures DistinctNames(Asset)
  {
  }

  /** `id`, the only flagged field, is the primary key. */
  lemma AssetPrimaryKey()
    ensures PrimaryKey(Asset) == "id"
  {
    PrimaryKeyIsFirstFlagged(Asset, 0);
  }

  /** `id` is the only auto-increment field of `asset`. */
  lemma AssetAutoIncrement()
    ensures AutoIncrementNames(Asset) == {"id"}
    ensures AutoIncrementNames(Asset[..1]) == {"id"}
  {
    assert Asset[0].name == "id";
    assert Asset[..1][0] == Asset[0];
  }

  /** `name`, `_id` and `address` are writable, on create as on update. */
  lemma AssetWritable()
    ensures WritableNames(Asset) == {"name", "_id", "address"}
    ensures CreateWritableNames(Asset) == {"name", "_id", "address"}
  {
    assert Asset[1].name == "name" && Asset[2].name == "_id" && Asset[4].name == "address";
  }

  /** `id` and `name` are shown; `_id`, `__v` and `address` never leave the server, and
      neither does nothing else. */
  lemma AssetReadable(k: string)
    ensures IsReadable(Asset, k) <==> k !in {"_id", "__v", "address"}
  {
    IsReadableExactly(Asset, k);
    AssetDistinct();
  }

  /** A stored asset is answered without its `_id`, `__v` and `address`. */
  lemma AssetProjection(doc: Document)
    ensures Project(doc, Asset).Keys == doc.Keys - {"_id", "__v", "address"}
  {
    forall k | k in doc
      ensures IsReadable(Asset, k) <==> k !in {"_id", "__v", "address"}
    {
      AssetReadable(k);
    }
    ProjectHides(doc, Asset, {"_id", "__v", "address"});
  }

  /** Creating `{name: "Zeus", id: "x", __v: 3}` keeps the name, replaces the caller's id by
      the counter's next value and drops `__v`; the counter `asset_id` moves by one. */
  lemma CreateZeus(store: CounterStore)
    requires store.online
    ensures var input := map["name" := Str("Zeus"), "id" := Str("x"), "__v" := Num(3)];
      var r := ConvertSaveData(input, Asset, "asset", true, store);
      && r.result == Ok(map["id" := Num(CounterValue(store, AssetIdCounter) + 1), "name" := Str("Zeus")])
      && CounterValue(r.store, AssetIdCounter) == CounterValue(store, AssetIdCounter) + 1
  {
    var input := map["name" := Str("Zeus"), "id" := Str("x"), "__v" := Num(3)];
    var r := ConvertSaveData(input, Asset, "asset", true, store);
    assert r.result.Ok? by {
      CreateSucceedsIff(input, Asset, "asset", store);
    }
    var d := r.result.value;
    var next := CounterValue(store, AssetIdCounter) + 1;
    assert d.Keys == {"id", "name"} by {
      AssetAutoIncrement();
      AssetWritable();
      CreateFieldsKeys(Asset, input, "asset", store, map[]);
    }
    assert d["id"] == Num(next) && CounterValue(r.store, AssetIdCounter) == next by {
      AssetDistinct();
      AssetAutoIncrement();
      CreateAdvancesCounter(input, Asset, "asset", store, "id");
    }
    assert d["name"] == Str("Zeus") by {
      AssetDistinct();
      AssetWritable();
      CreateFieldsCopies(Asset, input, "asset", store, map[]);
    }
    assert d == map["id" := Num(next), "name" := Str("Zeus")];
  }

  /** On a fresh counter store two creates in one batch are numbered 1 and 2. */
  lemma FreshStoreNumbersFromOne()
    ensures var docs := [map["name" := Str("Zeus")], map["name" := Str("Hera")]];
      var r := CreateAll(docs, Asset, "asset", CounterStore(map[], true));
      && r.result.Ok?
      && r.result.value[0]["id"] == Num(1)
      && r.result.value[1]["id"] == Num(2)
      && CounterValue(r.store, AssetIdCounter) == 2
  {
    var docs := [map["name" := Str("Zeus")], map["name" := Str("Hera")]];
    AssetDistinct();
    AssetAutoIncrement();
    forall n | 0 <= n < |docs|
      ensures Admissible(docs[n], Asset)
    {
      assert "name" in docs[n];
    }
    CreateAllNumbersConsecutively(docs, Asset, "asset", CounterStore(map[], true), "id");
  }

  /** Creating without `name` fails with the missing-parameter error for `name`, after the
      counter for `id`, declared first, has already moved. */
  lemma CreateWithoutName(store: CounterStore)
    requires store.online
    ensures var r := ConvertSaveData(map["address" := Str("Olympus")], Asset, "asset", true, store);
      && r.result == Err(Rest(MissingParameter("name", "asset")))
      && CounterValue(r.store, AssetIdCounter) == CounterValue(store, AssetIdCounter) + 1
  {
    var input := map["address" := Str("Olympus")];
    CreateStep(Asset, input, "asset", store, map[]);
    var st1 := CreateStepStore(Asset[0], "asset", store);
    var acc := CreateStepAcc(Asset[0], input, "asset", store, map[]);
    CreateStopsFirst(Asset[1..], input, "asset", st1, acc);
  }

  /** An update never writes `id` or `__v`, whatever the caller sends: it keeps exactly the
      caller's `name`, `_id` and `address`, and a body shadowing `hasOwnProperty` throws. */
  lemma UpdateKeepsIdAndVersion(input: Document, store: CounterStore)
    ensures var r := ConvertSaveData(input, Asset, "asset", false, store).result;
      && (ShadowsHasOwnProperty(input) ==> r == Err(TypeError))
      && (!ShadowsHasOwnProperty(input) ==>
            && r.Ok? && "id" !in r.value && "__v" !in r.value
            && r.value == Restrict(input, {"name", "_id", "address"}))
  {
    var r := ConvertSaveData(input, Asset, "asset", false, store).result;
    assert r == if ShadowsHasOwnProperty(input) then Err(TypeError) else Ok(Restrict(input, {"name", "_id", "address"})) by {
      AssetWritable();
      assert "name" in WritableNames(Asset);
      UpdateModeRestricts(input, Asset, "asset", store);
    }
    assert "id" !in {"name", "_id", "address"} && "__v" !in {"name", "_id", "address"};
  }

  /** A missing id answers 404 with `asset/<id> is not found`; an unknown resource answers
      400 naming it. */
  lemma LookupErrors(id: string, findOne: FindOne)
    requires findOne("id", Str(id)).None?
    ensures GetOne(BuildRegistry(Sample), "asset", id, findOne) == Err(Rest(NotFound("asset", id)))
    ensures Respond(GetOne(BuildRegistry(Sample), "asset", id, findOne).error).code == 404
    ensures GetOne(BuildRegistry(Sample), "user", id, findOne) == Err(Rest(SchemaNotConfigured("user")))
    ensures Respond(GetOne(BuildRegistry(Sample), "user", id, findOne).error).code == 400
  {
    AssetRegistered();
    AssetPrimaryKey();
    RegistryLookup(Sample, "user");
  }
}
