/** Per-field access policy of one resource (`RestKeyConfig`) and the ordered policy of a
    resource (`RestConfig`): construction with defaults, readability and the primary key. */
module RestConfig {
  import opened Results

  /** The five flags of `RestKeyConfig`. */
  datatype FieldPolicy = FieldPolicy(
    required: bool,
    writable: bool,
    readable: bool,
    primaryKey: bool,
    autoIncrement: bool)

  /** A freshly constructed `RestKeyConfig`. */
  const KeyConfigDefaults := FieldPolicy(
    required := false,
    writable := true,
    readable := true,
    primaryKey := false,
    autoIncrement := false)

  /** The flags a raw configuration entry gives explicitly; `None` means not given. */
  datatype FlagOverrides = FlagOverrides(
    required: Option<bool>,
    writable: Option<bool>,
    readable: Option<bool>,
    primaryKey: Option<bool>,
    autoIncrement: Option<bool>)

  const NoOverrides := FlagOverrides(None, None, None, None, None)

  /** One `fieldName: {flags}` entry of a resource's `rest` section, in declaration order. */
  datatype RawField = RawField(name: string, flags: FlagOverrides)
  type RawPolicy = seq<RawField>

  /** One entry of `RestConfig.configs`. */
  datatype Field = Field(name: string, policy: FieldPolicy)

  /** `RestConfig.configs`: field policies in declaration order. */
  type Policy = seq<Field>

  /** The identity field `primaryKey` falls back to when no field is flagged. */
  const FallbackPrimaryKey := "__id"

  function Flag(given: Option<bool>, default: bool): bool
  {
    match given
    case Some(b) => b
    case None => default
  }

  /** A `RestKeyConfig` with the given flags copied over its defaults. */
  function KeyConfig(flags: FlagOverrides): (c: FieldPolicy)
    ensures flags.required.None? ==> c.required == KeyConfigDefaults.required
    ensures flags.writable.None? ==> c.writable == KeyConfigDefaults.writable
    ensures flags.readable.None? ==> c.readable == KeyConfigDefaults.readable
    ensures flags.primaryKey.None? ==> c.primaryKey == KeyConfigDefaults.primaryKey
    ensures flags.autoIncrement.None? ==> c.autoIncrement == KeyConfigDefaults.autoIncrement
    ensures flags.required.Some? ==> c.required == flags.required.value
    ensures flags.writable.Some? ==> c.writable == flags.writable.value
    ensures flags.readable.Some? ==> c.readable == flags.readable.value
    ensures flags.primaryKey.Some? ==> c.primaryKey == flags.primaryKey.value
    ensures flags.autoIncrement.Some? ==> c.autoIncrement == flags.autoIncrement.value
  {
    FieldPolicy(
      required := Flag(flags.required, KeyConfigDefaults.required),
      writable := Flag(flags.writable, KeyConfigDefaults.writable),
      readable := Flag(flags.readable, KeyConfigDefaults.readable),
      primaryKey := Flag(flags.primaryKey, KeyConfigDefaults.primaryKey),
      autoIncrement := Flag(flags.autoIncrement, KeyConfigDefaults.autoIncrement))
  }

  /** The `RestConfig` constructor: one entry per raw entry, same names, same order. */
  function BuildPolicy(raw: RawPolicy): (p: Policy)
    ensures |p| == |raw|
    ensures forall i :: 0 <= i < |raw| ==> p[i].name == raw[i].name
    ensures forall i :: 0 <= i < |raw| ==> p[i].policy == KeyConfig(raw[i].flags)
  {
    if raw == [] then []
    else [Field(raw[0].name, KeyConfig(raw[0].flags))] + BuildPolicy(raw[1..])
  }

  /** The declared field names, in declaration order. */
  function Names(p: Policy): (ns: seq<string>)
    ensures |ns| == |p|
    ensures forall i :: 0 <= i < |p| ==> ns[i] == p[i].name
  {
    if p == [] then [] else [p[0].name] + Names(p[1..])
  }

  /** No field name is declared twice, as in any JavaScript object. */
  ghost predicate DistinctNames(p: Policy)
  {
    forall i, j :: 0 <= i < j < |p| ==> p[i].name != p[j].name
  }

  /** `configs[key]` on the policy's own entries: the first entry with that name. */
  function Find(p: Policy, key: string): (r: Option<FieldPolicy>)
    ensures r.None? <==> key !in Names(p)
    ensures r.Some? ==> Field(key, r.value) in p
  {
    if p == [] then None
    else if p[0].name == key then Some(p[0].policy)
    else Find(p[1..], key)
  }

  /** `isReadable(key)`: a field is hidden only when it is declared with `readable: false`. */
  function IsReadable(p: Policy, key: string): (r: bool)
    ensures key !in Names(p) ==> r
    ensures !r ==> Find(p, key).Some? && Field(key, Find(p, key).value) in p && !Find(p, key).value.readable
  {
    match Find(p, key)
    case None => true
    case Some(c) => c.readable
  }

  /** The properties every plain JavaScript object inherits from `Object.prototype`. A
      lookup `configs[key]` on such a name finds the inherited member, a truthy value with no
      `readable` property, when the policy does not declare the name itself. */
  const ObjectPrototypeNames: set<string> := {
    "constructor", "toString", "toLocaleString", "valueOf", "hasOwnProperty",
    "isPrototypeOf", "propertyIsEnumerable", "__proto__",
    "__defineGetter__", "__defineSetter__", "__lookupGetter__", "__lookupSetter__"}

  /** `isReadable(key)` with the plain-object lookup of the library's code: an undeclared
      name that `Object.prototype` provides reads back `undefined` for `readable`, so it is
      hidden. Differs from `IsReadable` on exactly those names. */
  function IsReadableAsWritten(p: Policy, key: string): (r: bool)
    ensures key in Names(p) ==> r == IsReadable(p, key)
    ensures key !in Names(p) ==> (r <==> key !in ObjectPrototypeNames)
  {
    match Find(p, key)
    case Some(c) => c.readable
    case None => key !in ObjectPrototypeNames
  }

  /** The two readings disagree exactly on undeclared inherited names: the library's code
      hides a field named `constructor` that no policy entry mentions. */
  lemma IsReadableAsWrittenHidesInherited(p: Policy, key: string)
    ensures IsReadableAsWritten(p, key) != IsReadable(p, key) <==> key !in Names(p) && key in ObjectPrototypeNames
    ensures !IsReadableAsWritten([], "constructor") && IsReadable([], "constructor")
  {
  }

  /** lodash's `_.findKey(configs, {primaryKey: true})`: the first flagged field's name. */
  function FindPrimary(p: Policy): (r: Option<string>)
    ensures r.None? <==> forall i :: 0 <= i < |p| ==> !p[i].policy.primaryKey
    ensures r.Some? ==> r.value in Names(p)
  {
    if p == [] then None
    else if p[0].policy.primaryKey then Some(p[0].name)
    else FindPrimary(p[1..])
  }

  /** The `primaryKey` getter: `_.findKey(...) || '__id'`. The JavaScript `||` also turns a
      flagged field whose name is the empty string into the fallback. */
  function PrimaryKey(p: Policy): (r: string)
    ensures r == FallbackPrimaryKey || (r != "" && r in Names(p))
    ensures (forall i :: 0 <= i < |p| ==> !p[i].policy.primaryKey) ==> r == FallbackPrimaryKey
  {
    match FindPrimary(p)
    case Some(k) => if k == "" then FallbackPrimaryKey else k
    case None => FallbackPrimaryKey
  }

  /** The names of the fields whose flags satisfy `sel`. */
  function NamesWhere(p: Policy, sel: FieldPolicy -> bool): set<string>
  {
    set i | 0 <= i < |p| && sel(p[i].policy) :: p[i].name
  }

  function IsWritable(c: FieldPolicy): bool { c.writable }
  function IsAutoIncrement(c: FieldPolicy): bool { c.autoIncrement }
  function IsCreateWritable(c: FieldPolicy): bool { c.writable && !c.autoIncrement }

  /** Fields a caller may set on update. */
  function WritableNames(p: Policy): set<string> { NamesWhere(p, IsWritable) }

  /** Fields whose value is drawn from the counter on create. */
  function AutoIncrementNames(p: Policy): set<string> { NamesWhere(p, IsAutoIncrement) }

  /** Fields a caller may set on create. */
  function CreateWritableNames(p: Policy): set<string> { NamesWhere(p, IsCreateWritable) }

  /** Peeling the first field off a policy splits the selected names accordingly. */
  lemma NamesWhereCons(p: Policy, sel: FieldPolicy -> bool)
    requires |p| > 0
    ensures NamesWhere(p, sel) == (if sel(p[0].policy) then {p[0].name} else {}) + NamesWhere(p[1..], sel)
  {
    var rest := p[1..];
    var head: set<string> := if sel(p[0].policy) then {p[0].name} else {};
    forall k | k in NamesWhere(p, sel)
      ensures k in head + NamesWhere(rest, sel)
    {
      var i :| 0 <= i < |p| && sel(p[i].policy) && p[i].name == k;
      if i > 0 {
        assert rest[i - 1] == p[i];
      }
    }
    forall k | k in NamesWhere(rest, sel)
      ensures k in NamesWhere(p, sel)
    {
      var i :| 0 <= i < |rest| && sel(rest[i].policy) && rest[i].name == k;
      assert p[i + 1] == rest[i];
    }
  }

  lemma NamesWhereEmpty(sel: FieldPolicy -> bool)
    ensures NamesWhere([], sel) == {}
  {
  }

  /** Every selected name is a declared name. */
  lemma NamesWhereDeclared(p: Policy, sel: FieldPolicy -> bool, k: string)
    requires k in NamesWhere(p, sel)
    ensures k in Names(p)
  {
    var i :| 0 <= i < |p| && sel(p[i].policy) && p[i].name == k;
    assert Names(p)[i] == k;
  }

  /** With distinct names, a field is selected exactly when its own flags satisfy `sel`. */
  lemma NamesWhereAt(p: Policy, sel: FieldPolicy -> bool, i: int)
    requires DistinctNames(p)
    requires 0 <= i < |p|
    ensures p[i].name in NamesWhere(p, sel) <==> sel(p[i].policy)
  {
    if p[i].name in NamesWhere(p, sel) {
      var j :| 0 <= j < |p| && sel(p[j].policy) && p[j].name == p[i].name;
      assert i == j;
    }
  }

  /** The built policy declares the raw configuration's names, in the raw order. */
  lemma BuildPolicyNames(raw: RawPolicy)
    ensures |Names(BuildPolicy(raw))| == |raw|
    ensures forall i :: 0 <= i < |raw| ==> Names(BuildPolicy(raw))[i] == raw[i].name
    ensures (forall i, j :: 0 <= i < j < |raw| ==> raw[i].name != raw[j].name) ==> DistinctNames(BuildPolicy(raw))
  {
  }

  /** With distinct names, looking a declared field up yields its own flags. */
  lemma {:induction false} FindDeclared(p: Policy, i: int)
    requires DistinctNames(p)
    requires 0 <= i < |p|
    ensures Find(p, p[i].name) == Some(p[i].policy)
  {
    if i > 0 {
      assert p[0].name != p[i].name;
      assert p[1..][i - 1] == p[i];
      FindDeclared(p[1..], i - 1);
    }
  }

  /** For a declared field, readability is exactly its `readable` flag; for any other name
      it is true. Only an explicit `readable: false` hides a field. */
  lemma IsReadableExactly(p: Policy, key: string)
    requires DistinctNames(p)
    ensures IsReadable(p, key) <==> forall i :: 0 <= i < |p| && p[i].name == key ==> p[i].policy.readable
  {
    forall i | 0 <= i < |p| && p[i].name == key
      ensures IsReadable(p, key) == p[i].policy.readable
    {
      FindDeclared(p, i);
    }
    if key !in Names(p) {
      assert forall i :: 0 <= i < |p| ==> p[i].name != key by {
        forall i | 0 <= i < |p| ensures p[i].name != key { assert Names(p)[i] == p[i].name; }
      }
    } else {
      var i :| 0 <= i < |Names(p)| && Names(p)[i] == key;
      FindDeclared(p, i);
    }
  }

  /** `primaryKey` names the first flagged field, or the fallback when that field's name is
      empty. */
  lemma {:induction false} PrimaryKeyIsFirstFlagged(p: Policy, i: int)
    requires 0 <= i < |p|
    requires p[i].policy.primaryKey
    requires forall j :: 0 <= j < i ==> !p[j].policy.primaryKey
    ensures FindPrimary(p) == Some(p[i].name)
    ensures PrimaryKey(p) == (if p[i].name == "" then FallbackPrimaryKey else p[i].name)
  {
    if i > 0 {
      assert !p[0].policy.primaryKey;
      assert p[1..][i - 1] == p[i];
      PrimaryKeyIsFirstFlagged(p[1..], i - 1);
    }
  }
}
