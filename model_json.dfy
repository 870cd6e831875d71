/** The in-memory rewrites that `_patch_model_json` applies to an exported
    TF.js `model.json` so that a Keras 3 export loads in TF.js: the textual
    `"batch_shape":` rename, the recursive `_clean` of the model topology and
    the lookup of the model name. JSON parsing and the file I/O around them are
    not part of this model. */
module ModelJson {
  import opened Wrappers
  import opened Text

  /** A parsed JSON value. Objects keep their fields in insertion order, as
      Python dicts do; objects produced by a JSON parser have distinct keys. */
  datatype Json =
    | JNull
    | JBool(b: bool)
    | JNumber(text: string)
    | JString(str: string)
    | JArray(items: seq<Json>)
    | JObject(fields: seq<Field>)

  datatype Field = Field(key: string, value: Json)

  /** The exceptions the patch step can raise on a malformed document. */
  datatype PatchError =
    | DTypeConfigNotObject  // `obj["config"].get(...)` on a DTypePolicy whose config is not a dict
    | LookupOnNonObject     // `.get(...)` on a value that is not a dict
    | ModelNameNotString    // `model_name + "/"` with a model name that is not a string

  predicate IsScalar(j: Json) {
    !j.JArray? && !j.JObject?
  }

  /** The index of the field named `key`, if there is one. */
  function Find(fields: seq<Field>, key: string): (r: Option<nat>)
    ensures r.Some? ==> r.value < |fields| && fields[r.value].key == key
    ensures r.None? <==> forall i :: 0 <= i < |fields| ==> fields[i].key != key
  {
    if fields == [] then None
    else if fields[0].key == key then Some(0)
    else match Find(fields[1..], key)
      case None => None
      case Some(i) => Some(i + 1)
  }

  predicate HasKey(fields: seq<Field>, key: string) {
    Find(fields, key).Some?
  }

  /** `obj.get(key)` on a dict. */
  function Get(fields: seq<Field>, key: string): (r: Option<Json>)
    ensures r.Some? <==> HasKey(fields, key)
    ensures r.Some? ==> Field(key, r.value) in fields
  {
    match Find(fields, key)
    case None => None
    case Some(i) => Some(fields[i].value)
  }

  /** `obj.get(key, default)` on a dict. */
  function GetOr(fields: seq<Field>, key: string, default: Json): (r: Json)
    ensures !HasKey(fields, key) ==> r == default
    ensures HasKey(fields, key) ==> Field(key, r) in fields
  {
    match Get(fields, key)
    case None => default
    case Some(v) => v
  }

  /** The keys Keras 3 adds and TF.js does not understand. */
  const DroppedKeys: set<string> := {"zero_output_for_mask", "build_config", "quantization_config", "optional"}

  /** A Keras 3 dtype policy object: `class_name` is "DTypePolicy" and there is a `config`. */
  predicate IsDTypePolicy(fields: seq<Field>) {
    Get(fields, "class_name") == Some(JString("DTypePolicy")) && HasKey(fields, "config")
  }

  /** A Keras 3 module-style reference: it has `module`, `class_name` and `registered_name`. */
  predicate IsModuleRef(fields: seq<Field>) {
    HasKey(fields, "module") && HasKey(fields, "class_name") && HasKey(fields, "registered_name")
  }

  /** The fields whose key is not dropped, in their original order. */
  function KeptFields(fields: seq<Field>): (kept: seq<Field>)
    ensures forall i :: 0 <= i < |kept| ==> kept[i] in fields && kept[i].key !in DroppedKeys
  {
    if fields == [] then []
    else (if fields[0].key in DroppedKeys then [] else [fields[0]]) + KeptFields(fields[1..])
  }

  function KeySet(fields: seq<Field>): set<string> {
    set i | 0 <= i < |fields| :: fields[i].key
  }

  lemma KeySetCons(f: Field, fields: seq<Field>)
    ensures KeySet([f] + fields) == {f.key} + KeySet(fields)
  {
    var all := [f] + fields;
    forall k | k in KeySet(all) ensures k in {f.key} + KeySet(fields) {
      var i :| 0 <= i < |all| && all[i].key == k;
      if i > 0 { assert fields[i - 1].key == k; }
    }
    forall k | k in KeySet(fields) ensures k in KeySet(all) {
      var i :| 0 <= i < |fields| && fields[i].key == k;
      assert all[i + 1].key == k;
    }
    assert all[0].key == f.key;
  }

  /** Dropping fields removes exactly the dropped keys. */
  lemma {:induction false} KeptFieldsKeys(fields: seq<Field>)
    ensures KeySet(KeptFields(fields)) == KeySet(fields) - DroppedKeys
  {
    if fields != [] {
      KeptFieldsKeys(fields[1..]);
      KeySetCons(fields[0], fields[1..]);
      assert fields == [fields[0]] + fields[1..];
      if fields[0].key !in DroppedKeys {
        KeySetCons(fields[0], KeptFields(fields[1..]));
      } else {
        assert KeptFields(fields) == KeptFields(fields[1..]);
      }
    }
  }

  /** A dict's keys are distinct; a JSON parser keeps the last of repeated keys. */
  predicate DistinctKeys(fields: seq<Field>) {
    forall i, j :: 0 <= i < j < |fields| ==> fields[i].key != fields[j].key
  }

  /** With distinct keys, looking up a field's key finds that field. */
  lemma GetDistinct(fields: seq<Field>, j: nat)
    requires DistinctKeys(fields) && j < |fields|
    ensures Get(fields, fields[j].key) == Some(fields[j].value)
  {
  }

  /** `_clean(obj)`. A dtype policy collapses to its `config["name"]` (default
      "float32"); a module-style reference becomes `{class_name, config}` with
      its config cleaned (an absent config cleans to `{}`); any other dict loses
      the dropped keys and has its other values cleaned; a list is cleaned
      element by element; anything else is returned as it is. */
  function Clean(j: Json): (r: Result<Json, PatchError>)
    ensures r.Failure? ==> r.error == DTypeConfigNotObject
    decreases j
  {
    match j
    case JObject(fields) =>
      if IsDTypePolicy(fields) then
        match GetOr(fields, "config", JNull)
        case JObject(config) => Success(GetOr(config, "name", JString("float32")))
        case _ => Failure(DTypeConfigNotObject)
      else if IsModuleRef(fields) then
        var config :- match Find(fields, "config")
                      case None => Success(JObject([]))
                      case Some(i) => Clean(fields[i].value);
        Success(JObject([Field("class_name", GetOr(fields, "class_name", JNull)), Field("config", config)]))
      else
        var kept := KeptFields(fields);
        if exists i :: 0 <= i < |kept| && Clean(kept[i].value).Failure? then Failure(DTypeConfigNotObject)
        else Success(JObject(seq(|kept|, i requires 0 <= i < |kept| => Field(kept[i].key, Clean(kept[i].value).value))))
    case JArray(items) =>
      if exists i :: 0 <= i < |items| && Clean(items[i]).Failure? then Failure(DTypeConfigNotObject)
      else Success(JArray(seq(|items|, i requires 0 <= i < |items| => Clean(items[i]).value)))
    case _ => Success(j)
  }

  /** A list is cleaned element by element: same length, same order. */
  lemma CleanArray(items: seq<Json>)
    ensures Clean(JArray(items)).Success? <==> forall i :: 0 <= i < |items| ==> Clean(items[i]).Success?
    ensures Clean(JArray(items)).Success? ==>
              Clean(JArray(items)).value.JArray? && |Clean(JArray(items)).value.items| == |items| &&
              forall i :: 0 <= i < |items| ==> Clean(items[i]) == Success(Clean(JArray(items)).value.items[i])
  {
  }

  /** Fields appended after a key that is already present do not change what
      `.get` finds for it. */
  lemma {:induction false} GetAppend(fields: seq<Field>, extra: seq<Field>, key: string)
    requires HasKey(fields, key)
    ensures Find(fields + extra, key) == Find(fields, key)
    ensures Get(fields + extra, key) == Get(fields, key)
  {
    if fields[0].key != key {
      GetAppend(fields[1..], extra, key);
      assert (fields + extra)[1..] == fields[1..] + extra;
    }
  }

  /** A dtype policy is recognised before anything else: whatever further keys
      it carries, such as the `module` and `registered_name` of a module-style
      reference, it cleans exactly as it would without them. */
  lemma CleanDTypePolicyFirst(fields: seq<Field>, extra: seq<Field>)
    requires IsDTypePolicy(fields) && DistinctKeys(fields + extra)
    ensures IsDTypePolicy(fields + extra)
    ensures Clean(JObject(fields + extra)) == Clean(JObject(fields))
  {
    GetAppend(fields, extra, "class_name");
    GetAppend(fields, extra, "config");
  }

  /** A dtype policy whose config has no `name` becomes "float32", even when it
      also looks like a module-style reference. */
  lemma CleanDTypePolicyDefault()
    ensures Clean(JObject([Field("class_name", JString("DTypePolicy")), Field("config", JObject([])),
                           Field("module", JString("keras")), Field("registered_name", JNull)]))
            == Success(JString("float32"))
  {
    var policy := [Field("class_name", JString("DTypePolicy")), Field("config", JObject([]))];
    var extra := [Field("module", JString("keras")), Field("registered_name", JNull)];
    CleanDTypePolicyFirst(policy, extra);
    assert policy + extra == [Field("class_name", JString("DTypePolicy")), Field("config", JObject([])),
                              Field("module", JString("keras")), Field("registered_name", JNull)];
  }

  /** A dtype policy collapses to a single value: it cleans successfully exactly
      when its config is a dict, and then, when names are plain values, the
      result is a plain value, not a dict or a list. */
  lemma CleanDTypePolicyCollapses(fields: seq<Field>)
    requires IsDTypePolicy(fields)
    ensures Clean(JObject(fields)).Success? <==> GetOr(fields, "config", JNull).JObject?
    ensures NamesScalar(JObject(fields)) && Clean(JObject(fields)).Success? ==> IsScalar(Clean(JObject(fields)).value)
  {
    var m := Find(fields, "config").value;
    var config := fields[m].value;
    if config.JObject? && NamesScalar(JObject(fields)) {
      assert NamesScalar(config);
      match Find(config.fields, "name")
      case None =>
      case Some(n) =>
        assert config.fields[n].key in {"class_name", "name"};
        assert IsScalar(config.fields[n].value);
    }
  }

  lemma CleanEmptyObject()
    ensures Clean(JObject([])) == Success(JObject([]))
  {
    var empty: seq<Field> := [];
    assert !IsDTypePolicy(empty) && !IsModuleRef(empty);
    assert KeptFields(empty) == [];
    assert Clean(JObject(empty)).Success?;
    assert Clean(JObject(empty)).value.fields == [];
  }

  /** A module-style reference becomes exactly `{class_name, config}`, the
      config cleaned (an absent config cleans to `{}`). */
  lemma CleanModuleRef(fields: seq<Field>)
    requires !IsDTypePolicy(fields) && IsModuleRef(fields)
    ensures Clean(GetOr(fields, "config", JObject([]))).Success? <==> Clean(JObject(fields)).Success?
    ensures Clean(JObject(fields)).Success? ==>
              Clean(JObject(fields)).value ==
                JObject([Field("class_name", GetOr(fields, "class_name", JNull)),
                         Field("config", Clean(GetOr(fields, "config", JObject([]))).value)])
  {
    CleanEmptyObject();
  }

  /** Any other dict keeps exactly its keys that are not dropped, each with its
      value cleaned. */
  lemma CleanObject(fields: seq<Field>)
    requires DistinctKeys(fields)
    requires !IsDTypePolicy(fields) && !IsModuleRef(fields) && Clean(JObject(fields)).Success?
    ensures Clean(JObject(fields)).value.JObject?
    ensures KeySet(Clean(JObject(fields)).value.fields) == KeySet(fields) - DroppedKeys
    ensures forall i :: 0 <= i < |Clean(JObject(fields)).value.fields| ==>
              Get(fields, Clean(JObject(fields)).value.fields[i].key).Some? &&
              Clean(Get(fields, Clean(JObject(fields)).value.fields[i].key).value) ==
                Success(Clean(JObject(fields)).value.fields[i].value)
  {
    var kept := KeptFields(fields);
    var out := Clean(JObject(fields)).value.fields;
    assert |out| == |kept|;
    assert forall i :: 0 <= i < |out| ==> out[i].key == kept[i].key && Clean(kept[i].value) == Success(out[i].value);
    KeptFieldsKeys(fields);
    assert KeySet(out) == KeySet(kept) by {
      forall k | k in KeySet(kept) ensures k in KeySet(out) {
        var i :| 0 <= i < |kept| && kept[i].key == k;
        assert out[i].key == k;
      }
      forall k | k in KeySet(out) ensures k in KeySet(kept) {
        var i :| 0 <= i < |out| && out[i].key == k;
        assert kept[i].key == k;
      }
    }
    forall i | 0 <= i < |out|
      ensures Get(fields, out[i].key) == Some(kept[i].value)
    {
      var j :| 0 <= j < |fields| && fields[j] == kept[i];
      GetDistinct(fields, j);
    }
  }

  lemma HasKeyInKeySet(fields: seq<Field>, key: string)
    ensures HasKey(fields, key) <==> key in KeySet(fields)
  {
    if key in KeySet(fields) {
      var i :| 0 <= i < |fields| && fields[i].key == key;
    }
  }

  /** Every `class_name` and `name` in the document is a plain value, as in
      any Keras export: these are copied by `_clean` without being cleaned. */
  predicate NamesScalar(j: Json)
    decreases j
  {
    match j
    case JObject(fields) =>
      forall i :: 0 <= i < |fields| ==>
        (fields[i].key in {"class_name", "name"} ==> IsScalar(fields[i].value)) && NamesScalar(fields[i].value)
    case JArray(items) => forall i :: 0 <= i < |items| ==> NamesScalar(items[i])
    case _ => true
  }

  /** The document as TF.js expects it: no dict anywhere holds a key Keras 3
      added, and no dict is a Keras 3 module-style reference. */
  predicate TfjsShaped(j: Json)
    decreases j
  {
    match j
    case JObject(fields) =>
      !IsModuleRef(fields) &&
      forall i :: 0 <= i < |fields| ==> fields[i].key !in DroppedKeys && TfjsShaped(fields[i].value)
    case JArray(items) => forall i :: 0 <= i < |items| ==> TfjsShaped(items[i])
    case _ => true
  }

  /** The children of an object whose cleaned values are already TF.js-shaped. */
  predicate CleanedShaped(fields: seq<Field>) {
    forall i :: 0 <= i < |fields| ==> Clean(fields[i].value).Success? ==> TfjsShaped(Clean(fields[i].value).value)
  }

  lemma DTypePolicyShaped(fields: seq<Field>)
    requires IsDTypePolicy(fields) && NamesScalar(JObject(fields))
    ensures Clean(JObject(fields)).Success? ==> TfjsShaped(Clean(JObject(fields)).value)
  {
    var m := Find(fields, "config").value;
    var config := fields[m].value;
    if config.JObject? {
      match Find(config.fields, "name")
      case None =>
      case Some(n) => assert config.fields[n].key in {"class_name", "name"};
    }
  }

  lemma ClassNameShaped(fields: seq<Field>)
    requires HasKey(fields, "class_name") && NamesScalar(JObject(fields))
    ensures TfjsShaped(GetOr(fields, "class_name", JNull))
  {
    var c := Find(fields, "class_name").value;
    assert fields[c].key in {"class_name", "name"};
  }

  lemma CleanedConfigShaped(fields: seq<Field>)
    requires CleanedShaped(fields)
    ensures var config := Clean(GetOr(fields, "config", JObject([])));
            config.Success? ==> TfjsShaped(config.value)
  {
    CleanEmptyObject();
  }

  lemma ReferenceShaped(className: Json, config: Json)
    requires TfjsShaped(className) && TfjsShaped(config)
    ensures TfjsShaped(JObject([Field("class_name", className), Field("config", config)]))
  {
    assert !HasKey([Field("class_name", className), Field("config", config)], "module");
  }

  lemma ModuleRefShaped(fields: seq<Field>)
    requires !IsDTypePolicy(fields) && IsModuleRef(fields) && NamesScalar(JObject(fields))
    requires CleanedShaped(fields)
    ensures Clean(JObject(fields)).Success? ==> TfjsShaped(Clean(JObject(fields)).value)
  {
    ClassNameShaped(fields);
    CleanedConfigShaped(fields);
    CleanModuleRef(fields);
    var config := Clean(GetOr(fields, "config", JObject([])));
    if config.Success? {
      ReferenceShaped(GetOr(fields, "class_name", JNull), config.value);
    }
  }

  lemma PlainObjectShaped(fields: seq<Field>)
    requires !IsDTypePolicy(fields) && !IsModuleRef(fields)
    requires CleanedShaped(fields)
    ensures Clean(JObject(fields)).Success? ==> TfjsShaped(Clean(JObject(fields)).value)
  {
    var kept := KeptFields(fields);
    if Clean(JObject(fields)).Success? {
      var out := Clean(JObject(fields)).value.fields;
      assert |out| == |kept|;
      assert forall i :: 0 <= i < |out| ==> out[i].key == kept[i].key && Clean(kept[i].value) == Success(out[i].value);
      forall i | 0 <= i < |out| ensures TfjsShaped(out[i].value) {
        var m :| 0 <= m < |fields| && fields[m] == kept[i];
      }
      assert KeySet(out) == KeySet(kept) by {
        forall k | k in KeySet(kept) ensures k in KeySet(out) {
          var i :| 0 <= i < |kept| && kept[i].key == k;
          assert out[i].key == k;
        }
      }
      KeptFieldsKeys(fields);
      HasKeyInKeySet(out, "module");
      HasKeyInKeySet(fields, "module");
      HasKeyInKeySet(out, "class_name");
      HasKeyInKeySet(fields, "class_name");
      HasKeyInKeySet(out, "registered_name");
      HasKeyInKeySet(fields, "registered_name");
    }
  }

  /** No dict anywhere in the tree is a dtype policy whose config is not a dict. */
  predicate NoBadPolicy(j: Json)
    decreases j
  {
    match j
    case JObject(fields) =>
      !(IsDTypePolicy(fields) && !GetOr(fields, "config", JNull).JObject?) &&
      forall i :: 0 <= i < |fields| ==> NoBadPolicy(fields[i].value)
    case JArray(items) => forall i :: 0 <= i < |items| ==> NoBadPolicy(items[i])
    case _ => true
  }

  /** A tree without a malformed dtype policy cleans successfully. */
  lemma {:induction false} CleanSucceeds(j: Json)
    requires NoBadPolicy(j)
    ensures Clean(j).Success?
    decreases j
  {
    match j
    case JObject(fields) =>
      forall i | 0 <= i < |fields| ensures Clean(fields[i].value).Success? {
        CleanSucceeds(fields[i].value);
      }
      if !IsDTypePolicy(fields) && !IsModuleRef(fields) {
        var kept := KeptFields(fields);
        forall i | 0 <= i < |kept| ensures Clean(kept[i].value).Success? {
          var m :| 0 <= m < |fields| && fields[m] == kept[i];
        }
      }
    case JArray(items) =>
      forall i | 0 <= i < |items| ensures Clean(items[i]).Success? {
        CleanSucceeds(items[i]);
      }
    case _ =>
  }

  /** Whatever `_clean` returns is TF.js-shaped, everywhere in the tree. */
  lemma {:induction false} CleanMakesTfjsShaped(j: Json)
    requires NamesScalar(j)
    ensures Clean(j).Success? ==> TfjsShaped(Clean(j).value)
    decreases j
  {
    match j
    case JObject(fields) =>
      forall i | 0 <= i < |fields| ensures Clean(fields[i].value).Success? ==> TfjsShaped(Clean(fields[i].value).value) {
        CleanMakesTfjsShaped(fields[i].value);
      }
      if IsDTypePolicy(fields) {
        DTypePolicyShaped(fields);
      } else if IsModuleRef(fields) {
        ModuleRefShaped(fields);
      } else {
        PlainObjectShaped(fields);
      }
    case JArray(items) =>
      forall i | 0 <= i < |items| ensures Clean(items[i]).Success? ==> TfjsShaped(Clean(items[i]).value) {
        CleanMakesTfjsShaped(items[i]);
      }
    case _ =>
  }

  /** `obj.get(key, default)` on a value that may not be a dict: anything else
      has no `.get` and raises. */
  function Lookup(j: Json, key: string, default: Json): (r: Result<Json, PatchError>)
    ensures r.Success? <==> j.JObject?
  {
    if j.JObject? then Success(GetOr(j.fields, key, default)) else Failure(LookupOnNonObject)
  }

  /** The value reached by following the keys of `path` through nested dicts,
      if every key is present; `None` as soon as a key is missing or a level
      is not a dict. No defaults are involved. */
  function At(j: Json, path: seq<string>): Option<Json>
    decreases |path|
  {
    if path == [] then Some(j)
    else if !j.JObject? then None
    else match Get(j.fields, path[0])
      case None => None
      case Some(v) => At(v, path[1..])
  }

  /** A value is present at `path` and it is not a dict. */
  predicate NotDictAt(j: Json, path: seq<string>) {
    At(j, path).Some? && !At(j, path).value.JObject?
  }

  const ModelConfigPath: seq<string> := ["model_config"]
  const ConfigPath: seq<string> := ["model_config", "config"]
  const NamePath: seq<string> := ["model_config", "config", "name"]

  /** The model name whose `name/` prefix is stripped from weight names: the chain
      of `.get`s on the cleaned topology, with "sequential" where a level is missing. */
  function ModelName(topology: Json): (r: Result<string, PatchError>)
    ensures r == Failure(LookupOnNonObject) <==>
              !topology.JObject? || NotDictAt(topology, ModelConfigPath) || NotDictAt(topology, ConfigPath)
    ensures r == Failure(ModelNameNotString) <==>
              At(topology, NamePath).Some? && !At(topology, NamePath).value.JString?
    ensures forall name :: At(topology, NamePath) == Some(JString(name)) ==> r == Success(name)
    ensures (&& topology.JObject?
             && !NotDictAt(topology, ModelConfigPath)
             && !NotDictAt(topology, ConfigPath)
             && At(topology, NamePath).None?) ==> r == Success("sequential")
  {
    var modelConfig :- Lookup(topology, "model_config", JObject([]));
    var config :- Lookup(modelConfig, "config", JObject([]));
    var name :- Lookup(config, "name", JString("sequential"));
    if name.JString? then Success(name.str) else Failure(ModelNameNotString)
  }

  /** The text `"batch_shape":` that Keras 3 writes for an input layer. */
  const BatchShapeKey: string := "\"batch_shape\":"
  /** The text `"batch_input_shape":` that TF.js reads instead. */
  const BatchInputShapeKey: string := "\"batch_input_shape\":"

  /** The textual rename applied to the raw file before it is parsed. */
  function RenameBatchShape(raw: string): string {
    ReplaceAll(raw, BatchShapeKey, BatchInputShapeKey)
  }

  /** The renamed text starts with `":` only if the original did. */
  lemma RenamedColon(v: string)
    ensures StartsWith(RenameBatchShape(v), "\":") ==> StartsWith(v, "\":")
  {
    var out := RenameBatchShape(v);
    if StartsWith(v, BatchShapeKey) {
      assert out[..20] == BatchInputShapeKey;
      assert out[1] == 'b';
    } else if v != [] {
      var rest := RenameBatchShape(v[1..]);
      assert out == [v[0]] + rest;
      if |rest| >= 1 && rest[0] != '"' {
        CopiedHead(v[1..], BatchShapeKey, BatchInputShapeKey);
      }
    }
  }

  /** For a quote-free `name`, the renamed text starts with `name":` only if
      the original did. */
  lemma {:induction false} RenamedKeyTail(u: string, name: string)
    requires forall j :: 0 <= j < |name| ==> name[j] != '"'
    ensures StartsWith(RenameBatchShape(u), name + "\":") ==> StartsWith(u, name + "\":")
    decreases |name|
  {
    var out := RenameBatchShape(u);
    var key := name + "\":";
    if name == [] {
      assert key == "\":";
      RenamedColon(u);
    } else if |out| >= 1 && out[0] != '"' {
      CopiedHead(u, BatchShapeKey, BatchInputShapeKey);
      RenamedKeyTail(u[1..], name[1..]);
      assert key[1..] == name[1..] + "\":";
      StartsWithCons(out, key);
      StartsWithCons(u, key);
    } else {
      assert key[0] == name[0];
      if out != [] {
        StartsWithCons(out, key);
      }
    }
  }

  /** The old key cannot start inside the new key: its opening quote would have
      to be the new key's first or second-to-last character. */
  lemma NoKeyInsideReplacement(rest: string, i: nat)
    requires i < |BatchInputShapeKey|
    ensures !OccursAt(BatchInputShapeKey + rest, BatchShapeKey, i)
  {
    var out := BatchInputShapeKey + rest;
    assert forall j :: 0 <= j < 20 && BatchInputShapeKey[j] == '"' ==> j == 0 || j == 18;
    if i + 14 <= |out| {
      var w := out[i..i + 14];
      assert w[0] == out[i] == BatchInputShapeKey[i];
      assert i < 19 ==> w[1] == BatchInputShapeKey[i + 1];
      assert i < 13 ==> w[7] == BatchInputShapeKey[i + 7];
      assert BatchShapeKey[0] == '"' && BatchShapeKey[1] == 'b' && BatchShapeKey[7] == 's';
    }
  }

  /** Writing the new key in front of text free of the old key leaves it free. */
  lemma NoKeyAfterReplacement(rest: string)
    requires forall i: nat :: !OccursAt(rest, BatchShapeKey, i)
    ensures forall i: nat :: !OccursAt(BatchInputShapeKey + rest, BatchShapeKey, i)
  {
    forall i: nat ensures !OccursAt(BatchInputShapeKey + rest, BatchShapeKey, i) {
      if i >= 20 {
        OccursAtShift(BatchInputShapeKey, rest, BatchShapeKey, i - 20);
      } else {
        NoKeyInsideReplacement(rest, i);
      }
    }
  }

  /** A copied character followed by the renamed rest does not start the old
      key: the rest would have to start with `batch_shape":`, and then so would
      the original rest, making the copied character the start of the key. */
  lemma NoKeyAtCopied(s: string)
    requires s != [] && !StartsWith(s, BatchShapeKey)
    ensures !OccursAt([s[0]] + RenameBatchShape(s[1..]), BatchShapeKey, 0)
  {
    var rest := RenameBatchShape(s[1..]);
    var out := [s[0]] + rest;
    RenamedKeyTail(s[1..], "batch_shape");
    assert BatchShapeKey[1..] == "batch_shape" + "\":";
    assert |rest| >= 13 ==> rest[..13] == out[1..14];
    assert |s| >= 14 ==> s[..14] == [s[0]] + s[1..][..13];
  }

  /** After the rename no `"batch_shape":` is left anywhere in the text: the
      replacement cannot re-create the key, neither on its own nor together
      with the text around it. */
  lemma {:induction false} RenameBatchShapeComplete(s: string)
    ensures forall i: nat :: !OccursAt(RenameBatchShape(s), BatchShapeKey, i)
    decreases |s|
  {
    var out := RenameBatchShape(s);
    if StartsWith(s, BatchShapeKey) {
      RenameBatchShapeComplete(s[14..]);
      assert out == BatchInputShapeKey + RenameBatchShape(s[14..]);
      NoKeyAfterReplacement(RenameBatchShape(s[14..]));
    } else if s != [] {
      var rest := RenameBatchShape(s[1..]);
      RenameBatchShapeComplete(s[1..]);
      assert out == [s[0]] + rest;
      forall i: nat ensures !OccursAt(out, BatchShapeKey, i) {
        if i >= 1 {
          OccursAtShift([s[0]], rest, BatchShapeKey, i - 1);
        } else {
          NoKeyAtCopied(s);
        }
      }
    }
  }

  /** Text without `"batch_shape":` passes through unchanged. */
  lemma RenameBatchShapeUnchanged(s: string)
    requires forall i: nat :: !OccursAt(s, BatchShapeKey, i)
    ensures RenameBatchShape(s) == s
  {
    ReplaceAllWithoutPattern(s, BatchShapeKey, BatchInputShapeKey);
  }

  /** Undoing the rename gives the original text back, for any text that did
      not already contain `"batch_input_shape":`: every occurrence of the old key
      now reads as the new key, and nothing else has changed. */
  lemma {:induction false} RenameBatchShapeReversible(s: string)
    requires forall i: nat :: !OccursAt(s, BatchInputShapeKey, i)
    ensures ReplaceAll(RenameBatchShape(s), BatchInputShapeKey, BatchShapeKey) == s
    decreases |s|
  {
    var out := RenameBatchShape(s);
    if StartsWith(s, BatchShapeKey) {
      forall i: nat ensures !OccursAt(s[14..], BatchInputShapeKey, i) {
        assert s == s[..14] + s[14..];
        OccursAtShift(s[..14], s[14..], BatchInputShapeKey, i);
      }
      RenameBatchShapeReversible(s[14..]);
      var rest := RenameBatchShape(s[14..]);
      assert out == BatchInputShapeKey + rest;
      assert (BatchInputShapeKey + rest)[20..] == rest;
      assert s == BatchShapeKey + s[14..];
    } else if s != [] {
      forall i: nat ensures !OccursAt(s[1..], BatchInputShapeKey, i) {
        assert s == [s[0]] + s[1..];
        OccursAtShift([s[0]], s[1..], BatchInputShapeKey, i);
      }
      RenameBatchShapeReversible(s[1..]);
      var rest := RenameBatchShape(s[1..]);
      assert out == [s[0]] + rest;
      RenamedKeyTail(s[1..], "batch_input_shape");
      assert BatchInputShapeKey[1..] == "batch_input_shape" + "\":";
      assert |rest| >= 19 ==> rest[..19] == out[1..20];
      assert |s| >= 20 ==> s[..20] == [s[0]] + s[1..][..19];
      assert !OccursAt(s, BatchInputShapeKey, 0);
      assert !StartsWith(out, BatchInputShapeKey);
      assert out[1..] == rest;
    }
  }

  /** Renaming twice is renaming once. */
  lemma RenameBatchShapeIdempotent(s: string)
    ensures RenameBatchShape(RenameBatchShape(s)) == RenameBatchShape(s)
  {
    RenameBatchShapeComplete(s);
    RenameBatchShapeUnchanged(RenameBatchShape(s));
  }
}
