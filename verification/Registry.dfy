/**
 The model registry: the declared models and relationships, lazily built caches over them, and the
 reverse relations that are collected first and frozen later.
 */
module Registry {
  import opened Wrappers
  import opened Sequences
  import opened Strings

  datatype ModelMetadata = ModelMetadata(appLabel: string, modelName: string, tableName: string)
  {
    function QualifiedName(): string {
      appLabel + "." + modelName
    }
  }

  datatype RelationshipType = ForeignKey | ManyToMany | OneToOne

  datatype RelationshipMetadata = RelationshipMetadata(
    fromModel: string, toModel: string, relationshipType: RelationshipType, fieldName: string,
    relatedName: Option<string>, dbColumn: Option<string>, throughTable: Option<string>)
  {
    function FromModelName(): string {
      LastSegment(fromModel, '.')
    }

    function ToModelName(): string {
      LastSegment(toModel, '.')
    }
  }

  datatype ReverseRelationType = ReverseOneToMany | ReverseManyToMany | ReverseOneToOne

  datatype ReverseRelationMetadata = ReverseRelationMetadata(
    onModel: string, accessorName: string, relatedModel: string, relationType: ReverseRelationType,
    throughField: string)

  datatype RegistryError = RegistryState

  // ----- Finding a model by its qualified name -----

  /** The first model that satisfies `p`. */
  function FirstModel(p: ModelMetadata -> bool, models: seq<ModelMetadata>): (r: Option<ModelMetadata>)
    ensures r.Some? ==> r.value in models && p(r.value)
    ensures r.None? ==> forall m :: m in models ==> !p(m)
  {
    if models == [] then None else if p(models[0]) then Some(models[0]) else FirstModel(p, models[1..])
  }

  function FindModel(models: seq<ModelMetadata>, qualifiedName: string): Option<ModelMetadata> {
    var parts := Split(qualifiedName, '.');
    if |parts| != 2 then None
    else FirstModel((m: ModelMetadata) => m.appLabel == parts[0] && m.modelName == parts[1], models)
  }

  /** Label and name are the two parts of the qualified name around its one dot. */
  predicate IsNamed(m: ModelMetadata, qualifiedName: string) {
    '.' !in m.appLabel && '.' !in m.modelName && qualifiedName == m.appLabel + "." + m.modelName
  }

  lemma NamedExactly(m: ModelMetadata, qualifiedName: string)
    ensures var parts := Split(qualifiedName, '.');
            |parts| == 2 && m.appLabel == parts[0] && m.modelName == parts[1] <==> IsNamed(m, qualifiedName)
  {
    var parts := Split(qualifiedName, '.');
    if IsNamed(m, qualifiedName) {
      assert qualifiedName == m.appLabel + ['.'] + m.modelName;
      SplitConcat(m.appLabel, '.', m.modelName);
      SplitNone(m.appLabel, '.');
      SplitNone(m.modelName, '.');
    }
    if |parts| == 2 {
      if '.' !in qualifiedName { SplitNone(qualifiedName, '.'); }
      var (before, after) := SplitOnce(qualifiedName, '.').value;
      SplitFirst(before, '.', after);
      SplitLength(after, '.');
      SplitNone(after, '.');
    }
  }

  /** Found is the first model of that name, and none is found exactly when there is none. */
  lemma {:induction false} FindsFirstNamed(models: seq<ModelMetadata>, qualifiedName: string)
    ensures match FindModel(models, qualifiedName)
            case None => forall m :: m in models ==> !IsNamed(m, qualifiedName)
            case Some(found) => exists i :: 0 <= i < |models| && models[i] == found && IsNamed(found, qualifiedName)
                                            && forall j :: 0 <= j < i ==> !IsNamed(models[j], qualifiedName)
  {
    hide Split, IsNamed;
    var parts := Split(qualifiedName, '.');
    forall m: ModelMetadata
      ensures (|parts| == 2 && m.appLabel == parts[0] && m.modelName == parts[1]) <==> IsNamed(m, qualifiedName)
    {
      NamedExactly(m, qualifiedName);
    }
    if |parts| == 2 {
      FirstExactly((m: ModelMetadata) => m.appLabel == parts[0] && m.modelName == parts[1], models);
    }
  }

  lemma {:induction false} FirstExactly(p: ModelMetadata -> bool, models: seq<ModelMetadata>)
    ensures FirstModel(p, models).Some? ==>
      exists i :: 0 <= i < |models| && models[i] == FirstModel(p, models).value && p(models[i])
                  && forall j :: 0 <= j < i ==> !p(models[j])
  {
    if models != [] && !p(models[0]) && FirstModel(p, models).Some? {
      FirstExactly(p, models[1..]);
      var i :| 0 <= i < |models[1..]| && models[1..][i] == FirstModel(p, models).value && p(models[1..][i])
               && forall j :: 0 <= j < i ==> !p(models[1..][j]);
      assert models[i + 1] == FirstModel(p, models).value && forall j :: 0 < j < i + 1 ==> models[j] == models[1..][j - 1];
    }
  }

  /** A registered model is found by its qualified name exactly when neither part of it has a dot. */
  lemma FindsByQualifiedName(models: seq<ModelMetadata>, m: ModelMetadata)
    requires m in models
    ensures var r := FindModel(models, m.QualifiedName());
            && (r.Some? <==> '.' !in m.appLabel && '.' !in m.modelName)
            && (r.Some? ==> r.value in models && r.value.appLabel == m.appLabel && r.value.modelName == m.modelName)
  {
    assert m.QualifiedName() == m.appLabel + ['.'] + m.modelName;
    SplitConcat(m.appLabel, '.', m.modelName);
    if '.' !in m.appLabel && '.' !in m.modelName {
      SplitNone(m.appLabel, '.');
      SplitNone(m.modelName, '.');
    } else {
      SplitLength(m.appLabel, '.');
      SplitLength(m.modelName, '.');
    }
  }

  lemma {:induction false} SplitLength(s: string, sep: char)
    ensures |Split(s, sep)| == 1 <==> sep !in s
  {
    if s != [] { SplitLength(s[1..], sep); }
  }

  // ----- Caches -----

  /** The entries of `xs` whose key is `k`, in order. */
  function Under<K(==), V>(key: V -> K, xs: seq<V>, k: K): seq<V> {
    Filter((x: V) => key(x) == k, xs)
  }

  lemma UnderMembers<K, V>(key: V -> K, xs: seq<V>, k: K, x: V)
    ensures x in Under(key, xs, k) <==> x in xs && key(x) == k
  {
    FilterMembers((x: V) => key(x) == k, xs, x);
  }

  lemma UnderStep<K, V>(key: V -> K, xs: seq<V>, x: V, k: K)
    ensures Under(key, xs + [x], k) == Under(key, xs, k) + (if key(x) == k then [x] else [])
  {
  }

  function IndexBy<K, V>(key: V -> K, xs: seq<V>): map<K, seq<V>> {
    map k | k in Elems(Map(key, xs)) :: Under(key, xs, k)
  }

  /** Looking a key up in the index is filtering the list: the same entries in the same order. */
  lemma IndexLookup<K, V>(key: V -> K, xs: seq<V>, k: K)
    ensures (if k in IndexBy(key, xs) then IndexBy(key, xs)[k] else []) == Under(key, xs, k)
  {
    var p := (x: V) => key(x) == k;
    if Under(key, xs, k) != [] {
      var x := Under(key, xs, k)[0];
      FilterMembers(p, xs, x);
      var i :| 0 <= i < |xs| && xs[i] == x;
      assert Map(key, xs)[i] == k;
    }
  }

  lemma IndexStep<K, V>(key: V -> K, xs: seq<V>, x: V)
    ensures var m := IndexBy(key, xs);
            IndexBy(key, xs + [x]) == m[key(x) := (if key(x) in m then m[key(x)] else []) + [x]]
  {
    MapStep(key, xs, x);
    ElemsStep(Map(key, xs), key(x));
    IndexLookup(key, xs, key(x));
    forall k ensures Under(key, xs + [x], k) == Under(key, xs, k) + (if key(x) == k then [x] else []) {
      UnderStep(key, xs, x, k);
    }
  }

  method BuildIndex<K(==), V>(key: V -> K, xs: seq<V>) returns (m: map<K, seq<V>>)
    ensures m == IndexBy(key, xs)
  {
    m := map[];
    for i := 0 to |xs|
      invariant m == IndexBy(key, xs[..i])
    {
      var x := xs[i];
      IndexStep(key, xs[..i], x);
      assert xs[..i + 1] == xs[..i] + [x];
      m := m[key(x) := (if key(x) in m then m[key(x)] else []) + [x]];
    }
    assert xs[..|xs|] == xs;
  }

  const BY_APP := (m: ModelMetadata) => m.appLabel
  const BY_SOURCE := (r: RelationshipMetadata) => r.fromModel
  const BY_TARGET := (r: ReverseRelationMetadata) => r.onModel

  class Registry {
    const models: seq<ModelMetadata>
    const relationships: seq<RelationshipMetadata>
    var modelCache: Option<map<string, seq<ModelMetadata>>>
    var relationshipCache: Option<map<string, seq<RelationshipMetadata>>>
    var builder: seq<ReverseRelationMetadata>
    var reverseRelations: Option<map<string, seq<ReverseRelationMetadata>>>

    /** Whatever has been built is the index of what it was built from. */
    ghost predicate Valid()
      reads this
    {
      && (modelCache.Some? ==> modelCache.value == IndexBy(BY_APP, models))
      && (relationshipCache.Some? ==> relationshipCache.value == IndexBy(BY_SOURCE, relationships))
      && (reverseRelations.Some? ==> reverseRelations.value == IndexBy(BY_TARGET, builder))
    }

    constructor (models: seq<ModelMetadata>, relationships: seq<RelationshipMetadata>)
      ensures this.models == models && this.relationships == relationships
      ensures Valid() && builder == [] && reverseRelations == None
    {
      this.models, this.relationships := models, relationships;
      modelCache, relationshipCache, builder, reverseRelations := None, None, [], None;
    }

    method GetModelsForApp(appLabel: string) returns (r: seq<ModelMetadata>)
      requires Valid()
      modifies this`modelCache
      ensures Valid()
      ensures r == Under(BY_APP, models, appLabel)
      ensures forall m :: m in r <==> m in models && m.appLabel == appLabel
      ensures modelCache.Some? && (old(modelCache).Some? ==> modelCache == old(modelCache))
    {
      if modelCache.None? {
        var cache := BuildIndex(BY_APP, models);
        modelCache := Some(cache);
      }
      IndexLookup(BY_APP, models, appLabel);
      forall m { UnderMembers(BY_APP, models, appLabel, m); }
      r := if appLabel in modelCache.value then modelCache.value[appLabel] else [];
    }

    method GetRelationshipsForModel(model: string) returns (r: seq<RelationshipMetadata>)
      requires Valid()
      modifies this`relationshipCache
      ensures Valid()
      ensures r == Under(BY_SOURCE, relationships, model)
      ensures forall rel :: rel in r <==> rel in relationships && rel.fromModel == model
      ensures relationshipCache.Some? && (old(relationshipCache).Some? ==> relationshipCache == old(relationshipCache))
    {
      if relationshipCache.None? {
        var cache := BuildIndex(BY_SOURCE, relationships);
        relationshipCache := Some(cache);
      }
      IndexLookup(BY_SOURCE, relationships, model);
      forall rel { UnderMembers(BY_SOURCE, relationships, model, rel); }
      r := if model in relationshipCache.value then relationshipCache.value[model] else [];
    }

    method RegisterReverseRelation(relation: ReverseRelationMetadata) returns (r: Result<(), RegistryError>)
      requires Valid()
      modifies this`builder
      ensures Valid()
      ensures r.Ok? <==> reverseRelations.None?
      ensures builder == if reverseRelations.None? then old(builder) + [relation] else old(builder)
    {
      if reverseRelations.Some? {
        return Err(RegistryState);
      }
      builder := builder + [relation];
      return Ok(());
    }

    method FinalizeReverseRelations()
      requires Valid()
      modifies this`reverseRelations
      ensures Valid() && reverseRelations.Some?
      ensures old(reverseRelations).Some? ==> reverseRelations == old(reverseRelations)
    {
      if reverseRelations.Some? {
        return;
      }
      var indexed := BuildIndex(BY_TARGET, builder);
      reverseRelations := Some(indexed);
    }

    /** Nothing before finalization, then the registrations on that model in order. */
    ghost function ReverseRelationsOn(modelName: string): seq<ReverseRelationMetadata>
      reads this
    {
      if reverseRelations.None? then [] else Under(BY_TARGET, builder, modelName)
    }

    method GetReverseRelationsForModel(modelName: string) returns (r: seq<ReverseRelationMetadata>)
      requires Valid()
      ensures r == ReverseRelationsOn(modelName)
      ensures forall e :: e in r <==> reverseRelations.Some? && e in builder && e.onModel == modelName
    {
      if reverseRelations.None? {
        return [];
      }
      IndexLookup(BY_TARGET, builder, modelName);
      forall e { UnderMembers(BY_TARGET, builder, modelName, e); }
      return if modelName in reverseRelations.value then reverseRelations.value[modelName] else [];
    }
  }
}
