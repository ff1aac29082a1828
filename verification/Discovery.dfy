/**
 Building reverse relations from the registered models, and naming and parsing migration files.
 */
module Discovery {
  import opened Wrappers
  import opened Sequences
  import opened Strings
  import opened Registry
  import opened Decimal

  datatype RelationType = OneToMany | ManyToMany | OneToOne

  datatype RelationMetadata = RelationMetadata(
    fromModel: string, toModel: string, fieldName: string, relatedName: Option<string>, relationType: RelationType)
  {
    /** `lower` maps a string to lower case. */
    function ReverseName(lower: string -> string): string {
      match relatedName case Some(name) => name case None => lower(fromModel) + "_set"
    }
  }

  function ToRelation(rel: RelationshipMetadata): RelationMetadata {
    RelationMetadata(
      rel.FromModelName(), rel.ToModelName(), rel.fieldName, rel.relatedName,
      match rel.relationshipType
      case ForeignKey => OneToMany
      case ManyToMany => RelationType.ManyToMany
      case OneToOne => RelationType.OneToOne)
  }

  function ToReverse(lower: string -> string, r: RelationMetadata): ReverseRelationMetadata {
    ReverseRelationMetadata(
      r.toModel, r.ReverseName(lower), r.fromModel,
      match r.relationType
      case OneToMany => ReverseOneToMany
      case ManyToMany => ReverseManyToMany
      case OneToOne => ReverseOneToOne,
      r.fieldName)
  }

  /** The reverse of one declared relationship. */
  function Reverse(lower: string -> string, rel: RelationshipMetadata): ReverseRelationMetadata {
    ToReverse(lower, ToRelation(rel))
  }

  function Reverses(lower: string -> string, rels: seq<RelationshipMetadata>): seq<ReverseRelationMetadata> {
    Map((rel: RelationshipMetadata) => Reverse(lower, rel), rels)
  }

  const BY_TARGET_MODEL := (rel: RelationshipMetadata) => rel.ToModelName()

  /** The relationships of the registered models: model by model, each model's in declaration order. */
  function ModelRelationships(models: seq<ModelMetadata>, rels: seq<RelationshipMetadata>): seq<RelationshipMetadata> {
    if models == [] then []
    else ModelRelationships(models[..|models| - 1], rels) + Under(BY_SOURCE, rels, models[|models| - 1].QualifiedName())
  }

  method ExtractModelRelations(registry: Registry, model: ModelMetadata) returns (r: seq<RelationMetadata>)
    requires registry.Valid()
    modifies registry`relationshipCache
    ensures registry.Valid()
    ensures r == Map(ToRelation, Under(BY_SOURCE, registry.relationships, model.QualifiedName()))
  {
    var relationships := registry.GetRelationshipsForModel(model.QualifiedName());
    r := Map(ToRelation, relationships);
  }

  method CreateReverseRelation(registry: Registry, lower: string -> string, relation: RelationMetadata)
    returns (r: Result<(), RegistryError>)
    requires registry.Valid()
    modifies registry`builder
    ensures registry.Valid()
    ensures r.Ok? <==> registry.reverseRelations.None?
    ensures registry.builder ==
            old(registry.builder) + if registry.reverseRelations.None? then [ToReverse(lower, relation)] else []
  {
    r := registry.RegisterReverseRelation(ToReverse(lower, relation));
  }

  /** Fails only when the relations are frozen and there is at least one to register. */
  method BuildReverseRelations(registry: Registry, lower: string -> string) returns (r: Result<(), RegistryError>)
    requires registry.Valid()
    modifies registry`relationshipCache, registry`builder
    ensures registry.Valid()
    ensures var found := ModelRelationships(registry.models, registry.relationships);
            && (r.Ok? <==> registry.reverseRelations.None? || found == [])
            && registry.builder == old(registry.builder) +
                 if registry.reverseRelations.None? then Reverses(lower, found) else []
  {
    hide *;
    var models := registry.models;
    var relations: seq<RelationMetadata> := [];
    NoRelationsYet(models, registry.relationships, lower);
    for i := 0 to |models|
      invariant registry.Valid()
      invariant registry.builder == old(registry.builder)
      invariant relations == Map(ToRelation, ModelRelationships(models[..i], registry.relationships))
    {
      var modelRelations := ExtractModelRelations(registry, models[i]);
      OneModelCollected(models, i, registry.relationships);
      relations := relations + modelRelations;
    }
    assert models[..|models|] == models;
    ReversesOfRelations(lower, ModelRelationships(models, registry.relationships));
    for i := 0 to |relations|
      invariant registry.Valid()
      invariant i > 0 ==> registry.reverseRelations.None?
      invariant registry.builder == old(registry.builder) + ReversesOf(lower, relations[..i])
    {
      OneRelationReversed(lower, relations, i);
      var created := CreateReverseRelation(registry, lower, relations[i]);
      if created.Err? {
        return Err(created.error);
      }
    }
    assert relations[..|relations|] == relations;
    return Ok(());
  }

  lemma NoRelationsYet(models: seq<ModelMetadata>, rels: seq<RelationshipMetadata>, lower: string -> string)
    ensures Map(ToRelation, ModelRelationships(models[..0], rels)) == []
    ensures forall relations: seq<RelationMetadata> :: ReversesOf(lower, relations[..0]) == []
  {
  }

  lemma OneModelCollected(models: seq<ModelMetadata>, i: nat, rels: seq<RelationshipMetadata>)
    requires i < |models|
    ensures Map(ToRelation, ModelRelationships(models[..i + 1], rels)) ==
            Map(ToRelation, ModelRelationships(models[..i], rels)) +
            Map(ToRelation, Under(BY_SOURCE, rels, models[i].QualifiedName()))
  {
    assert models[..i + 1][..i] == models[..i];
    MapConcat(ToRelation, ModelRelationships(models[..i], rels), Under(BY_SOURCE, rels, models[i].QualifiedName()));
  }

  lemma OneRelationReversed(lower: string -> string, relations: seq<RelationMetadata>, i: nat)
    requires i < |relations|
    ensures ReversesOf(lower, relations[..i + 1]) == ReversesOf(lower, relations[..i]) + [ToReverse(lower, relations[i])]
  {
  }

  function ReversesOf(lower: string -> string, relations: seq<RelationMetadata>): seq<ReverseRelationMetadata> {
    Map((r: RelationMetadata) => ToReverse(lower, r), relations)
  }

  lemma {:induction false} ReversesOfRelations(lower: string -> string, rels: seq<RelationshipMetadata>)
    ensures ReversesOf(lower, Map(ToRelation, rels)) == Reverses(lower, rels)
  {
  }

  // ----- What lookups return once built and finalized -----

  lemma {:induction false} UnderOfReverses(lower: string -> string, rels: seq<RelationshipMetadata>, target: string)
    ensures Under(BY_TARGET, Reverses(lower, rels), target) == Reverses(lower, Under(BY_TARGET_MODEL, rels, target))
  {
    var f := (rel: RelationshipMetadata) => Reverse(lower, rel);
    if rels != [] {
      var front, last := rels[..|rels| - 1], rels[|rels| - 1];
      assert rels == front + [last];
      UnderOfReverses(lower, front, target);
      MapStep(f, front, last);
      UnderStep(BY_TARGET, Reverses(lower, front), f(last), target);
      UnderStep(BY_TARGET_MODEL, front, last, target);
      MapStep(f, Under(BY_TARGET_MODEL, front, target), last);
    }
  }

  /** The relationships whose target is the model of that qualified name. */
  function Targeting(rels: seq<RelationshipMetadata>, qualifiedName: string): seq<RelationshipMetadata> {
    Filter((rel: RelationshipMetadata) => rel.toModel == qualifiedName, rels)
  }

  /**
   Reverse relations are looked up by the model's short name: what is found under it is what belongs to one
   model exactly when no relationship targets another model of that short name.
   */
  lemma FindsOneModelsExactly(lower: string -> string, rels: seq<RelationshipMetadata>, q: string)
    ensures Under(BY_TARGET, Reverses(lower, rels), LastSegment(q, '.')) == Reverses(lower, Targeting(rels, q)) <==>
            forall rel :: rel in rels && rel.ToModelName() == LastSegment(q, '.') ==> rel.toModel == q
  {
    hide LastSegment;
    UnderOfReverses(lower, rels, LastSegment(q, '.'));
    TargetingIsPart(rels, q);
  }

  /** The relationships to one model are among those to its short name, and all of them exactly when no other has it. */
  lemma {:induction false} TargetingIsPart(rels: seq<RelationshipMetadata>, q: string)
    ensures |Targeting(rels, q)| <= |Under(BY_TARGET_MODEL, rels, LastSegment(q, '.'))|
    ensures if forall rel :: rel in rels && rel.ToModelName() == LastSegment(q, '.') ==> rel.toModel == q
            then Targeting(rels, q) == Under(BY_TARGET_MODEL, rels, LastSegment(q, '.'))
            else |Targeting(rels, q)| < |Under(BY_TARGET_MODEL, rels, LastSegment(q, '.'))|
  {
    hide LastSegment;
    if rels != [] {
      var front, last := rels[..|rels| - 1], rels[|rels| - 1];
      assert rels == front + [last];
      TargetingIsPart(front, q);
      UnderStep(BY_TARGET_MODEL, front, last, LastSegment(q, '.'));
      FilterStep((rel: RelationshipMetadata) => rel.toModel == q, front, last);
    }
  }

  // ----- What a lookup finds -----

  /** `t` is what follows the last dot of `name`, or all of it when there is none. */
  ghost predicate IsModelName(name: string, t: string) {
    '.' !in t && (name == t || exists a :: name == a + "." + t)
  }

  lemma ModelNameExactly(name: string, t: string)
    ensures LastSegment(name, '.') == t <==> IsModelName(name, t)
  {
    LastSegmentExactly(name, '.', t);
    hide LastSegment;
    if IsModelName(name, t) && name != t {
      var a :| name == a + "." + t;
      assert name == a + ['.'] + t;
    }
    if name != t {
      forall a | name == a + ['.'] + t ensures name == a + "." + t {}
    }
  }

  /** The relationship is declared on one of the models. */
  ghost predicate IsDeclared(models: seq<ModelMetadata>, rel: RelationshipMetadata) {
    exists m :: m in models && rel.fromModel == m.appLabel + "." + m.modelName
  }

  /** `e`, on model `t`, is the other side of the relationship. */
  ghost predicate IsOtherSide(lower: string -> string, rel: RelationshipMetadata, t: string, e: ReverseRelationMetadata) {
    && IsModelName(rel.toModel, t) && e.onModel == t
    && IsModelName(rel.fromModel, e.relatedModel)
    && e.throughField == rel.fieldName
    && (rel.relatedName.Some? ==> e.accessorName == rel.relatedName.value)
    && (rel.relatedName.None? ==> e.accessorName == lower(e.relatedModel) + "_set")
    && (rel.relationshipType.ForeignKey? ==> e.relationType == ReverseOneToMany)
    && (rel.relationshipType.ManyToMany? ==> e.relationType == ReverseManyToMany)
    && (rel.relationshipType.OneToOne? ==> e.relationType == ReverseOneToOne)
  }

  lemma ReverseIsOtherSide(lower: string -> string, rel: RelationshipMetadata, t: string, e: ReverseRelationMetadata)
    ensures e == Reverse(lower, rel) && e.onModel == t <==> IsOtherSide(lower, rel, t, e)
  {
    hide LastSegment;
    ModelNameExactly(rel.toModel, t);
    ModelNameExactly(rel.fromModel, e.relatedModel);
  }

  lemma {:induction false} CollectedMembers(models: seq<ModelMetadata>, rels: seq<RelationshipMetadata>, rel: RelationshipMetadata)
    ensures rel in ModelRelationships(models, rels) <==> rel in rels && IsDeclared(models, rel)
  {
    if models != [] {
      var front, last := models[..|models| - 1], models[|models| - 1];
      assert models == front + [last];
      CollectedMembers(front, rels, rel);
      UnderMembers(BY_SOURCE, rels, last.QualifiedName(), rel);
    }
  }

  lemma NoneCollected(models: seq<ModelMetadata>, rels: seq<RelationshipMetadata>)
    ensures ModelRelationships(models, rels) == [] <==> forall rel :: rel in rels ==> !IsDeclared(models, rel)
  {
    hide ModelRelationships, IsDeclared;
    var found := ModelRelationships(models, rels);
    forall rel ensures rel in found <==> rel in rels && IsDeclared(models, rel) { CollectedMembers(models, rels, rel); }
    if found != [] { assert found[0] in found; }
  }

  /** Found under a name are exactly the other sides of the declared relationships whose target has that name. */
  lemma FoundExactly(lower: string -> string, models: seq<ModelMetadata>, rels: seq<RelationshipMetadata>, t: string,
                     e: ReverseRelationMetadata)
    ensures e in Under(BY_TARGET, Reverses(lower, ModelRelationships(models, rels)), t) <==>
            exists rel :: rel in rels && IsDeclared(models, rel) && IsOtherSide(lower, rel, t, e)
  {
    hide ModelRelationships, IsDeclared, IsOtherSide, Reverse;
    var found := ModelRelationships(models, rels);
    UnderMembers(BY_TARGET, Reverses(lower, found), t, e);
    if e in Reverses(lower, found) && e.onModel == t {
      var i :| 0 <= i < |found| && Reverses(lower, found)[i] == e;
      CollectedMembers(models, rels, found[i]);
      ReverseIsOtherSide(lower, found[i], t, e);
    }
    if rel :| rel in rels && IsDeclared(models, rel) && IsOtherSide(lower, rel, t, e) {
      CollectedMembers(models, rels, rel);
      ReverseIsOtherSide(lower, rel, t, e);
      var i :| 0 <= i < |found| && found[i] == rel;
      assert Reverses(lower, found)[i] == e;
    }
  }

  ghost predicate DistinctNames(models: seq<ModelMetadata>) {
    forall i, j :: 0 <= i < j < |models| ==> models[i].QualifiedName() != models[j].QualifiedName()
  }

  /** Whether the relationship is declared on one of the models. */
  predicate Declared(models: seq<ModelMetadata>, rel: RelationshipMetadata) {
    exists i :: 0 <= i < |models| && models[i].QualifiedName() == rel.fromModel
  }

  function DeclaredOnly(models: seq<ModelMetadata>, rels: seq<RelationshipMetadata>): seq<RelationshipMetadata> {
    Filter((rel: RelationshipMetadata) => Declared(models, rel), rels)
  }

  /** With distinct model names, every relationship declared on a registered model is collected exactly once. */
  lemma {:induction false} NothingLostOrDuplicated(models: seq<ModelMetadata>, rels: seq<RelationshipMetadata>)
    requires DistinctNames(models)
    ensures multiset(ModelRelationships(models, rels)) == multiset(DeclaredOnly(models, rels))
  {
    if models == [] {
      NoneDeclared(rels);
    } else {
      var front, last := models[..|models| - 1], models[|models| - 1];
      assert models == front + [last];
      NothingLostOrDuplicated(front, rels);
      OneMoreModel(front, last, rels);
    }
  }

  lemma {:induction false} NoneDeclared(rels: seq<RelationshipMetadata>)
    ensures DeclaredOnly([], rels) == []
  {
    if rels != [] { NoneDeclared(rels[..|rels| - 1]); }
  }

  lemma {:induction false} OneMoreModel(models: seq<ModelMetadata>, m: ModelMetadata, rels: seq<RelationshipMetadata>)
    requires DistinctNames(models + [m])
    ensures multiset(DeclaredOnly(models + [m], rels)) ==
            multiset(DeclaredOnly(models, rels)) + multiset(Under(BY_SOURCE, rels, m.QualifiedName()))
  {
    if rels != [] {
      var front, last := rels[..|rels| - 1], rels[|rels| - 1];
      assert rels == front + [last];
      OneMoreModel(models, m, front);
      FilterStep((rel: RelationshipMetadata) => Declared(models + [m], rel), front, last);
      FilterStep((rel: RelationshipMetadata) => Declared(models, rel), front, last);
      UnderStep(BY_SOURCE, front, last, m.QualifiedName());
      DeclaredStep(models, m, last);
    }
  }

  lemma DeclaredStep(models: seq<ModelMetadata>, m: ModelMetadata, rel: RelationshipMetadata)
    requires DistinctNames(models + [m])
    ensures Declared(models + [m], rel) <==> Declared(models, rel) || rel.fromModel == m.QualifiedName()
    ensures !(Declared(models, rel) && rel.fromModel == m.QualifiedName())
  {
    var all := models + [m];
    assert all[|models|] == m;
    forall i | 0 <= i < |models| ensures all[i] == models[i] && all[i].QualifiedName() != all[|models|].QualifiedName() {}
  }

  // ----- Migration files -----

  const MAX_U32: nat := 0xFFFF_FFFF

  datatype MigrationMetadata = MigrationMetadata(appLabel: string, name: string, number: nat)
  {
    /** The file stem that discovery expects for this migration. */
    function Stem(): string {
      PrintPadded(number, 4) + "_" + name
    }

    function QualifiedName(): string {
      appLabel + "." + Stem()
    }
  }

  /** A migration is known by its qualified name as long as app labels hold no dot. */
  lemma QualifiedNameIdentifies(a: MigrationMetadata, b: MigrationMetadata)
    requires '.' !in a.appLabel && '.' !in b.appLabel && a.number < 0x1_0000_0000 && b.number < 0x1_0000_0000
    ensures a.QualifiedName() == b.QualifiedName() <==> a == b
  {
    assert a.QualifiedName() == a.appLabel + ['.'] + a.Stem() && b.QualifiedName() == b.appLabel + ['.'] + b.Stem();
    hide MigrationMetadata.Stem;
    SplitOnceAt(a.appLabel, '.', a.Stem());
    SplitOnceAt(b.appLabel, '.', b.Stem());
    ParsesOwnStem(a);
    ParsesOwnStem(b);
  }

  datatype ParseError = InvalidFormat | InvalidNumber

  /** `stem` is the file name without its extension. */
  function ParseMigrationFile(stem: string, appLabel: string): Result<MigrationMetadata, ParseError> {
    match SplitOnce(stem, '_')
    case None => Err(InvalidFormat)
    case Some((number, name)) =>
      match ParseUnsigned(number, MAX_U32)
      case None => Err(InvalidNumber)
      case Some(n) => Ok(MigrationMetadata(appLabel, name, n))
  }

  /** What a stem is read as: the number before the first underscore, below 2^32, and the name behind it. */
  lemma ParsesStemExactly(stem: string, appLabel: string, m: MigrationMetadata)
    ensures ParseMigrationFile(stem, appLabel) == Ok(m) <==>
            && m.appLabel == appLabel && m.number < 0x1_0000_0000
            && exists number ::
                 && '_' !in number && stem == number + ['_'] + m.name
                 && (IsNumeral(number, m.number) || (number != "" && number[0] == '+' && IsNumeral(number[1..], m.number)))
  {
    hide IsNumeral, ParseUnsigned;
    var split := SplitOnce(stem, '_');
    if split.Some? { ParsesExactly(split.value.0, 0xFFFF_FFFF, m.number); }
    forall number | '_' !in number && stem == number + ['_'] + m.name ensures split == Some((number, m.name)) {
      SplitOnceAt(number, '_', m.name);
    }
  }

  /** Every migration is read back from its own file stem. */
  lemma ParsesOwnStem(m: MigrationMetadata)
    requires m.number < 0x1_0000_0000
    ensures ParseMigrationFile(m.Stem(), m.appLabel) == Ok(m)
  {
    assert m.Stem() == PrintPadded(m.number, 4) + ['_'] + m.name;
    SplitOnceAt(PrintPadded(m.number, 4), '_', m.name);
    ParsesPrinted(m.number, 4, MAX_U32);
  }

  /** A file's stem is the one its migration would be given exactly when its number is written canonically. */
  lemma StemIsCanonical(stem: string, appLabel: string)
    requires ParseMigrationFile(stem, appLabel).Ok?
    ensures ParseMigrationFile(stem, appLabel).value.Stem() == stem <==>
            var number := SplitOnce(stem, '_').value.0;
            AllDigits(number) && (|number| == 4 || (|number| > 4 && number[0] != '0'))
  {
    hide *;
    StemParts(stem, appLabel);
    var (number, name) := SplitOnce(stem, '_').value;
    var m := ParseMigrationFile(stem, appLabel).value;
    PrefixOfSame(PrintPadded(m.number, 4), number, "_" + name);
    if AllDigits(number) { PrintsParsed(number, 4); }
  }

  /** What a stem that parses is made of. */
  lemma StemParts(stem: string, appLabel: string)
    requires ParseMigrationFile(stem, appLabel).Ok?
    ensures SplitOnce(stem, '_').Some?
    ensures var (number, name) := SplitOnce(stem, '_').value;
            var m := ParseMigrationFile(stem, appLabel).value;
            && stem == number + ("_" + name) && m.Stem() == PrintPadded(m.number, 4) + ("_" + name)
            && (AllDigits(number) ==> number != [] && m.number == Value(number))
            && AllDigits(PrintPadded(m.number, 4))
  {
    hide SplitOnce, AllDigits, Value, PrintPadded;
    var (number, name) := SplitOnce(stem, '_').value;
    assert stem == number + ['_'] + name == number + ("_" + name);
    NoSignAmongDigits(number);
  }

  lemma NoSignAmongDigits(s: string)
    ensures AllDigits(s) ==> s == [] || s[0] != '+'
  {
  }

  lemma PrefixOfSame(a: string, b: string, tail: string)
    ensures a + tail == b + tail <==> a == b
  {
    if a + tail == b + tail {
      assert |a + tail| == |a| + |tail| && |b + tail| == |b| + |tail|;
      assert a == (a + tail)[..|a|] && b == (b + tail)[..|b|];
    }
  }
}
