/** The metadata entity: an ordered path of (key, value) components plus the key that
    names its type, its builder, and the default-version normalisation that the entity-id
    layer applies to versioned entities. */
module Entities {
  import opened Wrappers

  const Application := "application"
  const Schedule := "schedule"
  const Program := "program"
  const Version := "version"

  /** The version that a versioned entity is given when none is stored. */
  const DefaultVersion := "-SNAPSHOT"

  datatype KeyValue = KeyValue(key: string, value: string)

  /** Components in hierarchy order; entityType is the key of the component naming the leaf. */
  datatype MetadataEntity = MetadataEntity(pairs: seq<KeyValue>, entityType: string)

  /** The version component every versioned entity carries after normalisation. */
  const DefaultVersionPair := KeyValue(Version, DefaultVersion)

  /** ASCII lower-casing of one character. */
  function LowerAscii(c: char): char
  {
    if 'A' <= c <= 'Z' then (c as int + 32) as char else c
  }

  /** String equality ignoring (ASCII) case, character by character. */
  predicate EqualsIgnoreCase(a: string, b: string)
  {
    |a| == |b| && (a == [] || (LowerAscii(a[0]) == LowerAscii(b[0]) && EqualsIgnoreCase(a[1..], b[1..])))
  }

  lemma {:induction false} EqualsIgnoreCaseReflexive(a: string)
    ensures EqualsIgnoreCase(a, a)
  {
    if a != [] {
      EqualsIgnoreCaseReflexive(a[1..]);
    }
  }

  predicate IsVersionKey(key: string)
  {
    EqualsIgnoreCase(key, Version)
  }

  predicate HasKey(ps: seq<KeyValue>, key: string)
  {
    exists kv :: kv in ps && kv.key == key
  }

  /** The builder of a metadata entity. `asType` is the key most recently appended as the
      type; without one, the last appended key names the type. */
  datatype EntityBuilder = EntityBuilder(parts: seq<KeyValue>, asType: Option<string>)
  {
    function Append(key: string, value: string): (b: EntityBuilder)
      ensures b.parts == parts + [KeyValue(key, value)] && b.asType == asType
    {
      EntityBuilder(parts + [KeyValue(key, value)], asType)
    }

    function AppendAsType(key: string, value: string): (b: EntityBuilder)
      ensures b.parts == parts + [KeyValue(key, value)] && b.asType == Some(key)
    {
      EntityBuilder(parts + [KeyValue(key, value)], Some(key))
    }

    /** Rejects an empty path and a type that names none of the components. */
    function Build(): (r: Result<MetadataEntity>)
      ensures r.Success? ==> r.value.pairs == parts && HasKey(parts, r.value.entityType)
      ensures r.Success? <==> |parts| > 0 && (asType.None? || HasKey(parts, asType.value))
      ensures r.Failure? ==> r.error == InvalidEntity
    {
      if |parts| == 0 then
        Failure(InvalidEntity)
      else
        var last := parts[|parts| - 1];
        var t := if asType.Some? then asType.value else last.key;
        assert last in parts;
        if HasKey(parts, t) then Success(MetadataEntity(parts, t)) else Failure(InvalidEntity)
    }
  }

  const EmptyBuilder := EntityBuilder([], None)

  /** The pairs that are not version components, in their original order. */
  function WithoutVersion(ps: seq<KeyValue>): (r: seq<KeyValue>)
    ensures |r| <= |ps|
  {
    if ps == [] then []
    else
      var last := ps[|ps| - 1];
      WithoutVersion(ps[..|ps| - 1]) + (if IsVersionKey(last.key) then [] else [last])
  }

  /** Puts the default version component right after the application component (at the
      end when there is none). */
  function InsertDefaultVersion(ps: seq<KeyValue>): seq<KeyValue>
  {
    if ps == [] then [DefaultVersionPair]
    else if ps[0].key == Application then [ps[0], DefaultVersionPair] + ps[1..]
    else [ps[0]] + InsertDefaultVersion(ps[1..])
  }

  /** The entity-id round trip for a versioned entity: whatever version components the
      entity had are replaced by the single default version component. */
  function WithDefaultVersion(e: MetadataEntity): (r: MetadataEntity)
    ensures r.entityType == e.entityType
  {
    MetadataEntity(InsertDefaultVersion(WithoutVersion(e.pairs)), e.entityType)
  }
}
