/** The metadata row-key scheme: value rows and index rows of the metadata table.

      value row:  [v][targetType]([k][v])*[key]?
      index row:  [i][targetType]([k][v])*[key][index]?

    The functions state the layout; the methods build and parse keys with the codec's
    builder and cursor, each proved equal to its function. */
module MetadataKey {
  import opened Wrappers
  import opened MdsKey
  import opened Entities

  /** Prefix segment of a value row (one byte 'v'). */
  const ValueRowMarker: Segment := "v"
  /** Prefix segment of an index row (one byte 'i'). */
  const IndexRowMarker: Segment := "i"

  /** Types whose version component is never stored in a key. */
  const VersionedEntities: set<string> := {Application, Schedule, Program}

  predicate IsVersioned(entityType: string)
  {
    entityType in VersionedEntities
  }

  // ---------------------------------------------------------------------------
  // Layout

  /** Key then value of every pair, in order. */
  function Flatten(ps: seq<KeyValue>): (r: seq<Segment>)
    ensures |r| == 2 * |ps|
  {
    if ps == [] then []
    else Flatten(ps[..|ps| - 1]) + [ps[|ps| - 1].key, ps[|ps| - 1].value]
  }

  /** The n pairs read two segments at a time, key then value, from offset lo on. */
  function PairsAt(segs: seq<Segment>, lo: nat, n: nat): (r: seq<KeyValue>)
    requires lo + 2 * n <= |segs|
    ensures |r| == n
  {
    if n == 0 then []
    else PairsAt(segs, lo, n - 1) + [KeyValue(segs[lo + 2 * n - 2], segs[lo + 2 * n - 1])]
  }

  /** Pairs as a key stores them: the version pairs are dropped when the type is versioned. */
  function StoredOf(ps: seq<KeyValue>, versioned: bool): seq<KeyValue>
  {
    if versioned then WithoutVersion(ps) else ps
  }

  /** The entity's pairs as the key stores them. */
  function StoredPairs(e: MetadataEntity): seq<KeyValue>
  {
    StoredOf(e.pairs, IsVersioned(e.entityType))
  }

  function Trailing(o: Option<Segment>): seq<Segment>
  {
    if o.Some? then [o.value] else []
  }

  function ValueRowKey(e: MetadataEntity, key: Option<Segment>): seq<Segment>
  {
    [ValueRowMarker, e.entityType] + Flatten(StoredPairs(e)) + Trailing(key)
  }

  function IndexRowKey(e: MetadataEntity, key: Segment, index: Option<Segment>): seq<Segment>
  {
    [IndexRowMarker, e.entityType] + Flatten(StoredPairs(e)) + [key] + Trailing(index)
  }

  /** The segment after the row prefix. */
  function TargetTypeOf(segs: seq<Segment>): (r: Result<Segment>)
    ensures r.Success? <==> |segs| >= 2
    ensures r.Failure? ==> r.error == MalformedKey
    ensures r.Success? ==> r.value == segs[1]
  {
    if |segs| < 2 then Failure(MalformedKey) else Success(segs[1])
  }

  /** The segment at the last even offset after the target type: the one segment that is
      not consumed as the value of a pair; none when nothing follows the type. */
  function MetadataKeyOf(segs: seq<Segment>): (r: Result<Option<Segment>>)
    ensures r.Success? <==> |segs| >= 2
    ensures r.Failure? ==> r.error == MalformedKey
    ensures r.Success? ==> (r.value.None? <==> |segs| == 2)
  {
    if |segs| < 2 then Failure(MalformedKey)
    else if |segs| == 2 then Success(None)
    else if |segs| % 2 == 0 then Success(Some(segs[|segs| - 2]))
    else Success(Some(segs[|segs| - 1]))
  }

  /** How many whole pairs a run of m segments holds when each kept pair must be followed
      by at least one more segment. */
  function KeptPairCount(m: nat): (n: nat)
    requires m >= 1
    ensures 2 * n < m <= 2 * n + 2
  {
    if m <= 2 then 0 else 1 + KeptPairCount(m - 2)
  }

  /** The pairs the decoder rebuilds from the segments from offset lo on: a pair is kept
      only when at least one segment follows it. */
  function DecodedPairs(segs: seq<Segment>, lo: nat): (ps: seq<KeyValue>)
    requires lo < |segs|
    ensures lo + 2 * |ps| < |segs| <= lo + 2 * |ps| + 2
  {
    PairsAt(segs, lo, KeptPairCount(|segs| - lo))
  }

  /** One decoder step: a pair whose key equals the target type ignoring case is appended
      as the type, every other pair as a plain component. */
  function MarkStep(b: EntityBuilder, kv: KeyValue, targetType: string): EntityBuilder
  {
    if EqualsIgnoreCase(kv.key, targetType) then b.AppendAsType(kv.key, kv.value)
    else b.Append(kv.key, kv.value)
  }

  function MarkPairs(ps: seq<KeyValue>, targetType: string): EntityBuilder
  {
    if ps == [] then EmptyBuilder
    else MarkStep(MarkPairs(ps[..|ps| - 1], targetType), ps[|ps| - 1], targetType)
  }

  /** A versioned entity is given the default version; others are unchanged. */
  function Normalize(e: MetadataEntity): (r: MetadataEntity)
    ensures r.entityType == e.entityType
    ensures !IsVersioned(e.entityType) ==> r == e
  {
    if IsVersioned(e.entityType) then WithDefaultVersion(e) else e
  }

  /** Builds the entity and gives a versioned one the default version. */
  function BuildNormalized(b: EntityBuilder): (r: Result<MetadataEntity>)
    ensures r.Success? ==> IsVersioned(r.value.entityType) ==> DefaultVersionPair in r.value.pairs
    ensures r.Failure? ==> r == b.Build()
  {
    match b.Build()
    case Failure(err) => Failure(err)
    case Success(e) =>
      if IsVersioned(e.entityType) then DefaultVersionPresent(e); Success(Normalize(e))
      else Success(Normalize(e))
  }

  /** The entity decoded from the segments from offset lo on (the target type, then the
      pairs and the trailing segments). */
  function EntityAfter(segs: seq<Segment>, lo: nat): (r: Result<MetadataEntity>)
    requires lo <= |segs|
    ensures |segs| - lo < 3 ==> r == Failure(MalformedKey)
  {
    if |segs| - lo < 3 then Failure(MalformedKey)
    else BuildNormalized(MarkPairs(DecodedPairs(segs, lo + 1), segs[lo]))
  }

  /** The entity decoded from a whole row key: everything after the row prefix. */
  function EntityOf(segs: seq<Segment>): (r: Result<MetadataEntity>)
    ensures |segs| < 4 ==> r == Failure(MalformedKey)
  {
    if |segs| == 0 then Failure(MalformedKey) else EntityAfter(segs, 1)
  }

  /** The single-segment key every value row starts with. */
  function GetValueRowPrefix(): (k: Key)
    ensures |k.segments| == 1
  {
    Key([ValueRowMarker])
  }

  /** The single-segment key every index row starts with. */
  function GetIndexRowPrefix(): (k: Key)
    ensures |k.segments| == 1
  {
    Key([IndexRowMarker])
  }

  // ---------------------------------------------------------------------------
  // Helper facts the methods below rely on

  lemma {:induction false} InsertedVersionPresent(ps: seq<KeyValue>)
    ensures DefaultVersionPair in InsertDefaultVersion(ps)
  {
    if ps != [] && ps[0].key != Application {
      InsertedVersionPresent(ps[1..]);
    }
  }

  lemma DefaultVersionPresent(e: MetadataEntity)
    ensures DefaultVersionPair in WithDefaultVersion(e).pairs
  {
    InsertedVersionPresent(WithoutVersion(e.pairs));
  }

  lemma WithoutVersionSnoc(ps: seq<KeyValue>, kv: KeyValue)
    ensures WithoutVersion(ps + [kv]) == WithoutVersion(ps) + (if IsVersionKey(kv.key) then [] else [kv])
  {
    assert (ps + [kv])[..|ps|] == ps;
  }

  /** The key segments for one more component: a skipped version pair adds nothing, any
      other pair adds its key and then its value. */
  lemma StoredSegmentsStep(head: seq<Segment>, pairs: seq<KeyValue>, i: nat, versioned: bool)
    requires i < |pairs|
    ensures versioned && EqualsIgnoreCase(pairs[i].key, Version) ==>
      head + Flatten(StoredOf(pairs[..i + 1], versioned)) == head + Flatten(StoredOf(pairs[..i], versioned))
    ensures !(versioned && EqualsIgnoreCase(pairs[i].key, Version)) ==>
      head + Flatten(StoredOf(pairs[..i + 1], versioned))
        == head + Flatten(StoredOf(pairs[..i], versioned)) + [pairs[i].key] + [pairs[i].value]
  {
    var kv := pairs[i];
    var stored := StoredOf(pairs[..i], versioned);
    assert pairs[..i + 1] == pairs[..i] + [kv];
    WithoutVersionSnoc(pairs[..i], kv);
    if versioned && EqualsIgnoreCase(kv.key, Version) {
      assert StoredOf(pairs[..i + 1], versioned) == stored;
    } else {
      assert StoredOf(pairs[..i + 1], versioned) == stored + [kv];
      FlattenSnoc(stored, kv);
      ConcatTwo(head, Flatten(stored), kv.key, kv.value);
    }
  }

  lemma ConcatTwo(a: seq<Segment>, b: seq<Segment>, x: Segment, y: Segment)
    ensures a + b + [x] + [y] == a + (b + [x, y])
  {
  }

  lemma StoredSegmentsAll(head: seq<Segment>, pairs: seq<KeyValue>, versioned: bool)
    ensures head + Flatten(StoredOf(pairs[..|pairs|], versioned)) == head + Flatten(StoredOf(pairs, versioned))
  {
    assert pairs[..|pairs|] == pairs;
  }

  /** Marking one more pair read at an offset is one more decoder step. */
  lemma MarkPairsAtStep(segs: seq<Segment>, lo: nat, n: nat, targetType: string)
    requires lo + 2 * n + 2 <= |segs|
    ensures MarkPairs(PairsAt(segs, lo, n + 1), targetType)
      == MarkStep(MarkPairs(PairsAt(segs, lo, n), targetType), KeyValue(segs[lo + 2 * n], segs[lo + 2 * n + 1]), targetType)
  {
    MarkPairsSnoc(PairsAt(segs, lo, n), KeyValue(segs[lo + 2 * n], segs[lo + 2 * n + 1]), targetType);
  }

  /** The walk stops one or two segments before the end, after n whole pairs. */
  lemma DecodedPairsCount(segs: seq<Segment>, lo: nat, n: nat)
    requires lo + 2 * n + 1 <= |segs| <= lo + 2 * n + 2
    ensures DecodedPairs(segs, lo) == PairsAt(segs, lo, n)
  {
    assert KeptPairCount(|segs| - lo) == n;
  }

  lemma FlattenSnoc(ps: seq<KeyValue>, kv: KeyValue)
    ensures Flatten(ps + [kv]) == Flatten(ps) + [kv.key, kv.value]
  {
    assert (ps + [kv])[..|ps|] == ps;
  }

  lemma MarkPairsSnoc(ps: seq<KeyValue>, kv: KeyValue, targetType: string)
    ensures MarkPairs(ps + [kv], targetType) == MarkStep(MarkPairs(ps, targetType), kv, targetType)
  {
    assert (ps + [kv])[..|ps|] == ps;
  }

  // ---------------------------------------------------------------------------
  // Encoding

  /** Starts a key with the row prefix and the target type, then adds every stored pair as
      key then value; a versioned entity's version pairs are skipped. */
  method GetMdsKeyPrefix(e: MetadataEntity, rowPrefix: Segment) returns (builder: Builder)
    ensures fresh(builder)
    ensures builder.segments == [rowPrefix, e.entityType] + Flatten(StoredPairs(e))
  {
    builder := new Builder();
    builder.Add(rowPrefix);
    builder.Add(e.entityType);
    var versioned := IsVersioned(e.entityType);
    ghost var head := [rowPrefix, e.entityType];
    assert builder.segments == head + Flatten(StoredOf(e.pairs[..0], versioned));
    for i := 0 to |e.pairs|
      invariant builder.segments == head + Flatten(StoredOf(e.pairs[..i], versioned))
    {
      var kv := e.pairs[i];
      StoredSegmentsStep(head, e.pairs, i, versioned);
      if versioned && EqualsIgnoreCase(kv.key, Version) {
        continue;
      }
      builder.Add(kv.key);
      builder.Add(kv.value);
    }
    StoredSegmentsAll(head, e.pairs, versioned);
  }

  method CreateValueRowKey(e: MetadataEntity, key: Option<Segment>) returns (k: Key)
    ensures k.segments == ValueRowKey(e, key)
  {
    var builder := GetMdsKeyPrefix(e, ValueRowMarker);
    if key.Some? {
      builder.Add(key.value);
    }
    k := builder.Build();
  }

  method CreateIndexRowKey(e: MetadataEntity, key: Segment, index: Option<Segment>) returns (k: Key)
    ensures k.segments == IndexRowKey(e, key, index)
  {
    var builder := GetMdsKeyPrefix(e, IndexRowMarker);
    builder.Add(key);
    if index.Some? {
      builder.Add(index.value);
    }
    k := builder.Build();
  }

  // ---------------------------------------------------------------------------
  // Decoding

  method ExtractTargetType(rowKey: Key) returns (r: Result<Segment>)
    ensures r == TargetTypeOf(rowKey.segments)
  {
    var splitter := new Splitter(rowKey);
    var skipped := splitter.SkipBytes();
    if skipped.Fail? {
      return Failure(skipped.error);
    }
    r := splitter.GetString();
  }

  /** Skips the prefix and the type, then walks the rest two segments at a time; the last
      segment read as a key with nothing after it, or after whose value nothing remains, is
      the result. */
  method ExtractMetadataKey(rowKey: Key) returns (r: Result<Option<Segment>>)
    ensures r == MetadataKeyOf(rowKey.segments)
  {
    var splitter := new Splitter(rowKey);
    var skipped := splitter.SkipBytes();
    if skipped.Fail? {
      return Failure(skipped.error);
    }
    skipped := splitter.SkipString();
    if skipped.Fail? {
      return Failure(skipped.error);
    }
    var key: Option<Segment> := None;
    while splitter.HasRemaining()
      invariant splitter.Valid() && splitter.segments == rowKey.segments
      invariant 2 <= splitter.pos && splitter.pos % 2 == 0
      invariant key.None? <==> splitter.pos == 2
      invariant key.Some? ==> key.value == rowKey.segments[splitter.pos - 2]
      decreases |rowKey.segments| - splitter.pos
    {
      var next := splitter.GetString();
      if next.Failure? {
        return Failure(MalformedKey);
      }
      key := Some(next.value);
      if splitter.HasRemaining() {
        skipped := splitter.SkipString();
      } else {
        break;
      }
    }
    r := Success(key);
  }

  method ExtractMetadataEntityFromKey(rowKey: Key) returns (r: Result<MetadataEntity>)
    ensures r == EntityOf(rowKey.segments)
  {
    var splitter := new Splitter(rowKey);
    var skipped := splitter.SkipBytes();
    if skipped.Fail? {
      return Failure(skipped.error);
    }
    r := GetTargetIdFromKey(splitter);
  }

  /** Reads the type and the first key and value, lets AppendPath rebuild the path, then
      builds the entity and gives a versioned one the default version. */
  method GetTargetIdFromKey(splitter: Splitter) returns (r: Result<MetadataEntity>)
    requires splitter.Valid()
    modifies splitter
    ensures r == EntityAfter(splitter.segments, old(splitter.pos))
    ensures r.Success? ==> splitter.pos == |splitter.segments|
  {
    ghost var segs, base := splitter.segments, splitter.pos;
    var read := splitter.GetString();
    if read.Failure? {
      assert |segs| - base < 3;
      return Failure(read.error);
    }
    var targetType := read.value;
    assert splitter.pos == base + 1 && targetType == segs[base];
    read := splitter.GetString();
    if read.Failure? {
      assert |segs| - base < 3;
      return Failure(read.error);
    }
    var key := read.value;
    assert splitter.pos == base + 2 && key == segs[base + 1];
    read := splitter.GetString();
    if read.Failure? {
      assert |segs| - base < 3;
      return Failure(read.error);
    }
    var value := read.value;
    assert splitter.pos == base + 3 && value == segs[base + 2];
    var builder := AppendPath(splitter, targetType, key, value);
    assert |segs| - base >= 3;
    assert EntityAfter(segs, base) == BuildNormalized(builder);
    var built := builder.Build();
    if built.Failure? {
      r := Failure(built.error);
    } else {
      var entity := built.value;
      if IsVersioned(entity.entityType) {
        entity := WithDefaultVersion(entity);
      }
      assert entity == Normalize(built.value);
      r := Success(entity);
    }
  }

  /** The pair walk with one segment of lookahead, starting from the key and value just
      read: a pair is appended only when another segment follows it, so the trailing [key]
      or [key][index] is never appended. */
  method AppendPath(splitter: Splitter, targetType: Segment, firstKey: Segment, firstValue: Segment)
    returns (builder: EntityBuilder)
    requires splitter.Valid() && 2 <= splitter.pos
    requires firstKey == splitter.segments[splitter.pos - 2]
    requires firstValue == splitter.segments[splitter.pos - 1]
    modifies splitter
    ensures splitter.Valid() && !splitter.HasRemaining()
    ensures builder == MarkPairs(DecodedPairs(splitter.segments, old(splitter.pos) - 2), targetType)
  {
    ghost var segs := splitter.segments;
    ghost var start := splitter.pos - 2;
    ghost var count: nat := 0;
    var key, value := firstKey, firstValue;
    builder := EmptyBuilder;
    while splitter.HasRemaining()
      invariant splitter.Valid() && splitter.segments == segs
      invariant splitter.pos == start + 2 * count + 2
      invariant key == segs[start + 2 * count] && value == segs[start + 2 * count + 1]
      invariant builder == MarkPairs(PairsAt(segs, start, count), targetType)
      decreases |segs| - splitter.pos
    {
      MarkPairsAtStep(segs, start, count, targetType);
      if EqualsIgnoreCase(key, targetType) {
        builder := builder.AppendAsType(key, value);
      } else {
        builder := builder.Append(key, value);
      }
      count := count + 1;
      var read := splitter.GetString();
      key := read.value;
      if splitter.HasRemaining() {
        read := splitter.GetString();
        value := read.value;
      } else {
        break;
      }
    }
    assert splitter.pos == |segs|;
    DecodedPairsCount(segs, start, count);
  }
}
