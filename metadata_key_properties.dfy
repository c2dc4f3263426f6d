/** What the metadata row-key layout promises: where each pair lands in a key, which pairs
    a versioned entity leaves out, what the decoders return on keys the encoders built,
    and how value rows, index rows and their scan prefixes relate. */
module MetadataKeyProperties {
  import opened Wrappers
  import opened MdsKey
  import opened Entities
  import opened MetadataKey

  /** The type names a component, and no other component's key differs from it only in case. */
  predicate TypeUnambiguous(ps: seq<KeyValue>, entityType: string)
  {
    HasKey(ps, entityType) &&
    forall kv :: kv in ps && EqualsIgnoreCase(kv.key, entityType) ==> kv.key == entityType
  }

  // ---------------------------------------------------------------------------
  // Pairs and segments

  lemma {:induction false} FlattenAt(ps: seq<KeyValue>)
    ensures forall j :: 0 <= j < |ps| ==> Flatten(ps)[2 * j] == ps[j].key && Flatten(ps)[2 * j + 1] == ps[j].value
  {
    if ps != [] {
      var init := ps[..|ps| - 1];
      FlattenAt(init);
      assert forall j :: 0 <= j < |init| ==> init[j] == ps[j];
    }
  }

  /** Reading back the segments of a pair list, wherever they sit in a key, gives the list. */
  lemma {:induction false} PairsAtFlatten(head: seq<Segment>, ps: seq<KeyValue>, tail: seq<Segment>)
    ensures PairsAt(head + Flatten(ps) + tail, |head|, |ps|) == ps
  {
    if ps != [] {
      var init := ps[..|ps| - 1];
      var last := ps[|ps| - 1];
      var segs := head + Flatten(ps) + tail;
      assert ps == init + [last];
      FlattenSnoc(init, last);
      assert segs == head + Flatten(init) + ([last.key, last.value] + tail);
      PairsAtFlatten(head, init, [last.key, last.value] + tail);
      assert segs[|head| + 2 * |init|] == last.key && segs[|head| + 2 * |init| + 1] == last.value;
    }
  }

  /** The decoder regroups exactly the encoded pairs when one or two segments trail them. */
  lemma DecodedPairsOfEncoded(head: seq<Segment>, ps: seq<KeyValue>, tail: seq<Segment>)
    requires 1 <= |tail| <= 2
    ensures DecodedPairs(head + Flatten(ps) + tail, |head|) == ps
  {
    DecodedPairsCount(head + Flatten(ps) + tail, |head|, |ps|);
    PairsAtFlatten(head, ps, tail);
  }

  // ---------------------------------------------------------------------------
  // Type marking

  lemma {:induction false} MarkPairsParts(ps: seq<KeyValue>, targetType: string)
    ensures MarkPairs(ps, targetType).parts == ps
  {
    if ps != [] {
      MarkPairsParts(ps[..|ps| - 1], targetType);
      assert ps[..|ps| - 1] + [ps[|ps| - 1]] == ps;
    }
  }

  /** A pair is appended as the type exactly when its key equals the target type ignoring
      case; the builder's type is therefore the key of the last such pair, and there is none
      when no key matches. */
  lemma {:induction false} MarkPairsType(ps: seq<KeyValue>, targetType: string)
    ensures MarkPairs(ps, targetType).asType.None? <==>
      forall i :: 0 <= i < |ps| ==> !EqualsIgnoreCase(ps[i].key, targetType)
    ensures MarkPairs(ps, targetType).asType.Some? ==>
      exists i :: 0 <= i < |ps| && EqualsIgnoreCase(ps[i].key, targetType)
        && MarkPairs(ps, targetType).asType.value == ps[i].key
        && forall j :: i < j < |ps| ==> !EqualsIgnoreCase(ps[j].key, targetType)
  {
    if ps != [] {
      var init := ps[..|ps| - 1];
      var last := ps[|ps| - 1];
      MarkPairsType(init, targetType);
      assert forall i :: 0 <= i < |init| ==> init[i] == ps[i];
      if EqualsIgnoreCase(last.key, targetType) {
        assert MarkPairs(ps, targetType).asType == Some(last.key);
      } else {
        assert MarkPairs(ps, targetType).asType == MarkPairs(init, targetType).asType;
        if MarkPairs(init, targetType).asType.Some? {
          var i :| 0 <= i < |init| && EqualsIgnoreCase(init[i].key, targetType)
            && MarkPairs(init, targetType).asType.value == init[i].key
            && forall j :: i < j < |init| ==> !EqualsIgnoreCase(init[j].key, targetType);
          assert forall j :: i < j < |ps| ==> !EqualsIgnoreCase(ps[j].key, targetType);
        }
      }
    }
  }

  /** With an unambiguous type, the rebuilt entity has the decoded pairs and that type. */
  lemma MarkPairsBuild(ps: seq<KeyValue>, entityType: string)
    requires TypeUnambiguous(ps, entityType)
    ensures MarkPairs(ps, entityType).Build() == Success(MetadataEntity(ps, entityType))
  {
    MarkPairsParts(ps, entityType);
    MarkPairsType(ps, entityType);
    var kv :| kv in ps && kv.key == entityType;
    EqualsIgnoreCaseReflexive(entityType);
    var b := MarkPairs(ps, entityType);
    assert b.asType.Some?;
    var i :| 0 <= i < |ps| && EqualsIgnoreCase(ps[i].key, entityType) && b.asType.value == ps[i].key;
    assert ps[i] in ps;
  }

  // ---------------------------------------------------------------------------
  // Version skipping

  lemma {:induction false} WithoutVersionMembers(ps: seq<KeyValue>)
    ensures forall kv :: kv in WithoutVersion(ps) <==> kv in ps && !IsVersionKey(kv.key)
  {
    if ps != [] {
      var init := ps[..|ps| - 1];
      WithoutVersionMembers(init);
      assert ps == init + [ps[|ps| - 1]];
    }
  }

  lemma VersionedTypesAreNotVersionKeys(entityType: string)
    requires IsVersioned(entityType)
    ensures !IsVersionKey(entityType)
  {
    assert LowerAscii(Version[0]) == 'v';
    if entityType == Program {
      assert LowerAscii(entityType[0]) == 'p';
    }
  }

  /** Which of the entity's pairs the key stores: for a versioned type every pair except the
      version pairs, for any other type all of them. */
  lemma StoredPairsMembers(e: MetadataEntity)
    ensures forall kv :: kv in StoredPairs(e) <==>
      kv in e.pairs && !(IsVersioned(e.entityType) && IsVersionKey(kv.key))
  {
    WithoutVersionMembers(e.pairs);
  }

  /** Value-row layout: prefix, type, then each stored pair as key then value, then the
      attribute key if there is one; a versioned entity's key holds no version pair. */
  lemma ValueRowKeyLayout(e: MetadataEntity, key: Option<Segment>)
    ensures var k := ValueRowKey(e, key); var sp := StoredPairs(e);
      && |k| == 2 + 2 * |sp| + (if key.Some? then 1 else 0)
      && k[0] == ValueRowMarker && k[1] == e.entityType
      && (forall j :: 0 <= j < |sp| ==> k[2 + 2 * j] == sp[j].key && k[3 + 2 * j] == sp[j].value)
      && (key.Some? ==> k[|k| - 1] == key.value)
      && (IsVersioned(e.entityType) ==> forall j :: 0 <= j < |sp| ==> !IsVersionKey(sp[j].key))
  {
    var sp := StoredPairs(e);
    FlattenAt(sp);
    StoredPairsMembers(e);
    assert forall j :: 0 <= j < |sp| ==> sp[j] in sp;
  }

  /** Index-row layout: prefix, type, the stored pairs, the attribute key, then the index
      term if there is one. */
  lemma IndexRowKeyLayout(e: MetadataEntity, key: Segment, index: Option<Segment>)
    ensures var k := IndexRowKey(e, key, index); var sp := StoredPairs(e);
      && |k| == 3 + 2 * |sp| + (if index.Some? then 1 else 0)
      && k[0] == IndexRowMarker && k[1] == e.entityType
      && (forall j :: 0 <= j < |sp| ==> k[2 + 2 * j] == sp[j].key && k[3 + 2 * j] == sp[j].value)
      && k[2 + 2 * |sp|] == key
      && (index.Some? ==> k[|k| - 1] == index.value)
  {
    FlattenAt(StoredPairs(e));
  }

  // ---------------------------------------------------------------------------
  // Prefix relations

  /** Omitting the attribute key or the index term gives a strict segment-prefix of the
      full key, usable as a scan bound. */
  lemma OptionalSegmentsExtendKeys(e: MetadataEntity, key: Segment, index: Segment)
    ensures ValueRowKey(e, Some(key)) == ValueRowKey(e, None) + [key]
    ensures ValueRowKey(e, None) < ValueRowKey(e, Some(key))
    ensures IndexRowKey(e, key, Some(index)) == IndexRowKey(e, key, None) + [index]
    ensures IndexRowKey(e, key, None) < IndexRowKey(e, key, Some(index))
  {
  }

  /** Value rows and index rows start with distinct one-segment prefixes, each kind starts
      with its own prefix key, and no key of one kind is a prefix of a key of the other. */
  lemma RowKindsDisjoint(e1: MetadataEntity, key1: Option<Segment>, e2: MetadataEntity, key2: Segment, index2: Option<Segment>)
    ensures GetValueRowPrefix() != GetIndexRowPrefix()
    ensures GetValueRowPrefix().segments <= ValueRowKey(e1, key1)
    ensures GetIndexRowPrefix().segments <= IndexRowKey(e2, key2, index2)
    ensures ValueRowKey(e1, key1)[0] != IndexRowKey(e2, key2, index2)[0]
    ensures !(ValueRowKey(e1, key1) <= IndexRowKey(e2, key2, index2))
    ensures !(IndexRowKey(e2, key2, index2) <= ValueRowKey(e1, key1))
  {
    assert ValueRowMarker[0] != IndexRowMarker[0];
  }

  // ---------------------------------------------------------------------------
  // Reading a key back

  /** The target type is the second segment of every key either encoder builds. */
  lemma TargetTypeOfRowKeys(e: MetadataEntity, key: Option<Segment>, attribute: Segment, index: Option<Segment>)
    ensures TargetTypeOf(ValueRowKey(e, key)) == Success(e.entityType)
    ensures TargetTypeOf(IndexRowKey(e, attribute, index)) == Success(e.entityType)
  {
  }

  /** The attribute key comes back from a value row that has one and from every index row,
      with or without an index term: the walk consumes whole pairs and then the index term
      as if it were a value. */
  lemma MetadataKeyOfRowKeys(e: MetadataEntity, key: Segment, index: Option<Segment>)
    ensures MetadataKeyOf(ValueRowKey(e, Some(key))) == Success(Some(key))
    ensures MetadataKeyOf(IndexRowKey(e, key, index)) == Success(Some(key))
  {
    var f := Flatten(StoredPairs(e));
    assert IndexRowKey(e, key, index) == [IndexRowMarker, e.entityType] + f + ([key] + Trailing(index));
  }

  /** On a value row without an attribute key the walk returns the key of the last stored
      pair, or nothing when no pair is stored. */
  lemma MetadataKeyOfPrefixOnlyKey(e: MetadataEntity)
    ensures var sp := StoredPairs(e);
      MetadataKeyOf(ValueRowKey(e, None)) == if sp == [] then Success(None) else Success(Some(sp[|sp| - 1].key))
  {
    FlattenAt(StoredPairs(e));
  }

  /** Decoding a key built by either encoder, with an attribute key present, rebuilds the
      stored pairs with the entity's type and then normalises the version. */
  lemma DecodeEncoded(e: MetadataEntity, marker: Segment, tail: seq<Segment>)
    requires 1 <= |tail| <= 2
    requires TypeUnambiguous(StoredPairs(e), e.entityType)
    ensures EntityOf([marker, e.entityType] + Flatten(StoredPairs(e)) + tail)
      == Success(Normalize(MetadataEntity(StoredPairs(e), e.entityType)))
  {
    var sp := StoredPairs(e);
    var segs := [marker, e.entityType] + Flatten(sp) + tail;
    var kv :| kv in sp && kv.key == e.entityType;
    assert |segs| >= 5 && segs[1] == e.entityType;
    DecodedPairsOfEncoded([marker, e.entityType], sp, tail);
    MarkPairsBuild(sp, e.entityType);
    assert EntityOf(segs) == BuildNormalized(MarkPairs(sp, e.entityType));
  }

  /** Decoding a value row or an index row with its attribute key present rebuilds the
      stored pairs with the entity's type, then normalises the version. */
  lemma RoundTripStoredPairs(e: MetadataEntity, key: Segment, index: Option<Segment>)
    requires TypeUnambiguous(StoredPairs(e), e.entityType)
    ensures EntityOf(ValueRowKey(e, Some(key))) == Success(Normalize(MetadataEntity(StoredPairs(e), e.entityType)))
    ensures EntityOf(IndexRowKey(e, key, index)) == Success(Normalize(MetadataEntity(StoredPairs(e), e.entityType)))
  {
    var f := Flatten(StoredPairs(e));
    assert ValueRowKey(e, Some(key)) == [ValueRowMarker, e.entityType] + f + [key];
    DecodeEncoded(e, ValueRowMarker, [key]);
    assert IndexRowKey(e, key, index) == [IndexRowMarker, e.entityType] + f + ([key] + Trailing(index));
    DecodeEncoded(e, IndexRowMarker, [key] + Trailing(index));
  }

  /** Round trip for a type outside the versioned set: both kinds of key decode to the
      entity that was encoded. */
  lemma RoundTripUnversioned(e: MetadataEntity, key: Segment, index: Option<Segment>)
    requires !IsVersioned(e.entityType)
    requires TypeUnambiguous(e.pairs, e.entityType)
    ensures EntityOf(ValueRowKey(e, Some(key))) == Success(e)
    ensures EntityOf(IndexRowKey(e, key, index)) == Success(e)
  {
    RoundTripStoredPairs(e, key, index);
  }

  /** Round trip for a versioned type: the stored pairs come back, and the entity's version,
      whatever it was, is replaced by the default version. */
  lemma RoundTripVersioned(e: MetadataEntity, key: Segment, index: Option<Segment>)
    requires IsVersioned(e.entityType)
    requires TypeUnambiguous(e.pairs, e.entityType)
    ensures EntityOf(ValueRowKey(e, Some(key))) == Success(WithDefaultVersion(MetadataEntity(WithoutVersion(e.pairs), e.entityType)))
    ensures EntityOf(IndexRowKey(e, key, index)) == Success(WithDefaultVersion(MetadataEntity(WithoutVersion(e.pairs), e.entityType)))
  {
    var sp := WithoutVersion(e.pairs);
    WithoutVersionMembers(e.pairs);
    VersionedTypesAreNotVersionKeys(e.entityType);
    var kv :| kv in e.pairs && kv.key == e.entityType;
    assert kv in sp;
    assert TypeUnambiguous(sp, e.entityType);
    RoundTripStoredPairs(e, key, index);
  }

  /** Outside the versioned set, the decoded entity's components are exactly the pairs the
      lookahead walk keeps. */
  lemma DecodedComponents(segs: seq<Segment>)
    requires EntityOf(segs).Success? && !IsVersioned(EntityOf(segs).value.entityType)
    ensures |segs| >= 4 && EntityOf(segs).value.pairs == DecodedPairs(segs, 2)
  {
    MarkPairsParts(DecodedPairs(segs, 2), segs[1]);
  }

  /** With nothing after the pairs, the lookahead walk keeps every pair but the last. */
  lemma DecodedPairsOfBarePairs(head: seq<Segment>, init: seq<KeyValue>, last: KeyValue)
    ensures DecodedPairs(head + Flatten(init + [last]), |head|) == init
  {
    var segs := head + Flatten(init + [last]);
    FlattenSnoc(init, last);
    assert segs == head + Flatten(init) + [last.key, last.value];
    DecodedPairsCount(segs, |head|, |init|);
    PairsAtFlatten(head, init, [last.key, last.value]);
  }

  /** A value row without an attribute key loses its last pair on decoding, because the
      decoder takes the last segment run for metadata. */
  lemma DecodePrefixOnlyKeyDropsLastPair(e: MetadataEntity)
    requires !IsVersioned(e.entityType)
    ensures |e.pairs| == 0 ==> EntityOf(ValueRowKey(e, None)) == Failure(MalformedKey)
    ensures |e.pairs| == 1 ==> EntityOf(ValueRowKey(e, None)) == Failure(InvalidEntity)
    ensures EntityOf(ValueRowKey(e, None)).Success? && !IsVersioned(EntityOf(ValueRowKey(e, None)).value.entityType) ==>
      EntityOf(ValueRowKey(e, None)).value.pairs == e.pairs[..|e.pairs| - 1]
  {
    var ps := e.pairs;
    var segs := ValueRowKey(e, None);
    assert segs == [ValueRowMarker, e.entityType] + Flatten(ps);
    if |ps| >= 1 {
      var init := ps[..|ps| - 1];
      assert ps == init + [ps[|ps| - 1]];
      DecodedPairsOfBarePairs([ValueRowMarker, e.entityType], init, ps[|ps| - 1]);
      if |ps| == 1 {
        assert MarkPairs(DecodedPairs(segs, 2), segs[1]) == EmptyBuilder;
      }
    }
    if EntityOf(segs).Success? && !IsVersioned(EntityOf(segs).value.entityType) {
      DecodedComponents(segs);
    }
  }

  // ---------------------------------------------------------------------------
  // Default version

  lemma {:induction false} InsertDefaultVersionMembers(ps: seq<KeyValue>)
    ensures forall kv :: kv in InsertDefaultVersion(ps) <==> kv in ps || kv == DefaultVersionPair
  {
    if ps != [] && ps[0].key != Application {
      InsertDefaultVersionMembers(ps[1..]);
      assert ps == [ps[0]] + ps[1..];
    } else if ps != [] {
      assert ps == [ps[0]] + ps[1..];
    }
  }

  /** After normalisation the default version pair is the entity's only version component. */
  lemma DefaultVersionIsOnlyVersion(e: MetadataEntity)
    ensures DefaultVersionPair in WithDefaultVersion(e).pairs
    ensures forall kv :: kv in WithDefaultVersion(e).pairs && IsVersionKey(kv.key) ==> kv == DefaultVersionPair
  {
    WithoutVersionMembers(e.pairs);
    InsertDefaultVersionMembers(WithoutVersion(e.pairs));
  }

  lemma {:induction false} WithoutVersionIdempotent(ps: seq<KeyValue>)
    ensures WithoutVersion(WithoutVersion(ps)) == WithoutVersion(ps)
  {
    if ps != [] {
      var init := ps[..|ps| - 1];
      var last := ps[|ps| - 1];
      var w := WithoutVersion(init);
      WithoutVersionIdempotent(init);
      assert ps == init + [last];
      WithoutVersionSnoc(init, last);
      if IsVersionKey(last.key) {
        assert WithoutVersion(ps) == w;
      } else {
        assert WithoutVersion(ps) == w + [last];
        WithoutVersionSnoc(w, last);
        assert WithoutVersion(w + [last]) == WithoutVersion(w) + [last];
      }
    }
  }

  /** Normalisation ignores the version components it is given: an entity with its
      versions dropped normalises to the same entity. */
  lemma WithDefaultVersionIgnoresVersion(e: MetadataEntity)
    ensures WithDefaultVersion(MetadataEntity(WithoutVersion(e.pairs), e.entityType)) == WithDefaultVersion(e)
  {
    WithoutVersionIdempotent(e.pairs);
  }

  /** Whatever key is decoded, a versioned result carries exactly the default version: the
      version is never read from the key. */
  lemma DecodedVersionIsDefault(segs: seq<Segment>)
    requires EntityOf(segs).Success? && IsVersioned(EntityOf(segs).value.entityType)
    ensures DefaultVersionPair in EntityOf(segs).value.pairs
    ensures forall kv :: kv in EntityOf(segs).value.pairs && IsVersionKey(kv.key) ==> kv == DefaultVersionPair
  {
    var b := MarkPairs(DecodedPairs(segs, 2), segs[1]);
    var e := b.Build().value;
    DefaultVersionIsOnlyVersion(e);
  }
}
