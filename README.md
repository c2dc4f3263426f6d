# Metadata row keys of the CDAP metadata table

This project models the row-key scheme of CDAP's metadata dataset (`MetadataKey`). Every
metadata entity (namespace, application, program, dataset, schedule, …) stores its
properties and tags in two kinds of rows of a sorted table:

    value row:  [v][targetType]([k][v])*[key]?
    index row:  [i][targetType]([k][v])*[key][index]?

A key is a sequence of length-framed segments (`MdsKey.Key`). `MdsKey.Builder` appends
segments, and `MdsKey.Splitter` is the forward-only cursor that reads them back
(`HasRemaining`, `GetString`, `SkipString`, `SkipBytes`). A read past the end fails with
`MalformedKey`. A metadata entity (`Entities.MetadataEntity`) is its ordered
(key, value) components plus the key that names its type.

- `MetadataKey` holds the encoders (`GetMdsKeyPrefix`, `CreateValueRowKey`,
  `CreateIndexRowKey`) and the decoders (`ExtractTargetType`, `ExtractMetadataKey`,
  `ExtractMetadataEntityFromKey` with `GetTargetIdFromKey`). They are imperative methods
  over the builder and the cursor, with loop invariants. Each one is proved equal to a
  function that states the layout: `ValueRowKey`, `IndexRowKey`, `TargetTypeOf`,
  `MetadataKeyOf` and `EntityOf`.
- `MetadataKeyProperties` proves what the layout promises:
  - where each pair lands in a key;
  - that a versioned entity (application, schedule, program) stores no version component;
  - that the decoders recover the attribute key, the type and the entity;
  - that a decoded versioned entity always carries the default version;
  - how value rows, index rows and their scan prefixes relate.

The pair walk of `getTargetIdIdFromKey` (the while loop) is the method `AppendPath`. This
keeps each proof small. `GetTargetIdFromKey` does the reads before the loop and the build
and version step after it, as the source does.

`extractMetadataKey` returns the attribute key for index rows too. One might expect the
walk to return the index term, because it does not look at the row kind. It does not: after
the last pair it reads the attribute key, skips the index term as if it were that key's
value, and stops (`MetadataKeyOfRowKeys`).

## Model

| member | source | states |
|---|---|---|
| `MetadataKey.GetMdsKeyPrefix` | cdap-data-fabric/src/main/java/co/cask/cdap/data2/metadata/dataset/MetadataKey.java:160-175 | the builder holds the row prefix, the type, then each stored pair as key then value, in iteration order; for a versioned type, pairs whose key equals `version` ignoring case are skipped |
| `MetadataKey.CreateValueRowKey` | cdap-data-fabric/src/main/java/co/cask/cdap/data2/metadata/dataset/MetadataKey.java:85-91 | the key is `['v', type] ++ stored pairs ++ [key]`, with the trailing key omitted when it is null |
| `MetadataKey.CreateIndexRowKey` | cdap-data-fabric/src/main/java/co/cask/cdap/data2/metadata/dataset/MetadataKey.java:97-105 | the key is `['i', type] ++ stored pairs ++ [key]`, then the index term only when it is non-null |
| `MetadataKey.ExtractTargetType` | cdap-data-fabric/src/main/java/co/cask/cdap/data2/metadata/dataset/MetadataKey.java:73-79 | returns the second segment; a key with fewer than two segments fails with MalformedKey |
| `MetadataKey.ExtractMetadataKey` | cdap-data-fabric/src/main/java/co/cask/cdap/data2/metadata/dataset/MetadataKey.java:48-71 | returns the segment at the last even offset after the type (null when nothing follows the type); fewer than two segments fail with MalformedKey |
| `MetadataKey.ExtractMetadataEntityFromKey` | cdap-data-fabric/src/main/java/co/cask/cdap/data2/metadata/dataset/MetadataKey.java:107-116 | skips the row prefix and returns the entity decoded from the rest (`EntityOf`); an empty key fails with MalformedKey |
| `MetadataKey.GetTargetIdFromKey` | cdap-data-fabric/src/main/java/co/cask/cdap/data2/metadata/dataset/MetadataKey.java:118-150 | fewer than three segments fail with MalformedKey; otherwise the pairs kept by the walk are built into an entity, and a versioned type gets the default version; on success the cursor has used up the key |
| `MetadataKey.AppendPath` | cdap-data-fabric/src/main/java/co/cask/cdap/data2/metadata/dataset/MetadataKey.java:124-139 | the builder holds exactly the pairs followed by at least one more segment, each appended as the type exactly when its key equals the target type ignoring case; the walk ends with no segment left |
| `MetadataKey.DecodedPairs` | cdap-data-fabric/src/main/java/co/cask/cdap/data2/metadata/dataset/MetadataKey.java:124-139 | from an offset, the walk keeps pairs and leaves one or two trailing segments unpaired: `offset + 2·|pairs| < |key| <= offset + 2·|pairs| + 2` |
| `MetadataKey.BuildNormalized` | cdap-data-fabric/src/main/java/co/cask/cdap/data2/metadata/dataset/MetadataKey.java:140-149 | a built entity of a versioned type carries the default version pair; a failed build is passed on |
| `MetadataKey.GetValueRowPrefix` | cdap-data-fabric/src/main/java/co/cask/cdap/data2/metadata/dataset/MetadataKey.java:152-154 | the value-row prefix key is a single segment |
| `MetadataKey.GetIndexRowPrefix` | cdap-data-fabric/src/main/java/co/cask/cdap/data2/metadata/dataset/MetadataKey.java:156-158 | the index-row prefix key is a single segment |
| `MetadataKeyProperties.PairsAtFlatten` | cdap-data-fabric/src/main/java/co/cask/cdap/data2/metadata/dataset/MetadataKey.java:124-139 | wherever the key-then-value segments of a pair list sit in a key, reading them back gives the pair list |
| `MetadataKeyProperties.DecodedPairsOfEncoded` | cdap-data-fabric/src/main/java/co/cask/cdap/data2/metadata/dataset/MetadataKey.java:118-139 | with one or two trailing segments (`[key]` or `[key][index]`) the walk yields exactly the encoded pairs and never appends the trailing segments |
| `MetadataKeyProperties.DecodedPairsOfBarePairs` | cdap-data-fabric/src/main/java/co/cask/cdap/data2/metadata/dataset/MetadataKey.java:124-139 | with no trailing segment the walk yields every pair but the last |
| `MetadataKeyProperties.MarkPairsParts` | cdap-data-fabric/src/main/java/co/cask/cdap/data2/metadata/dataset/MetadataKey.java:127-132 | every decoded pair is appended, in order, whether as the type or as a plain component |
| `MetadataKeyProperties.MarkPairsType` | cdap-data-fabric/src/main/java/co/cask/cdap/data2/metadata/dataset/MetadataKey.java:127-132 | the builder's type is the key of the last pair whose key equals the target type ignoring case; there is none exactly when no key matches |
| `MetadataKeyProperties.MarkPairsBuild` | cdap-data-fabric/src/main/java/co/cask/cdap/data2/metadata/dataset/MetadataKey.java:127-140 | when the type names a pair and no other key matches it ignoring case, the built entity has the decoded pairs and that type |
| `MetadataKeyProperties.WithoutVersionMembers` | cdap-data-fabric/src/main/java/co/cask/cdap/data2/metadata/dataset/MetadataKey.java:166-170 | a pair survives version skipping exactly when its key does not equal `version` ignoring case |
| `MetadataKeyProperties.VersionedTypesAreNotVersionKeys` | cdap-data-fabric/src/main/java/co/cask/cdap/data2/metadata/dataset/MetadataKey.java:38-45 | none of application, schedule and program equals `version` ignoring case, so a versioned entity's type pair is never skipped |
| `MetadataKeyProperties.StoredPairsMembers` | cdap-data-fabric/src/main/java/co/cask/cdap/data2/metadata/dataset/MetadataKey.java:160-175 | the key stores every pair of the entity except, for a versioned type, the version pairs |
| `MetadataKeyProperties.ValueRowKeyLayout` | cdap-data-fabric/src/main/java/co/cask/cdap/data2/metadata/dataset/MetadataKey.java:85-91 | segment by segment: `'v'`, type, pair j's key at 2+2j and its value at 3+2j, the attribute key last when present; a versioned entity's key holds no version pair |
| `MetadataKeyProperties.IndexRowKeyLayout` | cdap-data-fabric/src/main/java/co/cask/cdap/data2/metadata/dataset/MetadataKey.java:97-105 | segment by segment: `'i'`, type, the pairs, the attribute key right after them, the index term last when present |
| `MetadataKeyProperties.OptionalSegmentsExtendKeys` | cdap-data-fabric/src/main/java/co/cask/cdap/data2/metadata/dataset/MetadataKey.java:85-105 | the key without attribute key (value row) or without index term (index row) is a strict segment-prefix of the full key, which extends it by exactly that segment |
| `MetadataKeyProperties.RowKindsDisjoint` | cdap-data-fabric/src/main/java/co/cask/cdap/data2/metadata/dataset/MetadataKey.java:31-36 | the two prefix keys differ; each row kind starts with its own prefix key; value and index keys differ in their first segment, and neither is a prefix of the other |
| `MetadataKeyProperties.TargetTypeOfRowKeys` | cdap-data-fabric/src/main/java/co/cask/cdap/data2/metadata/dataset/MetadataKey.java:73-79 | on every key either encoder builds, the target type read back is the entity's type |
| `MetadataKeyProperties.MetadataKeyOfRowKeys` | cdap-data-fabric/src/main/java/co/cask/cdap/data2/metadata/dataset/MetadataKey.java:48-71 | the attribute key is read back from a value row built with one and from an index row with or without an index term |
| `MetadataKeyProperties.MetadataKeyOfPrefixOnlyKey` | cdap-data-fabric/src/main/java/co/cask/cdap/data2/metadata/dataset/MetadataKey.java:62-69 | on a value row without an attribute key the walk returns the last stored pair's key, or null when no pair is stored |
| `MetadataKeyProperties.DecodeEncoded` | cdap-data-fabric/src/main/java/co/cask/cdap/data2/metadata/dataset/MetadataKey.java:107-149 | a key with one or two trailing metadata segments decodes to the stored pairs with the entity's type, normalised for versioned types |
| `MetadataKeyProperties.RoundTripStoredPairs` | cdap-data-fabric/src/main/java/co/cask/cdap/data2/metadata/dataset/MetadataKey.java:107-149 | value rows with an attribute key and all index rows decode to the stored pairs with the entity's type, normalised for versioned types |
| `MetadataKeyProperties.RoundTripUnversioned` | cdap-data-fabric/src/main/java/co/cask/cdap/data2/metadata/dataset/MetadataKey.java:107-140 | for a type outside the versioned set, both kinds of key decode to exactly the encoded entity |
| `MetadataKeyProperties.RoundTripVersioned` | cdap-data-fabric/src/main/java/co/cask/cdap/data2/metadata/dataset/MetadataKey.java:141-148 | for a versioned type, both kinds of key decode to the entity without its version pairs, given the default version |
| `MetadataKeyProperties.DecodedComponents` | cdap-data-fabric/src/main/java/co/cask/cdap/data2/metadata/dataset/MetadataKey.java:118-140 | outside the versioned set, a decoded entity's components are exactly the pairs the walk keeps |
| `MetadataKeyProperties.DecodePrefixOnlyKeyDropsLastPair` | cdap-data-fabric/src/main/java/co/cask/cdap/data2/metadata/dataset/MetadataKey.java:118-140 | for a type outside the versioned set, a value row without an attribute key decodes without its last pair; with no pair it is malformed, and with one pair the entity is invalid |
| `MetadataKeyProperties.DefaultVersionIsOnlyVersion` | cdap-data-fabric/src/main/java/co/cask/cdap/data2/metadata/dataset/MetadataKey.java:141-148 | after normalisation the default version pair is present and is the only version component |
| `MetadataKeyProperties.WithDefaultVersionIgnoresVersion` | cdap-data-fabric/src/main/java/co/cask/cdap/data2/metadata/dataset/MetadataKey.java:141-148 | normalisation gives the same entity whether or not the version components were there to begin with |
| `MetadataKeyProperties.DecodedVersionIsDefault` | cdap-data-fabric/src/main/java/co/cask/cdap/data2/metadata/dataset/MetadataKey.java:141-149 | whatever key is decoded, a versioned result carries exactly the default version, so the version is never read from the key |

## Left out

- The byte framing of `MDSKey` (length prefixes, UTF-8) is not modelled: `MDSKey` is defined outside `MetadataKey.java`. A key is its segment sequence. The one-byte prefixes `{'v'}` and `{'i'}` are the one-character segments `"v"` and `"i"`, which have the same bytes. As a result, ordering of keys as raw bytes (for example, keys of two entities that differ in one path value) is not stated.
- `MDSKey.Splitter` fails only on truncation (`MalformedKey` when no segment is left). A corrupted length field is not modelled. `SkipBytes` and `SkipString` move the cursor the same way, because raw-byte and string segments are framed alike.
- `MetadataEntity.Builder` is defined outside `MetadataKey.java`. It is modelled as a list of pairs plus an optional type. `build()` rejects an empty path, and a type that names no component, with `InvalidEntity`. When no pair was appended as the type, the type is the last appended key. The builder's checks on key syntax and duplicate keys are left out.
- `EntityId.fromMetadataEntity(e).toMetadataEntity()` is defined outside `MetadataKey.java`. It is modelled as `Entities.WithDefaultVersion`, which puts `("version", "-SNAPSHOT")` right after the `application` component, or at the end when there is none. The exact position that the entity-id classes choose for each type is not modelled.
- Entities.WithDefaultVersion: two of its behaviours are assumptions, not facts shown by `MetadataKey.java`. It deletes any version component the entity already has before adding the default one. It never fails, whereas the real conversion rejects an entity that is not a valid entity id. `MetadataKeyProperties.WithDefaultVersionIgnoresVersion` and the second ensures of `MetadataKeyProperties.DecodedVersionIsDefault` (a decoded version component such as `("version", "1.0")` is replaced by the default one) hold only because of the first assumption. Keys built by the encoders never hold a version component for a versioned type (`ValueRowKeyLayout`), so the round-trip lemmas do not depend on it.
- `equalsIgnoreCase` is modelled with ASCII case folding only.
- A null attribute key passed to `createIndexRowKey` is not modelled. The parameter is a plain segment there.
- Concurrency is left out. The source has no shared state.
- The other files of the repository are left out: the UI components, the test application, the no-op metadata store, the object-store dataset definition, the dataset definition loader and the explore-service manager. None of them is part of the key scheme.
