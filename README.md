# A verified model of four small JDK components

This project models four parts of the JDK in Dafny and proves properties of
them:

- **`sun.security.util.DerTree`** — a lazily encoded tree of ASN.1
  values. It writes ITU-T X.690 BER/DER:
  - length octets (X.690 section 8.1.3);
  - indefinite lengths with end-of-contents octets (sections 8.1.3.6 and 8.1.5);
  - minimal INTEGER contents (section 8.3);
  - the BIT STRING initial octet (section 8.6.2);
  - sorted SET OF members (section 11.6).
- **`java.text.CompactNumberFormat`**, its integer and string parts:
  - the compact pattern compiler `applyPattern`;
  - the divisor and pattern tables built by `processCompactPatterns`;
  - `computeDivisor` and `selectCompactPattern(BigInteger)`;
  - affix expansion and field positions;
  - the longest-affix rule of parsing;
  - the plural fallback of `Patterns.get`;
  - the digit-count setters.

  The pattern syntax is the "Compact Number Formats" syntax of Unicode
  Technical Standard #35, Part 3 Numbers.
- **`javax.crypto.spec.HPKEParameterSpec`** and
  **`javax.crypto.hpke.SimpleId`**:
  - the identifier range check;
  - the immutable `with*` builders;
  - the four modes of RFC 9180 section 5;
  - the hex/ASCII rendering of byte arrays.
- **`sun.security.util.Password.readPassword`**, without the console: the
  octet loop that reads one line into a growing `char[]` and wipes every
  buffer it used.

## Modules

| module | file | contents |
|---|---|---|
| `Wrappers` | wrappers.dfy | `Option`, `Result` |
| `Bytes` | bytes.dfy | octets, Java's signed view of them, `Arrays::compare` |
| `BerLength` | ber_length.dfy | `len2lenlen` and `writeLen` as functions; decoding them back |
| `BerContent` | ber_content.dfy | `bytes(int)`, `BigInteger.toByteArray`, tag arithmetic, BOOLEAN, BIT STRING and TIME contents |
| `SetOrder` | set_order.dfy | the sort `Arrays.sort(sets, Arrays::compare)` performs |
| `BerValue` | ber_value.dfy | the value a node stands for (`Der`) and the octets `encode0` writes for it (`Encoding`), with decoders for the round trips |
| `Streams` | io.dfy | the `OutputStream`, `InputStream` and `Supplier` a tree is encoded with |
| `DerTrees` | der_tree.dfy | the mutable `DerTree` class with its caches, and `IndefiniteHolder` |
| `DerVectors` | der_vectors.dfy | the expected outputs of DerTreeTest |
| `PowersOfTen` | powers_of_ten.dfy | `computeDivisor`, with Java's `(long) Math.pow` |
| `CompactPatterns` | compact_pattern.dfy | `applyPattern`'s three-phase scan, and a reference reading of it |
| `CompactAffixes` | compact_affix.dfy | `expandAffix`, `getFieldPositions`, `matchAffix`, `Patterns.get` |
| `CompactFormats` | compact_format.dfy | the `CompactNumberFormat` class: tables, divisors, `selectCompactPattern`, setters |
| `Hpke` | hpke.dfy | `SimpleId` and `HPKEParameterSpec` as values |
| `Passwords` | password.dfy | the reading loop of `readPassword` on arrays |

### How each part is modelled

**DerTree.**
- A node is a class with the fields the Java code mutates: the
  cached `encoding`, `len`, `lenlen` and `content`.
- Each node also carries, as ghost state, the value it stands for (`spec`,
  a `BerValue.Der`).
- `Valid()` ties every cache to that value.
- An input stream is read as the tree is encoded, so `Now()` is the value
  as the streams now stand: `spec` with each stream's rest replaced by
  what its source still holds.
- `Encode0`, `Encode` and `ToByteArray` are proved to write exactly
  `Encoding(Now())` and to leave `Now()` drained (`BerValue.Drained`). On a
  tree no encode has read yet, that is `Encoding(spec)`.
- `BerValue` proves, about `Encoding`:
  - the header/contents/trailer layout;
  - the length laws;
  - the round trips through a TLV decoder;
  - that the SET body is the signed-sorted permutation of the members'
    encodings.

The model follows the code in two places where the code departs from
X.690:
- The SET sort compares **signed** octets. `SignedOrderPutsHighOctetsFirst`
  shows an octet 0x80 sorting before 0x01.
- `BOOLEAN(b)` has as contents `new byte[b ? 0xff : 0]`: 255 zero octets
  for true and none for false. `BooleanContent` states exactly this.

**CompactNumberFormat.**
- The pattern compiler is an imperative scan, `ScanSubpattern`, which
  mirrors the three phases and the `pos` adjustments of `applyPattern`.
- It is proved equal to a one-character-at-a-time reference reading,
  `Scan`.
- The facts about patterns are proved on `Scan`:
  - which affixes are stored;
  - how the negative subpattern defaults;
  - which characters are rejected.
- `processCompactPatterns` updates the six tables of the class. It is
  specified by the function `Process` over the pattern array.
- The setters are methods on the class.

**HPKE.** `HPKEParameterSpec` is immutable, and each builder returns a new
object. It is therefore modelled as a datatype with functions, and key
objects become opaque values.

**Password.** `readPassword` allocates and overwrites arrays, so it keeps
them:
- A ghost sequence records every buffer the loop allocated.
- The postcondition says that each of them ends filled with `' '` (or
  untouched, when `null` is returned).
- The returned array holds exactly the line.

## Model

| member | source | states |
|---|---|---|
| `Bytes.Signed` | src/java.base/share/classes/sun/security/util/DerTree.java:278 | the value Java compares for an octet lies in -128..127 and agrees with it modulo 256 |
| `Bytes.Low8` | src/java.base/share/classes/sun/security/util/DerTree.java:382-404 | the `(byte)` cast keeps the value modulo 256 |
| `Bytes.WithConstructedBit` | src/java.base/share/classes/sun/security/util/DerTree.java:241 | `tag \| 0x20` sets bit 6 of the octet and otherwise leaves the tag alone |
| `Bytes.CompareAntisymmetric` | src/java.base/share/classes/sun/security/util/DerTree.java:278 | `Arrays.compare` gives 0 exactly on equal arrays, and swapping the arguments swaps the sign |
| `Bytes.CompareFirstDifference` | src/java.base/share/classes/sun/security/util/DerTree.java:278 | `Arrays.compare` is decided by the signed difference at the first differing position |
| `Bytes.SignedLeTotal` | src/java.base/share/classes/sun/security/util/DerTree.java:278 | the comparator orders any two arrays |
| `Bytes.SignedLeTransitive` | src/java.base/share/classes/sun/security/util/DerTree.java:278 | the comparator is transitive |
| `Bytes.SignedLeAntisymmetric` | src/java.base/share/classes/sun/security/util/DerTree.java:278 | arrays each sorting no later than the other are equal |
| `Bytes.SignedOrderPutsHighOctetsFirst` | src/java.base/share/classes/sun/security/util/DerTree.java:278 | under the signed comparator [0x80] sorts before [0x01], unlike the unsigned order of X.690 section 11.6 |
| `BerLength.LenLen` | src/java.base/share/classes/sun/security/util/DerTree.java:368-380 | `len2lenlen` is between 1 and 5, and is 1 exactly for the short form (len < 128) |
| `BerLength.LengthOctetsSize` | src/java.base/share/classes/sun/security/util/DerTree.java:368-404 | `writeLen` emits exactly `len2lenlen(len)` octets |
| `BerLength.LongFormValue` | src/java.base/share/classes/sun/security/util/DerTree.java:385-403 | in the long form the octets after the first are `len` big-endian |
| `BerLength.LengthRoundTrip` | src/java.base/share/classes/sun/security/util/DerTree.java:382-404 | decoding what `writeLen` wrote, before any following octets, gives back `len` and the number of octets used |
| `BerLength.LengthOctetsMinimal` | src/java.base/share/classes/sun/security/util/DerTree.java:385-403 | the long form begins with 0x80 + (number of following octets) and its first length octet is non-zero (minimal, X.690 section 10.1) |
| `BerContent.ContextTag` | src/java.base/share/classes/sun/security/util/DerTree.java:469 | `(byte)(TAG_CONTEXT + 0x20 + i)` is 0xA0 + i for tag numbers 0..31 |
| `BerContent.ApplicationTag` | src/java.base/share/classes/sun/security/util/DerTree.java:575 | `(byte)(TAG_APPLICATION + 0x20 + i)` is 0x60 + i for tag numbers 0..31 |
| `BerContent.BigIntegerBytesValue` | src/java.base/share/classes/sun/security/util/DerTree.java:498-500 | the contents of `INTEGER(BigInteger)` are non-empty and read back as two's complement to the integer |
| `BerContent.BigIntegerBytesMinimal` | src/java.base/share/classes/sun/security/util/DerTree.java:498-500 | those contents are minimal: no redundant leading 0x00 or 0xFF octet (X.690 section 8.3.2) |
| `BerContent.UshrOctets` | src/java.base/share/classes/sun/security/util/DerTree.java:410-414 | `(byte)(i >>> 8k)` picks octet k of the 32-bit pattern, also for negative `i` |
| `BerContent.IntBytesIsBigIntegerBytes` | src/java.base/share/classes/sun/security/util/DerTree.java:406-416 | `bytes(i)` is what `BigInteger.valueOf(i).toByteArray()` gives, so `INTEGER(i)` and `INTEGER(BigInteger.valueOf(i))` agree (test/jdk/sun/security/util/DerTree/DerTreeTest.java:81-91) |
| `BerContent.IntBytesCorrect` | src/java.base/share/classes/sun/security/util/DerTree.java:406-416 | `bytes(i)` has at most 4 octets, is minimal, and reads back as two's complement to `i` |
| `BerContent.BooleanContent` | src/java.base/share/classes/sun/security/util/DerTree.java:507-509 | `new byte[b ? 0xff : 0]`: 255 zero octets for true, none for false |
| `BerContent.BitStringContent` | src/java.base/share/classes/sun/security/util/DerTree.java:518-523 | the BIT STRING contents are the octet 0 (no unused bits) followed by the bits |
| `BerContent.TimeTag` | src/java.base/share/classes/sun/security/util/DerTree.java:482-490 | UTCTime exactly for instants in [1950, 2050), GeneralizedTime otherwise |
| `BerValue.Retag` | src/java.base/share/classes/sun/security/util/DerTree.java:467-474 | changing a node's tag keeps whether it is indefinite, its `len`, and the limits it respects |
| `BerValue.RetagEncoding` | src/java.base/share/classes/sun/security/util/DerTree.java:467-474 | for a definite value, re-tagging changes exactly octet 0 of the encoding |
| `BerValue.RetagCons` | src/java.base/share/classes/sun/security/util/DerTree.java:467-474 | for a definite constructed value, re-tagging changes exactly octet 0 |
| `BerValue.RetagStream` | src/java.base/share/classes/sun/security/util/DerTree.java:240-258 | a re-tagged stream starts with the new tag with the constructed bit, and its chunks carry the new plain tag |
| `BerValue.LenOfIndefinite` | src/java.base/share/classes/sun/security/util/DerTree.java:298-336 | `getLens` gives `Integer.MAX_VALUE` exactly for indefinite values, and otherwise a length in range |
| `BerValue.EncodingSplit` | src/java.base/share/classes/sun/security/util/DerTree.java:236-295 | every encoding is header (tag and length, or `tag\|0x20 80`), then contents, then `00 00` exactly when indefinite |
| `BerValue.EncodingSize` | src/java.base/share/classes/sun/security/util/DerTree.java:298-336 | a definite value's encoding has exactly 1 + lenlen + len octets, the size `getLens` predicts |
| `BerValue.ContentLenStep` | src/java.base/share/classes/sun/security/util/DerTree.java:313-327 | the members' sum grows by each member's encoded size |
| `BerValue.Visits` | src/java.base/share/classes/sun/security/util/DerTree.java:312-329 | the members loop visits every member up to and including the first indefinite one, and all of them when none is indefinite |
| `BerValue.VisitsFirstIndefinite` | src/java.base/share/classes/sun/security/util/DerTree.java:316-324 | when the members before i are definite, the loop visits exactly i + 1 members if member i is indefinite, and more than i otherwise |
| `BerValue.SameShapeKeeps` | src/java.base/share/classes/sun/security/util/DerTree.java:298-336 | values differing only in what their streams still hold have the same tags, lengths and limits, and are equal when definite |
| `BerValue.Drained` | src/java.base/share/classes/sun/security/util/DerTree.java:247-259 | a drained value keeps its shape: each stream keeps its tag and read-ahead octets and holds nothing more |
| `BerValue.DrainedStream` | src/java.base/share/classes/sun/security/util/DerTree.java:247-260 | a drained stream encodes as its header, the octets read ahead and `00 00` |
| `BerValue.ParseTLV` | src/java.base/share/classes/sun/security/util/DerTree.java:240-262 | the reference TLV decoder always consumes something |
| `BerValue.TLVRoundTrip` | src/java.base/share/classes/sun/security/util/DerTree.java:240-262 | a TLV decodes back to its tag and contents, leaving what follows |
| `BerValue.ChunksRoundTrip` | src/java.base/share/classes/sun/security/util/DerTree.java:253-259 | the chunks written from a stream, then `00 00`, decode back to the stream's octets |
| `BerValue.ChunkSizes` | src/java.base/share/classes/sun/security/util/DerTree.java:253-259 | an empty stream writes no chunk; otherwise the first chunk holds min(remaining, 1024) octets |
| `BerValue.ChunksStep` | src/java.base/share/classes/sun/security/util/DerTree.java:255-259 | one iteration of the read loop writes one TLV and leaves the chunks of the rest |
| `BerValue.StreamRoundTrip` | src/java.base/share/classes/sun/security/util/DerTree.java:247-259 | an indefinite OCTET STRING decodes to its header and then exactly the octets read ahead plus those of the stream |
| `BerValue.ConsRoundTrip` | src/java.base/share/classes/sun/security/util/DerTree.java:265-291 | a definite constructed encoding decodes to its tag and its body |
| `BerValue.SetBodySorted` | src/java.base/share/classes/sun/security/util/DerTree.java:276-279 | a SET of several members writes a sorted permutation of the members' encodings |
| `SetOrder.InsertProperties` | src/java.base/share/classes/sun/security/util/DerTree.java:278 | inserting into a sorted list keeps it sorted and adds the element |
| `SetOrder.SortProperties` | src/java.base/share/classes/sun/security/util/DerTree.java:278 | the sort gives a sorted permutation of its input |
| `SetOrder.SortedUnique` | src/java.base/share/classes/sun/security/util/DerTree.java:278 | two sorted permutations of one list are equal, so the SET body does not depend on which sort is used |
| `SetOrder.SortedPermutationIsSort` | src/java.base/share/classes/sun/security/util/DerTree.java:278 | any sorted permutation of the members is the one `Sort` gives |
| `SetOrder.SortLength` | src/java.base/share/classes/sun/security/util/DerTree.java:276-281 | sorting does not change the total size `getLens` added up |
| `SetOrder.Swap` | src/java.base/share/classes/sun/security/util/DerTree.java:278 | one exchange of neighbouring entries; the array stays a permutation |
| `SetOrder.SinkInto` | src/java.base/share/classes/sun/security/util/DerTree.java:278 | one pass of the in-place sort extends the sorted prefix and keeps a permutation |
| `SetOrder.SortInPlace` | src/java.base/share/classes/sun/security/util/DerTree.java:278 | `Arrays.sort(sets, Arrays::compare)`: the array ends sorted and a permutation of what it held |
| `DerTrees.DerTree.DefiniteEncodable` | src/java.base/share/classes/sun/security/util/DerTree.java:212-225 | a valid tree with no streams, lengths in range and definite SET members can be encoded |
| `DerTrees.DerTree.FromEncoding` | src/java.base/share/classes/sun/security/util/DerTree.java:142-144 | `DerTree(byte[])` stands for the given octets, caches them and keeps the initial tag -1 |
| `DerTrees.DerTree.Primitive` | src/java.base/share/classes/sun/security/util/DerTree.java:149-152 | `DerTree(tag, content)` stands for that TLV, with no length computed yet |
| `DerTrees.DerTree.FromSupplier` | src/java.base/share/classes/sun/security/util/DerTree.java:175-178 | `DerTree(tag, supplier)` has not called the supplier yet |
| `DerTrees.DerTree.FromSource` | src/java.base/share/classes/sun/security/util/DerTree.java:158-168 | reads ahead all that is available when that is at most 1024 octets, and keeps the stream only when more is available |
| `DerTrees.DerTree.Constructed` | src/java.base/share/classes/sun/security/util/DerTree.java:183-186 | `DerTree(tag, subs)` stands for the constructed value of its members |
| `DerTrees.DerTree.Copy` | src/java.base/share/classes/sun/security/util/DerTree.java:127-137 | the copy constructor together with the re-tagging asImplicitContext does after it: the copy shares members, stream and supplier, and its cached encoding is a clone with octet 0 replaced by the new tag |
| `DerTrees.DerTree.GetLens` | src/java.base/share/classes/sun/security/util/DerTree.java:298-336 | `getLens` leaves `len` equal to the value's length (or the marker), `lenlen` per `len2lenlen`, the supplier run at most once, and the cached encoding alone; a second call changes nothing, and no member after the first indefinite one is touched |
| `DerTrees.DerTree.SumMembers` | src/java.base/share/classes/sun/security/util/DerTree.java:310-333 | the members loop gives the sum of the members' encoded sizes, or the marker at the first indefinite member; it leaves the node alone and touches no member after that first indefinite one |
| `DerTrees.DerTree.MemberLen` | src/java.base/share/classes/sun/security/util/DerTree.java:313-327 | one member's contribution: its encoded size, or that it is indefinite; only that member's nodes change |
| `DerTrees.DerTree.CacheEncoding` | src/java.base/share/classes/sun/security/util/DerTree.java:274 | storing a member's encoding keeps the invariant and no other cache changes |
| `DerTrees.DerTree.WriteLen` | src/java.base/share/classes/sun/security/util/DerTree.java:382-404 | `writeLen` writes exactly the length octets of `n` |
| `DerTrees.DerTree.CopyChunks` | src/java.base/share/classes/sun/security/util/DerTree.java:253-259 | the read loop writes the chunks of all that remained in the stream and drains it |
| `DerTrees.DerTree.WriteChunk` | src/java.base/share/classes/sun/security/util/DerTree.java:257-259 | one read writes one TLV and leaves the chunks of the rest to write |
| `DerTrees.DerTree.Encode0` | src/java.base/share/classes/sun/security/util/DerTree.java:236-295 | `encode0` after `getLens` writes exactly the encoding of the value as the streams now stand, leaves every stream drained and keeps every cache valid |
| `DerTrees.DerTree.WriteHeader` | src/java.base/share/classes/sun/security/util/DerTree.java:240-246 | the tag and length, or `tag\|0x20 80` for the marker |
| `DerTrees.DerTree.WriteTrailer` | src/java.base/share/classes/sun/security/util/DerTree.java:289-292 | `00 00` after an indefinite length, nothing otherwise |
| `DerTrees.DerTree.EncodeStream` | src/java.base/share/classes/sun/security/util/DerTree.java:247-259 | the read-ahead octets as one TLV, then the chunks of what the stream still holds, which drains the stream |
| `DerTrees.DerTree.WriteTLV` | src/java.base/share/classes/sun/security/util/DerTree.java:248-251 | the octets read ahead are written as one TLV with the plain tag |
| `DerTrees.DerTree.EncodeContents` | src/java.base/share/classes/sun/security/util/DerTree.java:247-287 | what follows the header: the stream, the content, or the members, as the streams now stand, leaving them drained |
| `DerTrees.DerTree.EncodeSet` | src/java.base/share/classes/sun/security/util/DerTree.java:266-281 | a SET of several members writes its members' encodings in signed-sorted order |
| `DerTrees.DerTree.CollectEncodings` | src/java.base/share/classes/sun/security/util/DerTree.java:266-277 | `sets` holds each member's encoding, in member order |
| `DerTrees.DerTree.CollectEncoding` | src/java.base/share/classes/sun/security/util/DerTree.java:268-276 | one iteration fills entry i with member i's encoding and leaves the other entries alone |
| `DerTrees.DerTree.SetMemberEncoding` | src/java.base/share/classes/sun/security/util/DerTree.java:269-276 | a member's encoding is computed once and cached in the member |
| `DerTrees.DerTree.WriteSorted` | src/java.base/share/classes/sun/security/util/DerTree.java:278-281 | sorts `sets` and writes them in that order |
| `DerTrees.DerTree.EncodeInOrder` | src/java.base/share/classes/sun/security/util/DerTree.java:282-286 | other constructed nodes write their members' current encodings in declared order and leave their streams drained |
| `DerTrees.DerTree.EncodeMember` | src/java.base/share/classes/sun/security/util/DerTree.java:285 | `t.getLens().encode0(os)` for one member writes its current encoding, drains its streams and leaves the other members' values alone |
| `DerTrees.DerTree.NowOfDrainedMembers` | src/java.base/share/classes/sun/security/util/DerTree.java:282-286 | once each member is drained, so is the constructed value |
| `DerTrees.DerTree.ReadyNow` | src/java.base/share/classes/sun/security/util/DerTree.java:158-168 | before any encode, the value as the streams now stand is the value the tree was built with |
| `DerTrees.DerTree.NowDefinite` | src/java.base/share/classes/sun/security/util/DerTree.java:266-281 | a definite value holds no stream, so encoding it drains nothing |
| `DerTrees.DerTree.CachedNow` | src/java.base/share/classes/sun/security/util/DerTree.java:237-239 | a cached encoding stands for a definite value, which encoding leaves as it is |
| `DerTrees.DerTree.Encode` | src/java.base/share/classes/sun/security/util/DerTree.java:205-207 | `encode(os)` appends exactly the encoding of the value as the streams now stand and returns the node; on a fresh tree that is the value's encoding, and a second call finds the streams drained |
| `DerTrees.DerTree.ToByteArray` | src/java.base/share/classes/sun/security/util/DerTree.java:212-224 | `toByteArray` is the cached encoding or the encoding of the value as the streams now stand, written afresh each time without caching it, so a second call finds the streams drained |
| `DerTrees.DerTree.AsImplicitContext` | src/java.base/share/classes/sun/security/util/DerTree.java:467-474 | a new node with the tag 0xA0 + i, the encoding changed only in octet 0, and the original untouched; fails exactly on a wrapped empty array |
| `DerTrees.DerTree.Integer` | src/java.base/share/classes/sun/security/util/DerTree.java:492-494 | `INTEGER(int)` has the contents `bytes(i)` |
| `DerTrees.DerTree.BigInteger` | src/java.base/share/classes/sun/security/util/DerTree.java:498-500 | `INTEGER(BigInteger)` has the contents `toByteArray()` |
| `DerTrees.DerTree.Null` | src/java.base/share/classes/sun/security/util/DerTree.java:501-503 | NULL has empty contents |
| `DerTrees.DerTree.Enumerated` | src/java.base/share/classes/sun/security/util/DerTree.java:504-506 | ENUMERATED uses the contents of `bytes(i)` |
| `DerTrees.DerTree.Boolean` | src/java.base/share/classes/sun/security/util/DerTree.java:507-509 | BOOLEAN with the contents of `new byte[b ? 0xff : 0]` |
| `DerTrees.DerTree.Oid` | src/java.base/share/classes/sun/security/util/DerTree.java:514-516 | OID with the identifier's encoding as contents |
| `DerTrees.DerTree.BitString` | src/java.base/share/classes/sun/security/util/DerTree.java:518-523 | BIT STRING with an initial 0 octet |
| `DerTrees.DerTree.OctetString` | src/java.base/share/classes/sun/security/util/DerTree.java:525-527 | OCTET STRING of the given octets |
| `DerTrees.DerTree.OctetStringFrom` | src/java.base/share/classes/sun/security/util/DerTree.java:528-530 | OCTET STRING over a stream: indefinite when more than one read is needed, and nothing of the stream is lost |
| `DerTrees.DerTree.OctetStringSupplied` | src/java.base/share/classes/sun/security/util/DerTree.java:531-533 | OCTET STRING of the supplier's octets, with the supplier not yet called |
| `DerTrees.DerTree.OctetStringOf` | src/java.base/share/classes/sun/security/util/DerTree.java:558-560 | a node wrapped as the single member of a constructed OCTET STRING |
| `DerTrees.DerTree.MakeString` | src/java.base/share/classes/sun/security/util/DerTree.java:459-461 | a string type with the charset-encoded text as contents |
| `DerTrees.DerTree.Sequence` | src/java.base/share/classes/sun/security/util/DerTree.java:562-564 | SEQUENCE of the nodes, in order |
| `DerTrees.DerTree.Set` | src/java.base/share/classes/sun/security/util/DerTree.java:565-569 | SET of the nodes, marked `isSet` |
| `DerTrees.DerTree.Context` | src/java.base/share/classes/sun/security/util/DerTree.java:571-573 | constructed context-specific tag `i` over the nodes |
| `DerTrees.DerTree.Application` | src/java.base/share/classes/sun/security/util/DerTree.java:574-576 | constructed application tag `i` over the nodes |
| `DerTrees.DerTree.Time` | src/java.base/share/classes/sun/security/util/DerTree.java:482-490 | TIME with the tag chosen by the instant and the formatted text as contents |
| `DerTrees.DerTree.Wrap` | src/java.base/share/classes/sun/security/util/DerTree.java:578-580 | `wrap(data)` stands for exactly the given encoding |
| `DerTrees.DerTree.StartIndefinite` | src/java.base/share/classes/sun/security/util/DerTree.java:423-426 | writes `tag 80` and returns a holder on the same stream |
| `DerTrees.DerTree.StartIndefiniteFor` | src/java.base/share/classes/sun/security/util/DerTree.java:440-443 | writes the node's tag with the constructed bit, then 0x80 |
| `DerTrees.IndefiniteHolder.constructor` | src/java.base/share/classes/sun/security/util/DerTree.java:448-452 | opening writes the tag and 0x80 |
| `DerTrees.IndefiniteHolder.Close` | src/java.base/share/classes/sun/security/util/DerTree.java:454-456 | closing writes `00 00` |
| `DerVectors.SetOfEncoding` | test/jdk/sun/security/util/DerTree/DerTreeTest.java:119-125 | SET("123", "124", "122") encodes as 310f0c033132320c033132330c03313234 |
| `DerVectors.Utf8Order` | test/jdk/sun/security/util/DerTree/DerTreeTest.java:119-125 | the three strings sort as "122", "123", "124" |
| `DerVectors.SetOfVector` | test/jdk/sun/security/util/DerTree/DerTreeTest.java:119-125 | `toByteArray` of that SET, through the class, gives those octets |
| `DerVectors.SequenceOfX` | test/jdk/sun/security/util/DerTree/DerTreeTest.java:70 | SEQUENCE(PRINTABLESTRING("x")) encodes as 3003130178 |
| `DerVectors.ContextOrder` | test/jdk/sun/security/util/DerTree/DerTreeTest.java:72-74 | the three re-tagged copies sort by tag |
| `DerVectors.ContextSetEncoding` | test/jdk/sun/security/util/DerTree/DerTreeTest.java:72-78 | the SET of the three copies encodes as 310fa003130178a103130178a203130178 |
| `DerVectors.ImplicitContextVector` | test/jdk/sun/security/util/DerTree/DerTreeTest.java:69-79 | `as()` of DerTreeTest, through the class, gives those octets |
| `DerVectors.EncodeZeroOctet` | test/jdk/sun/security/util/DerTree/DerTreeTest.java:130 | `OCTETSTRING(new byte[1]).encode(os)` writes 040100 |
| `DerVectors.IndefiniteVector` | test/jdk/sun/security/util/DerTree/DerTreeTest.java:127-138 | `ber()` of DerTreeTest writes 24800401000401000401000000 |
| `DerVectors.DrainedStreamVector` | src/java.base/share/classes/sun/security/util/DerTree.java:212-224 | `toByteArray` twice on an OCTET STRING over a stream of 010203 offering one octet at a time: first 2480040101040202030000, then 24800401010000 |
| `DerVectors.IntegerVector` | test/jdk/sun/security/util/DerTree/DerTreeTest.java:81-91 | `INTEGER(i).toByteArray()` and `INTEGER(BigInteger.valueOf(i)).toByteArray()` are equal |
| `PowersOfTen.Pow10Monotone` | src/java.base/share/classes/java/text/CompactNumberFormat.java:1203 | comparing powers of ten compares their exponents |
| `PowersOfTen.JavaLongPow10` | src/java.base/share/classes/java/text/CompactNumberFormat.java:1196 | `(long) Math.pow(10, k)` is exact up to k = 18 and saturates at `Long.MAX_VALUE` from k = 19 |
| `PowersOfTen.LongRange` | src/java.base/share/classes/java/text/CompactNumberFormat.java:1193-1199 | 10^18 fits a `long` and 10^19 does not, which is why index 19 switches to `BigInteger` |
| `PowersOfTen.DivisorCorrect` | src/java.base/share/classes/java/text/CompactNumberFormat.java:1189-1222 | the divisor is rejected exactly when 10^index < 10^(count-1), and otherwise times 10^(count-1) gives 10^index |
| `PowersOfTen.DivisorAgrees` | src/java.base/share/classes/java/text/CompactNumberFormat.java:1189-1222 | the code as written computes the exact divisor while 10^(count-1) fits a `long` or the index is below 19 |
| `PowersOfTen.SaturationAcceptsTooManyDigits` | src/java.base/share/classes/java/text/CompactNumberFormat.java:1202-1209 | 21 zeros at index 19 are accepted with divisor 1 although they exceed the index's digits |
| `PowersOfTen.SaturationWrongDivisor` | src/java.base/share/classes/java/text/CompactNumberFormat.java:1202-1209 | 21 zeros at index 20 give divisor 10 instead of 1 |
| `PowersOfTen.Log10FloorBounds` | src/java.base/share/classes/java/text/CompactNumberFormat.java:1111-1129 | the digit count pins a number between two consecutive powers of ten |
| `PowersOfTen.Log10FloorUnique` | src/java.base/share/classes/java/text/CompactNumberFormat.java:1111-1129 | that exponent is unique |
| `CompactPatterns.Zeros` | src/java.base/share/classes/java/text/CompactNumberFormat.java:1445 | the place holder of n zeros has length n |
| `CompactPatterns.Scan` | src/java.base/share/classes/java/text/CompactNumberFormat.java:1342-1469 | the reference reading of a subpattern: the next subpattern starts inside the pattern |
| `CompactPatterns.ScanSubpattern` | src/java.base/share/classes/java/text/CompactNumberFormat.java:1342-1469 | one pass of the `j` loop (three phases, quotes, `--pos` re-reads, the `;` exit) gives the reference reading |
| `CompactPatterns.CompilePattern` | src/java.base/share/classes/java/text/CompactNumberFormat.java:1327-1490 | `applyPattern`'s affix and zero computation equals `Compile`, errors included |
| `CompactPatterns.ScanText` | src/java.base/share/classes/java/text/CompactNumberFormat.java:1363-1424 | unquoted affix text is stored with `-` as `'-` and `''` kept |
| `CompactPatterns.ScanZeros` | src/java.base/share/classes/java/text/CompactNumberFormat.java:1426-1453 | a run of zeros is counted in the positive subpattern and skipped in the negative one |
| `CompactPatterns.CompileSingle` | src/java.base/share/classes/java/text/CompactNumberFormat.java:1471-1490 | "pre 0…0 suf" gives those affixes, n zeros, and the negative prefix `'-` + prefix with the same suffix |
| `CompactPatterns.CompileWithNegative` | src/java.base/share/classes/java/text/CompactNumberFormat.java:1471-1490 | with a `;` subpattern its affixes are the negative ones, unless they repeat the positive ones, and its zeros are not counted |
| `CompactPatterns.SpecialBeforeDigits` | src/java.base/share/classes/java/text/CompactNumberFormat.java:1391-1411 | an unquoted `. , # % ‰ ¤`, or `;` before any zero, is rejected with that character |
| `CompactPatterns.SeparatorInNegative` | src/java.base/share/classes/java/text/CompactNumberFormat.java:1391-1400 | a second `;` is rejected |
| `CompactPatterns.UnterminatedQuoteRejected` | src/java.base/share/classes/java/text/CompactNumberFormat.java:1466-1469 | a quote that is never closed is rejected |
| `CompactAffixes.CompiledWellQuoted` | src/java.base/share/classes/java/text/CompactNumberFormat.java:1363-1424 | every stored affix is well quoted: each quote is followed by a character |
| `CompactAffixes.ExpandAffix` | src/java.base/share/classes/java/text/CompactNumberFormat.java:1017-1035 | `expandAffix` drops each quote and turns `'-` into the minus text (`Expand`) |
| `CompactAffixes.ExpandNoQuote` | src/java.base/share/classes/java/text/CompactNumberFormat.java:1019-1021 | an affix without a quote is returned unchanged |
| `CompactAffixes.ExpandEscaped` | src/java.base/share/classes/java/text/CompactNumberFormat.java:1017-1035 | expanding what `applyPattern` stored for unquoted text gives that text back |
| `CompactAffixes.GetFieldPositions` | src/java.base/share/classes/java/text/CompactNumberFormat.java:1043-1072 | `getFieldPositions` yields one SIGN range per `'-` and then the whole-affix range when the expansion is non-empty |
| `CompactAffixes.FieldPositionsConsistent` | src/java.base/share/classes/java/text/CompactNumberFormat.java:1043-1072 | each SIGN range spans exactly the minus text in the expanded affix, and the last range is [0, length of `expandAffix`) |
| `CompactAffixes.SignRangesAfter` | src/java.base/share/classes/java/text/CompactNumberFormat.java:1051-1061 | the SIGN ranges found after a prefix all lie in the rest and cover the minus text |
| `CompactAffixes.LongestMatch` | src/java.base/share/classes/java/text/CompactNumberFormat.java:1667-1691 | the prefix loop with `matchAffix` keeps the first of the longest candidates, or none |
| `CompactAffixes.PatternsGet` | src/java.base/share/classes/java/text/CompactNumberFormat.java:2522-2525 | `Patterns.get` gives the category's pattern, else the one for "other", else "" |
| `CompactAffixes.PatternsGetPut` | src/java.base/share/classes/java/text/CompactNumberFormat.java:2518-2525 | after `put(count, p)` the count gives p, and others keep their patterns |
| `CompactFormats.Stored` | src/java.base/share/classes/java/text/CompactNumberFormat.java:1494-1512 | a pattern with an affix is stored as compiled; otherwise every affix and the place holder are "" |
| `CompactFormats.Extend` | src/java.base/share/classes/java/text/CompactNumberFormat.java:1247-1251 | adding the five `new Patterns()` keeps the tables aligned |
| `CompactFormats.Put` | src/java.base/share/classes/java/text/CompactNumberFormat.java:1496-1500 | storing into the five tables keeps them aligned and leaves the divisors |
| `CompactFormats.ProcessFails` | src/java.base/share/classes/java/text/CompactNumberFormat.java:1234-1263 | an exception at one entry is the exception of the whole processing |
| `CompactFormats.ProcessKeeps` | src/java.base/share/classes/java/text/CompactNumberFormat.java:1234-1263 | after processing, the tables have an entry per pattern, all affixes are well quoted and all divisors positive |
| `CompactFormats.StoredDivisor` | src/java.base/share/classes/java/text/CompactNumberFormat.java:1494-1511 | 1 for a pattern without an affix; 10^index for one without zeros; otherwise rejected exactly when 10^index < 10^(zeros-1), and else the divisor times 10^(zeros-1) is 10^index |
| `CompactFormats.StoredDivisorAgrees` | src/java.base/share/classes/java/text/CompactNumberFormat.java:1189-1222 | with at most 19 zeros, or at an index below 19, that divisor is the one `computeDivisor` as written gives |
| `CompactFormats.ApplyDivisors` | src/java.base/share/classes/java/text/CompactNumberFormat.java:1501-1511 | a divisor is added only while `divisors.size() <= index`, and earlier divisors are kept |
| `CompactFormats.ApplyAllDivisors` | src/java.base/share/classes/java/text/CompactNumberFormat.java:1501-1511 | in a plural form only the first count's pattern decides the divisor |
| `CompactFormats.DivisorsAligned` | src/java.base/share/classes/java/text/CompactNumberFormat.java:1240-1263 | when every entry applies a pattern, divisor i is the one of entry i's first pattern |
| `CompactFormats.EmptyPluralShiftsDivisors` | src/java.base/share/classes/java/text/CompactNumberFormat.java:1501-1511 | a plural entry with no count adds no divisor, so the next index's divisor lands in its place |
| `CompactFormats.Clamp` | src/java.base/share/classes/java/text/CompactNumberFormat.java:2183-2184 | `Math.min(v, limit)` followed by the negative check is within 0..limit and keeps values already in range |
| `CompactFormats.LargestIsByDigits` | src/java.base/share/classes/java/text/CompactNumberFormat.java:1102-1132 | the largest index i with 10^i <= n among the patterns is the digit-count index |
| `CompactFormats.ByDigitsIsLargest` | src/java.base/share/classes/java/text/CompactNumberFormat.java:1102-1132 | and the digit-count index is that largest index |
| `CompactFormats.CompactNumberFormat.constructor` | src/java.base/share/classes/java/text/CompactNumberFormat.java:486-489 | for any arguments, the four setter calls leave the minimum integer digits at `minInt` clamped to 0..309 and the maximum at the larger of `maxInt` and `minInt` clamped, and likewise for the fraction digits with 340 |
| `CompactFormats.CompactNumberFormat.ApplyPattern` | src/java.base/share/classes/java/text/CompactNumberFormat.java:1327-1512 | `applyPattern` updates the tables as `Apply`; a null or bad pattern leaves them unchanged, a bad divisor fails after the affixes are stored |
| `CompactFormats.CompactNumberFormat.ApplyCounts` | src/java.base/share/classes/java/text/CompactNumberFormat.java:1252-1256 | the `forEach` over the counts applies each in turn, stopping at the first exception |
| `CompactFormats.CompactNumberFormat.ApplyText` | src/java.base/share/classes/java/text/CompactNumberFormat.java:1252-1258 | a plural entry applies its counts, anything else is applied for "other" |
| `CompactFormats.CompactNumberFormat.ProcessEntry` | src/java.base/share/classes/java/text/CompactNumberFormat.java:1245-1259 | one iteration of the index loop |
| `CompactFormats.CompactNumberFormat.ProcessCompactPatterns` | src/java.base/share/classes/java/text/CompactNumberFormat.java:1234-1263 | the tables end as `Process` of the whole array, or its exception is raised |
| `CompactFormats.CompactNumberFormat.SelectCompactPattern` | src/java.base/share/classes/java/text/CompactNumberFormat.java:1102-1132 | -1 exactly when there are no patterns or n < 1; otherwise the largest index i with 10^i <= n |
| `CompactFormats.CompactNumberFormat.SetMaximumIntegerDigits` | src/java.base/share/classes/java/text/CompactNumberFormat.java:2178-2190 | the maximum is clamped to 0..309, the minimum lowered to it if needed, and nothing else changes |
| `CompactFormats.CompactNumberFormat.SetMinimumIntegerDigits` | src/java.base/share/classes/java/text/CompactNumberFormat.java:2199-2211 | the minimum is clamped to 0..309, the maximum raised to it if needed, and nothing else changes |
| `CompactFormats.CompactNumberFormat.SetMinimumFractionDigits` | src/java.base/share/classes/java/text/CompactNumberFormat.java:2220-2233 | the minimum is clamped to 0..340, the maximum raised to it if needed, and nothing else changes |
| `CompactFormats.CompactNumberFormat.SetMaximumFractionDigits` | src/java.base/share/classes/java/text/CompactNumberFormat.java:2242-2254 | the maximum is clamped to 0..340, the minimum lowered to it if needed, and nothing else changes |
| `CompactFormats.CompactNumberFormat.SetGroupingSize` | src/java.base/share/classes/java/text/CompactNumberFormat.java:2312-2319 | rejects exactly the values outside 0..127; otherwise stores the value, and nothing else changes |
| `CompactFormats.NewCompactNumberFormat` | src/java.base/share/classes/java/text/CompactNumberFormat.java:466-509 | construction succeeds exactly when processing does, raises its exception otherwise, and yields a valid format with the processed tables |
| `Hpke.NewSimpleId` | src/java.base/share/classes/javax/crypto/hpke/SimpleId.java:4-9 | a SimpleId exists exactly for ids in 0..65535 and holds the id |
| `Hpke.SimpleIdEquality` | src/java.base/share/classes/javax/crypto/hpke/SimpleId.java:3 | two SimpleIds are equal exactly when their ids are |
| `Hpke.Of` | src/java.base/share/classes/javax/crypto/spec/HPKEParameterSpec.java:183-195 | `of` succeeds exactly for three ids in 0..65535, with empty info and psk_id and no psk, auth key or encapsulation |
| `Hpke.SimpleIdsPassOf` | src/java.base/share/classes/javax/crypto/spec/HPKEParameterSpec.java:184-192 | ids a SimpleId accepts pass `of`, which yields mode_base |
| `Hpke.WithInfo` | src/java.base/share/classes/javax/crypto/spec/HPKEParameterSpec.java:211-218 | fails on null and on empty info; otherwise changes only `info` |
| `Hpke.WithPsk` | src/java.base/share/classes/javax/crypto/spec/HPKEParameterSpec.java:236-254 | fails on null, an empty psk_id, or a RAW psk under 32 octets; otherwise changes only psk and psk_id |
| `Hpke.WithEncapsulation` | src/java.base/share/classes/javax/crypto/spec/HPKEParameterSpec.java:267-271 | fails on null, accepts any array, and changes only the encapsulation |
| `Hpke.WithAuthKey` | src/java.base/share/classes/javax/crypto/spec/HPKEParameterSpec.java:286-291 | fails on null and changes only the auth key |
| `Hpke.Info` | src/java.base/share/classes/javax/crypto/spec/HPKEParameterSpec.java:317-319 | `info()` is the stored info, never null |
| `Hpke.PskId` | src/java.base/share/classes/javax/crypto/spec/HPKEParameterSpec.java:331-333 | `psk_id()` is the stored psk_id, never null |
| `Hpke.Encapsulation` | src/java.base/share/classes/javax/crypto/spec/HPKEParameterSpec.java:345-347 | `encapsulation()` is absent exactly when it was never set |
| `Hpke.ModeOf` | src/java.base/share/classes/javax/crypto/spec/HPKEParameterSpec.java:356-358 | base, auth, psk or auth_psk exactly by which of psk and auth key are set |
| `Hpke.ModeName` | src/java.base/share/classes/javax/crypto/spec/HPKEParameterSpec.java:356-358 | each mode prints as a name starting with "mode_" |
| `Hpke.ModeNameInjective` | src/java.base/share/classes/javax/crypto/spec/HPKEParameterSpec.java:356-358 | the printed name identifies the mode |
| `Hpke.ApplyKeepsValid` | src/java.base/share/classes/javax/crypto/spec/HPKEParameterSpec.java:211-291 | every builder keeps the ids in range and info and psk_id non-null |
| `Hpke.BuildProperties` | src/java.base/share/classes/javax/crypto/spec/HPKEParameterSpec.java:211-291 | a chain of builders keeps the ids, and sets psk, auth key or encapsulation exactly when some step set it |
| `Hpke.BuiltMode` | src/java.base/share/classes/javax/crypto/spec/HPKEParameterSpec.java:356-358 | the mode of `of(...).with...` is decided by whether `withPsk` and `withAuthKey` were among the steps |
| `Hpke.Hex` | src/java.base/share/classes/javax/crypto/spec/HPKEParameterSpec.java:371 | `formatHex` writes two digits per octet |
| `Hpke.AnyUnprintableExists` | src/java.base/share/classes/javax/crypto/spec/HPKEParameterSpec.java:366-373 | the loop finds an octet below 0x20, above 0x7E, or `"` exactly when one exists |
| `Hpke.AsciiChars` | src/java.base/share/classes/javax/crypto/spec/HPKEParameterSpec.java:377 | the US-ASCII text holds one character per octet |
| `Hpke.BytesToString` | src/java.base/share/classes/javax/crypto/spec/HPKEParameterSpec.java:362-379 | "(empty)" for no octets, otherwise a rendering that starts with the hex digits of every octet |
| `Hpke.PrintableRendering` | src/java.base/share/classes/javax/crypto/spec/HPKEParameterSpec.java:374-377 | when every octet is printable, the hex digits, then ` ("`, the text and `")`: 3n + 5 characters for n octets |
| `Hpke.BytesToStringShape` | src/java.base/share/classes/javax/crypto/spec/HPKEParameterSpec.java:362-379 | "(empty)" for no octets; otherwise hex first, hex alone exactly when an octet is unprintable, else hex then the quoted text, which holds no `"` |
| `Hpke.UnHexHex` | src/java.base/share/classes/javax/crypto/spec/HPKEParameterSpec.java:371 | hex digits read back to the octets |
| `Hpke.RenderingRoundTrip` | src/java.base/share/classes/javax/crypto/spec/HPKEParameterSpec.java:362-379 | the octets can always be recovered from the rendering |
| `Passwords.Consumed` | src/java.base/share/classes/sun/security/util/Password.java:94-112 | the loop takes no more octets than the stream holds |
| `Passwords.LineIsPrefix` | src/java.base/share/classes/sun/security/util/Password.java:94-123 | the line is a prefix of what was taken, without `\n` |
| `Passwords.LineBeforeLF` | src/java.base/share/classes/sun/security/util/Password.java:96-99 | `\n` ends the line and is consumed |
| `Passwords.LineBeforeCRLF` | src/java.base/share/classes/sun/security/util/Password.java:101-111 | `\r\n` ends the line, and both are consumed |
| `Passwords.LoneCR` | src/java.base/share/classes/sun/security/util/Password.java:101-112 | a `\r` followed by another octet is kept, and that octet is read next |
| `Passwords.Chars` | src/java.base/share/classes/sun/security/util/Password.java:121 | each octet becomes the char `(char) c` |
| `Passwords.LineInput.Read` | src/java.base/share/classes/sun/security/util/Password.java:95-102 | `read()` gives the pushed-back octet, else the next one, else -1 |
| `Passwords.LineInput.Unread` | src/java.base/share/classes/sun/security/util/Password.java:104-107 | `unread(c2)` makes c2 the next octet read |
| `Passwords.CopyPrefix` | src/java.base/share/classes/sun/security/util/Password.java:117 | `System.arraycopy` copies the first `offset` chars and nothing else |
| `Passwords.Fill` | src/java.base/share/classes/sun/security/util/Password.java:118 | `Arrays.fill` sets every char |
| `Passwords.Store` | src/java.base/share/classes/sun/security/util/Password.java:114-121 | `room == buf.length - offset` is kept, growth preserves `buf[0..offset)` and wipes the old buffer, and c lands at `offset` |
| `Passwords.NextOctet` | src/java.base/share/classes/sun/security/util/Password.java:95-112 | the switch either yields the next octet of the line, or ends the line having consumed exactly its terminator |
| `Passwords.Keep` | src/java.base/share/classes/sun/security/util/Password.java:114-121 | storing an octet extends what the buffer holds by that char |
| `Passwords.Turn` | src/java.base/share/classes/sun/security/util/Password.java:94-123 | one loop iteration keeps the loop invariant and advances through the stream |
| `Passwords.WipeLast` | src/java.base/share/classes/sun/security/util/Password.java:132 | with the last fill every buffer the loop used is all `' '` |
| `Passwords.ReadLine` | src/java.base/share/classes/sun/security/util/Password.java:84-124 | the loop leaves the line's chars in `buf[0..offset)` and the stream after the terminator |
| `Passwords.ReadPassword` | src/java.base/share/classes/sun/security/util/Password.java:84-134 | null exactly for an empty line; otherwise a fresh array of exactly the line's chars; every working buffer wiped with `' '` and growing by 128 chars |

## Left out

- DerTree `toString`/`toString0`: debug output with no bearing on the encoding.
- DerTree `TIME` formatting: `DateTimeFormatter` is foreign code, so `Time` takes the formatted octets and an epoch second. Only the choice of tag is modelled.
- The string creators (`UTF8STRING`…`BMPSTRING`): the charset encoders are foreign code, so `MakeString` takes the encoded octets.
- `OID`: takes the identifier's encoding as octets, because `ObjectIdentifier` is not part of this model.
- `INTEGER(String)` is not modelled, because it only parses the string into a `BigInteger`.
- `encode(ByteArrayOutputStream)` is not modelled: it only wraps an `IOException` that cannot happen into an `AssertionError`. The model's `Sink` cannot fail.
- `InputStream.available()`: modelled by `Streams.Source` as the smaller of what remains and a fixed window.
- `InputStream.read(byte[])`: `Streams.Source` always returns min(buffer length, octets remaining), so it never reads short. The chunk layout proved for `DerTrees.DerTree.EncodeStream` and `CopyChunks` (one chunk per 1024 octets, `BerValue.Chunks`) holds for such streams only. A stream that reads short gives smaller chunks, which `BerValue.ChunksRoundTrip` does not cover.
- `DerTrees.DerTree.Encode0`, `Encode` and `ToByteArray` require `Encodable`, which asks for three things:
  - every length stays below `Integer.MAX_VALUE`, because the Java `int` overflow past that is not modelled;
  - a SET of several members has no indefinite member, because that case throws in `new ByteArrayOutputStream(len + lenlen + 1)` and is not modelled;
  - no input stream is reachable from two members, because that sharing is not modelled.

  They do not require the streams to be unread: a node whose streams an earlier encode drained is encoded as it now stands (`Now`), and is left drained (`Drained`).
- `DerTrees.DerTree.GetLens`: the model's `Supplier` returns the same octets on every call. An early call, or a second one, is therefore visible only through the count `runs`, not in the octets written.
- `DerTrees.DerTree.Copy` requires a cached encoding to be non-empty; `AsImplicitContext` carries the error for an empty one, as `None`.
- `Streams`: `OutputStream`, `InputStream` and `Supplier` are the minimal classes needed to run `encode0`, not models of the Java library.
- CompactNumberFormat formatting and parsing (`format`, `parse`, `getNumberValue`, `checkIncrement`, `selectCompactPattern(long)`):
  - they work on doubles and `Math.log10` or call `DecimalFormat`;
  - of parsing, only the longest-prefix rule is modelled (`LongestMatch`).
- Plural rules (`buildPluralRulesMap`, `getPluralCategory`): regular-expression and double evaluation.
  - `PatternsGet` takes the category as an argument.
  - The `PLURALS`/`COUNT_PATTERN` split is modelled by `PatternText.Plural`, which holds the (count, pattern) pairs.
- `Patterns.expandAffix()`: the map-wide version is not modelled; it applies `ExpandAffix` to each value.
- `CompactFormats.CompactNumberFormat.constructor`: the initial digit counts come from a `DecimalFormat` built on "0", which is not part of this model, so they are parameters. The pattern tables are then built by `NewCompactNumberFormat` calling `ProcessCompactPatterns`.
- `CompactFormats.StoredDivisor`: for a pattern with an affix it gives the intended exact divisor (`PowersOfTen.ComputeDivisor`), not what `computeDivisor` as written gives. The two differ only for 20 or more zeros at index 19 or above (`CompactFormats.StoredDivisorAgrees`; see "## Findings").
- `CompactFormats.Apply`, `ApplyAll`, `ApplyEntry` and `Process` store that intended divisor. For 20 or more zeros at index 19 or above, they can therefore refuse a pattern that Java accepts, or store a different divisor.
- `CompactFormats.ApplyDivisors`: it speaks of the divisor list of a successful `Apply`, and `Apply` succeeds with the intended divisor. It therefore says nothing of the patterns that only Java's saturated divisor accepts.
- `CompactFormats.ApplyAllDivisors`: the divisors of a plural entry are stated through `StoredDivisor`, the intended one, not Java's saturated value.
- `CompactFormats.DivisorsAligned`: it aligns the tables with `StoredDivisor`, the intended divisor, so it does not describe Java's tables for 20 or more zeros at index 19 or above.
- `CompactFormats.CompactNumberFormat.ApplyPattern`: it stores the intended divisor. With `"000000000000000000000K"` at index 19 it fails with `DigitsExceedLimit(19)`, where Java stores 1. At index 20 it stores 1, where Java stores 10.
- `CompactFormats.CompactNumberFormat.ApplyCounts`, `ApplyText` and `ProcessEntry` build on `ApplyPattern`, so they store the intended divisor too.
- `CompactFormats.CompactNumberFormat.ProcessCompactPatterns`: its tables are `Process` with the intended divisor. On pattern arrays with 20 or more zeros at index 19 or above, it can refuse what Java accepts, or divide differently.
- `CompactFormats.NewCompactNumberFormat`: it succeeds exactly when processing with the intended divisor does. It therefore fails on the arrays above that the Java constructor accepts.
- The digit setters: the `DecimalFormat` mirror they keep in step is not modelled. The counts are fields of the class, and 309 and 340 are `DecimalFormat.DOUBLE_INTEGER_DIGITS` and `DOUBLE_FRACTION_DIGITS`.
- `CompactNumberFormat` serialization, `equals`, `hashCode`, `clone`, `toString`, the rounding mode and `setGroupingUsed`: nothing to verify.
- HPKE key objects: modelled as opaque values.
  - A `SecretKey` carries its format and encoded octets.
  - The zeroing of the array `getEncoded` returns is not modelled.
- `HPKEParameterSpec.toString`: only the mode part and `bytesToString` are modelled, not the concatenation of the ids.
- `Kem.from`, `Kdf.from`, `Aead.from`: each is one `new SimpleId(id)`, so `NewSimpleId` covers them. The `StandardKem`/`StandardKdf`/`StandardAead` tables are constants and are not modelled.
- `Password.readPassword`'s console branch (`ConsoleHolder`, `isatty`, the charset conversion) and the `finally` clean-up of the console buffers: foreign code.
- `IOException` from `in.read()` is not modelled.
- `PushbackInputStream` is modelled by `LineInput` as a one-octet slot in front of the stream.

## Findings

| source | as written | input that shows it | evidently intended | confidence | as-written member | corrected member |
|---|---|---|---|---|---|---|
| src/java.base/share/classes/java/text/CompactNumberFormat.java:1203-1209 | for a pattern index of 19 or more, the `BigInteger` branch compares and divides by `BigInteger.valueOf((long) Math.pow(10, count - 1))`, which saturates at `Long.MAX_VALUE` once count - 1 >= 19 | the compact pattern "000000000000000000000K" (21 zeros, then the suffix "K"; a pattern without an affix stores divisor 1 and never reaches `computeDivisor`) as entry 19 of `compactPatterns`, after 19 other entries: accepted with divisor 1. As entry 20, after 20 other entries: divisor 10 instead of 1 | `BigInteger.TEN.pow(count - 1)`: reject when 10^index < 10^(count-1), else divide exactly | not executed | `PowersOfTen.SaturationAcceptsTooManyDigits` | `PowersOfTen.DivisorCorrect` |

`PowersOfTen.ComputeDivisorAsWritten` models the code as written.
`PowersOfTen.SaturationAcceptsTooManyDigits` and
`PowersOfTen.SaturationWrongDivisor` exhibit the two inputs.
`PowersOfTen.ComputeDivisor` is the exact definition, and the pattern tables
use it (`CompactFormats.StoredDivisor`). "## Left out" names each member
that therefore describes the corrected program. `PowersOfTen.DivisorAgrees` shows
that the two agree on every input except those with at least 20 zeros at an
index of 19 or more.
