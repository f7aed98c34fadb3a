# CORECONF library and event stream, verified

A Dafny model of a C implementation of CORECONF (YANG data over CBOR, addressed by SIDs) and of the
notification queue of its server. The components build on each other: a Robin Hood hash table, a CBOR
codec with its backup stack, a chained datastore map, patch and RPC payloads, SID-path lookup, and a
bounded event queue fed by patch payloads and read through a SID filter.

`dafny verify dfyconfig.toml` checks everything.

| files | what they model |
|---|---|
| `RobinHood.dfy`, `HashTable.dfy` | `src/hashmap.c`: the theory of bucket placement, and the table as a class over a bucket array |
| `Heads.dfy`, `Integers.dfy`, `Items.dfy` | section 3 of RFC 8949: heads, integer memory, well-formed items and their bytes |
| `Decoder.dfy`, `Skipping.dfy`, `Overruns.dfy` | the zcbor decoding state, its backups, and `zcbor_any_skip` on every byte string, past its end included |
| `Encoder.dfy`, `Codec.dfy`, `Printer.dfy` | the zcbor encoding state, the encoding of a value, and the printer for any amount of room |
| `Values.dfy`, `ChainedMap.dfy` | `src/coreconfTypes.c`: values, the chained table as a function and as a class |
| `Parser.dfy`, `Reading.dfy`, `RoundTrip.dfy`, `Trips.dfy` | `cborToCoreconfValue`, what its answers say, what a round trip does, and whole trips over a buffer |
| `KeyMapping.dfy` | key-mapping tables on the wire |
| `PatchTheory.dfy`, `Patch.dfy`, `PatchWire.dfy` | `src/ipatch.c` |
| `Post.dfy` | `src/post.c` |
| `Lookup.dfy`, `Retrieval.dfy` | `src/coreconfManipulation.c` and the lists of `src/sid.c` |
| `Notifications.dfy`, `Stream.dfy`, `EventQueue.dfy` | the event stream of `iot_containers/iot_apps/coreconf_server.c` |
| `Runs.dfy` | whole runs of the two tables against finite maps |
| `Wrappers.dfy`, `Basics.dfy` | shared notions |

Conventions. Memory is a parameter: `granted` is the answer the allocator would give. Bytes are naturals
below 256, strings are byte sequences without the terminating NUL, a double is its 64-bit pattern, and
machine integers are integers with their range, wrap-around and two's complement written out where the
code depends on them. Decoding methods are total; a caller that knows which item stands at the payload
passes it as a ghost `hint` and learns the exact result. The build modelled is the one the Makefile makes:
no `ZCBOR_*` macro, so containers are written with indefinite length, and little-endian memory.

Where the code does not do what one might expect, the model follows the code and states what holds:

- A `true` result of the printer does not mean that everything was written (`Printer.TrueWithoutTheValue`);
  the encoding is complete exactly if it fits (`Printer.WrittenIffRoom`).
- SID-keyed patches are idempotent on finite maps, and on tables if they delete nothing or if no bucket can
  outgrow the insert limit. On a full bucket a deletion can make room for a write that was refused before it
  (`PatchTheory.PatchNotIdempotentWhenFull`). For patches that name each SID once, as every request does, that is
  the only way to fail, and `PatchTheory.OnceNamedIdempotentIff` states the exact condition.
- Keyed patch entries are idempotent exactly under the conditions of `PatchTheory.EditIdempotentIff`.
- A lookup uses up the index it reads (`Lookup.SecondLookupIsCutShort`).
- The key-mapping loop limit admits 51 elements, or 52 when the last list is not empty
  (`KeyMapping.CborToKeyMappingHashMap`). A value map with more than 51 entries comes back as its first 51
  (`Trips.OverfullTrip`).
- The probe distance of the Robin Hood table has 16 bits. Up to 65535 keys it never wraps around; the 65536th key
  can be lost (`RobinHood.KeyIsLost`).
- A skip compares a string's length with the payload counted from the start of its item, tags and head included,
  so a string cut short by no more bytes than those take up is skipped past the end of the payload.
  `Overruns.SkipIffItem` states exactly when. The event stream then queues the map with bytes from beyond the
  payload (`Stream.ReadsBeyondIff`).

## Model

| member | source | states |
|---|---|---|
| RobinHood.PathOccupied | src/hashmap.c:232-253 | from an entry's home up to the entry no bucket is empty, and the t-th of them has a dib of at least t+1 |
| RobinHood.MetBeforeSwap | src/hashmap.c:232-253 | a probe for a stored key that has met only other keys faces a bucket whose dib is not smaller than its own, so the key is met before any swap |
| RobinHood.KeyIsAhead | src/hashmap.c:260-274 | the same for any key that the represented map binds, so a lookup cannot stop early |
| RobinHood.VacancyExists | src/hashmap.c:217-222 | a table with fewer bindings than buckets has an empty bucket |
| RobinHood.DibWithinCount | src/hashmap.c:25-28 | every stored dib is between 1 and the number of keys |
| RobinHood.DibBelowLimit | src/hashmap.c:252-252 | with one key in hand and at most 65535 keys in all no stored dib has reached 65535, so no increment wraps |
| RobinHood.CrowdIsPassed | src/hashmap.c:232-253 | under a hash that sends every key to one bucket, a new entry passes t buckets with its dib counted modulo 65536 |
| RobinHood.KeyIsLost | src/hashmap.c:232-253 | with one key more the law fails: the 65536th key of a concrete table is stored with dib 0, so nothing is stored |
| RobinHood.SetStep | src/hashmap.c:245-252 | one round of displacement over 16-bit dibs keeps the placement invariant, the carried entry fits its next bucket without wrap-around, and table and hand together keep every binding, up to 65535 keys |
| RobinHood.SetReplace | src/hashmap.c:240-244 | the key is met only if it was bound, and replacing the item there rebinds exactly that key |
| RobinHood.SetPlace | src/hashmap.c:234-238 | an empty bucket is reached only for an unbound key, and storing there completes the invariant with exactly one binding more |
| RobinHood.OpenHole | src/hashmap.c:300-301 | emptying the deleted bucket unbinds exactly its key and leaves one hole in an otherwise graded table |
| RobinHood.ShiftStep | src/hashmap.c:302-312 | moving the next entry back one bucket moves the hole, keeping every binding and the placement of all others |
| RobinHood.CloseHole | src/hashmap.c:306-309 | stopping at an entry at home or at an empty bucket restores the full placement invariant |
| RobinHood.PrefixNext | src/hashmap.c:180-201 | the entry a rehash moves next is none of those moved before |
| RobinHood.PrefixOfAll | src/hashmap.c:348-357 | walking all buckets once meets exactly the bindings of the map |
| HashTable.GrowthMakesRoom | src/hashmap.c:217-222 | growing at either threshold (0.60 or 0.75) leaves the count strictly below the next one |
| HashTable.HalfIsEnough | src/hashmap.c:314-316 | halving a table larger than its minimum capacity never goes below that capacity |
| HashTable.HashMap.constructor | src/hashmap.c:122-137 | an empty valid table with growat at 0.60 and shrinkat at 0.10 of the buckets |
| HashTable.HashMap.New | src/hashmap.c:84-138 | capacity rounded up to the least power of two of at least 16; no table exactly if memory is denied |
| HashTable.HashMap.SetGrowByPower | src/hashmap.c:55-57 | the growth power is within 1..16, and one in that range is kept |
| HashTable.HashMap.Reinsert | src/hashmap.c:185-200 | the rehash displacement loop, over 16-bit dibs, adds exactly the moved binding |
| HashTable.HashMap.Rehash | src/hashmap.c:180-201 | the new bucket array represents the same finite map as the old one |
| HashTable.HashMap.Resize | src/hashmap.c:175-210 | contents, count and capacity are kept; on denied memory nothing at all changes |
| HashTable.HashMap.Displace | src/hashmap.c:224-253 | the probe loop, over 16-bit dibs, ends, returns the old item of the key, and leaves the map with exactly that key rebound |
| HashTable.HashMap.Grow | src/hashmap.c:217-222 | growth happens exactly if memory is granted, by the growth power, and leaves room for one more key |
| HashTable.HashMap.Set | src/hashmap.c:214-254 | up to 65535 keys: map update and old item, or, exactly if the table is at its threshold and memory is denied, oom with nothing changed; the table grows by 2^growpower exactly at the threshold |
| HashTable.HashMap.ShiftBack | src/hashmap.c:301-312 | backward shift leaves the map without exactly the deleted key |
| HashTable.HashMap.Probe | src/hashmap.c:260-274 | ends at the bucket of the key if it is bound and at an empty bucket otherwise |
| HashTable.HashMap.Get | src/hashmap.c:260-274 | the item is returned exactly if the key is bound |
| HashTable.HashMap.Unlink | src/hashmap.c:300-313 | count and contents lose exactly one key |
| HashTable.HashMap.Delete | src/hashmap.c:289-321 | removes exactly the given key and returns its item; the table is halved exactly if it is over its minimum, at most a tenth full and memory is granted |
| HashTable.HashMap.Clear | src/hashmap.c:156-173 | empties the table, with thresholds of 0.75 and 0.10, whether or not the smaller array is granted |
| HashTable.HashMap.Iter | src/hashmap.c:348-357 | steps to the next occupied bucket, skipping only empty ones |
| Runs.ValidIsRoomy | src/hashmap.c:25-28 | count <= growat < nbuckets, an empty bucket exists, and no dib exceeds the count |
| Runs.Perform | src/hashmap.c:156-321 | each call answers as a finite map does, up to 65535 keys; only a set that was denied memory may be refused |
| Runs.Run | src/hashmap.c:156-321 | every run of set, get, delete and clear that never has more than 65535 keys is matched step by step by a finite map, under every allocation outcome, and ends in a roomy table |
| Heads.BigEndianRoundTrip | coreconf_zcbor_generated/zcbor_decode.c:93-135 | a number is recovered from its big-endian bytes |
| Heads.ShortestIsShortest | coreconf_zcbor_generated/zcbor_common.c:296-322 | the predicted header length is that of the shortest head, and no other width is shorter |
| Heads.HeadExamples | coreconf_zcbor_generated/zcbor_encode.c:61-104 | heads byte by byte, as in appendix A of RFC 8949 |
| Heads.HeadExtracts | coreconf_zcbor_generated/zcbor_decode.c:138-188 | every head of every width is read back as the argument it was written for |
| Heads.ExtractIsHead | coreconf_zcbor_generated/zcbor_decode.c:138-188 | whatever value_extract accepts is a head of some width with that argument |
| Integers.SignAndComplement | coreconf_zcbor_generated/zcbor_encode.c:107-140 | the sign bit of the memory decides the major type, and the complement of a negative number holds -1-n |
| Integers.FlippedIsComplement | coreconf_zcbor_generated/zcbor_encode.c:126-130 | flipping every byte turns n into 2^bits - 1 - n |
| Integers.ComplementBack | coreconf_zcbor_generated/zcbor_decode.c:191-213 | the top bit of the result memory tells an argument too large for a signed integer; otherwise the memory reads as n, and flipped as -1-n |
| Encoders.Encoder.HeaderByte | coreconf_zcbor_generated/zcbor_encode.c:43-58 | one byte appended exactly if there is room |
| Encoders.Encoder.ValueEncodeLen | coreconf_zcbor_generated/zcbor_encode.c:61-88 | initial byte and reversed memory appended exactly if all of it fits, otherwise nothing |
| Encoders.Encoder.ValueEncode | coreconf_zcbor_generated/zcbor_encode.c:91-104 | the shortest head of the number held in memory |
| Encoders.Encoder.UintPut | coreconf_zcbor_generated/zcbor_encode.c:222-231 | the shortest head of an unsigned integer, exactly if it fits |
| Encoders.Encoder.IntPut | coreconf_zcbor_generated/zcbor_encode.c:107-140 | the encoding of a signed integer, negative ones by complement, exactly if it fits |
| Encoders.Encoder.StrEncode | coreconf_zcbor_generated/zcbor_encode.c:306-325 | length head and bytes, exactly if both fit |
| Encoders.Encoder.SimplePut | coreconf_zcbor_generated/zcbor_encode.c:485-503 | a one-byte simple value |
| Encoders.Encoder.Float64Put | coreconf_zcbor_generated/zcbor_encode.c:531-545 | a nine-byte float of the given bit pattern |
| Trips.UnsignedTrip | coreconf_zcbor_generated/zcbor_decode.c:269-308 | every unsigned 64-bit integer comes back from exactly the 1, 2, 3, 5 or 9 bytes written, and no shorter head expresses it (section 4.2.1 of RFC 8949) |
| Trips.SignedTrip | coreconf_zcbor_generated/zcbor_decode.c:191-238 | every signed 64-bit integer does too, negative ones with every byte of the memory flipped on the way out and flipped back on the way in |
| Trips.ReadsSigned | coreconf_zcbor_generated/zcbor_decode.c:191-238 | an argument of 2^63 or more is refused, any other read |
| Decoders.Decoder.constructor | coreconf_zcbor_generated/zcbor_common.c:165-208 | n_states - 2 backups, the given element count, not indefinite |
| Decoders.Decoder.EndianCopy | coreconf_zcbor_generated/zcbor_decode.c:93-135 | the reversed bytes are the little-endian memory of the number |
| Decoders.Decoder.ValueExtract | coreconf_zcbor_generated/zcbor_decode.c:138-188 | on failure nothing changes; on success the payload moves past the head, one element is counted and its start remembered |
| Decoders.Decoder.UintDecode | coreconf_zcbor_generated/zcbor_decode.c:269-279 | the unsigned value and exactly its bytes and one element consumed, or no change |
| Decoders.Decoder.IntDecode | coreconf_zcbor_generated/zcbor_decode.c:216-238 | the signed value, read from the result memory in two's complement, or no change where the argument exceeds 2^63 - 1 |
| Decoders.Decoder.ValToInt | coreconf_zcbor_generated/zcbor_decode.c:191-213 | refuses memory with its top bit set, and flips every byte of a negative integer in place |
| Decoders.Decoder.StrDecode | coreconf_zcbor_generated/zcbor_decode.c:543-594 | the string bytes, or no change where they reach past the payload |
| Decoders.Decoder.SimpleDecode | coreconf_zcbor_generated/zcbor_decode.c:1275-1296 | a simple value up to 23 or a one-byte one, or no change |
| Parser.SimpleRange | coreconf_zcbor_generated/zcbor_decode.c:1275-1296 | simple values are read up to 23 in the initial byte and from 32 on in a byte of their own |
| Decoders.Decoder.SimpleExpect | coreconf_zcbor_generated/zcbor_decode.c:1299-1314 | true and consumed exactly for the expected value |
| Decoders.Decoder.BoolDecode | coreconf_zcbor_generated/zcbor_decode.c:1340-1356 | 20 and 21 as booleans, anything else restored |
| Decoders.Decoder.Float64Decode | coreconf_zcbor_generated/zcbor_decode.c:1520-1530 | the 64-bit pattern |
| Decoders.Decoder.TagDecode | coreconf_zcbor_generated/zcbor_decode.c:1700-1710 | a tag moves the payload and gives its element back |
| Decoders.Decoder.NewBackup | coreconf_zcbor_generated/zcbor_common.c:20-46 | the state is saved exactly if a backup is free |
| Decoders.Decoder.ListMapStart | coreconf_zcbor_generated/zcbor_decode.c:843-866 | the state inside the container with the outer element count, less one, and the indefinite flag in the newest backup, or no change |
| Decoders.Decoder.MapStart | coreconf_zcbor_generated/zcbor_decode.c:876-889 | keys and values counted; a count too large to double is refused |
| Decoders.Decoder.ArrayAtEnd | coreconf_zcbor_generated/zcbor_decode.c:892-906 | the end by count or by break byte |
| Decoders.Decoder.ListMapEnd | coreconf_zcbor_generated/zcbor_decode.c:1188-1213 | the newest backup is consumed and its element count and flag restored whether or not the end is right; right is a break byte or a count of zero |
| Parser.OpenedInside | coreconf_zcbor_generated/zcbor_decode.c:843-889 | opening a well-formed container puts the state before its first element with everything needed to restore the outer state in the newest backup |
| Parser.InsideStep | coreconf_zcbor_generated/zcbor_decode.c:892-906 | consuming element i leads to element i+1 with the backups untouched, and the end is not reported early |
| Parser.InsideEnd | coreconf_zcbor_generated/zcbor_common.c:49-103 | after the last element the end is seen, and closing gives the outer state past exactly the container, one element fewer |
| Decoders.Decoder.AnySkip | coreconf_zcbor_generated/zcbor_decode.c:1629-1697 | ends on every byte string, with the remaining payload as measure, exactly where the skip function says; a failure leaves the state or restores it to the last element |
| Decoders.Decoder.SkipUntagged | coreconf_zcbor_generated/zcbor_decode.c:1653-1691 | the untagged item, with a string's length compared to the payload from before the tags |
| Decoders.Decoder.SkipElements | coreconf_zcbor_generated/zcbor_decode.c:1679-1686 | the elements of a container and the break of an indefinite one |
| Skipping.SkipsItem | coreconf_zcbor_generated/zcbor_decode.c:1629-1697 | every well-formed item, at any nesting and with any tags, is skipped to its last byte |
| Skipping.SkippedIsItem | coreconf_zcbor_generated/zcbor_decode.c:1629-1697 | whatever is skipped without passing the end of the payload is one well-formed item |
| Overruns.SkipIffItem | coreconf_zcbor_generated/zcbor_decode.c:1629-1697 | on all bytes a skip ends at q exactly if a well-formed item ends at q, whole or lacking at its end no more bytes of a final string than its tags and head take up |
| Overruns.SkipsCut | coreconf_zcbor_generated/zcbor_decode.c:568-580 | an item cut short within its overhang is skipped to where it would have ended |
| Overruns.CutIsItem | coreconf_zcbor_generated/zcbor_decode.c:1662-1691 | whatever is skipped past the end of the payload is such an item, whatever memory follows |
| Overruns.SkipPassesTheEnd | coreconf_zcbor_generated/zcbor_decode.c:1663-1668 | two concrete inputs: a string and a map that are skipped one byte past their end |
| Overruns.NotSkipped | coreconf_zcbor_generated/zcbor_decode.c:1629-1697 | concrete inputs that are not skipped: a 64-bit tag, a string of indefinite length, a break, a reserved head |
| Trips.SkipsEncoding | coreconf_zcbor_generated/zcbor_decode.c:1629-1697 | on every encoded value the skip ends at the byte where the full decoder ends |
| Values.WalkReports | src/coreconfTypes.c:127-140 | what an insert walk finds, and that a chain of at most 51 is never refused |
| Values.HashIsShiftedProduct | src/coreconfTypes.c:331-333 | the bucket of a key is the signed 64-bit product with 2654435769, divided by 2^32 rounding down, as an unsigned integer modulo 100 |
| Values.HashIgnoresHighBits | src/coreconfTypes.c:331-333 | it depends on the low 32 bits of the key only |
| Values.PutOrder | src/coreconfTypes.c:141-142 | a new key goes to the front of its bucket, a bound one keeps its place, no other bucket is touched |
| Values.PutBinds | src/coreconfTypes.c:113-148 | an accepted insert rebinds exactly one key and keeps keys in their own bucket, once; a refused one changes nothing; a chain of at most 51 always accepts |
| Values.DeleteUnbinds | src/coreconfTypes.c:150-167 | a delete unbinds exactly one key |
| Values.GetIsLookup | src/coreconfTypes.c:169-179 | a lookup is that of the finite map |
| ChainedMaps.ChainedMap.constructor | src/coreconfTypes.c:94-104 | an empty map of 100 empty buckets |
| ChainedMaps.ChainedMap.Insert | src/coreconfTypes.c:113-148 | a new key in front of its bucket or the value replaced in place, size in step with the keys; -1 and no change only for a chain over 51 long |
| ChainedMaps.ChainedMap.Remove | src/coreconfTypes.c:150-167 | unlinks exactly the key and keeps the order of the others; -1 exactly if it is absent |
| ChainedMaps.ChainedMap.Lookup | src/coreconfTypes.c:169-179 | the value bound to the key |
| Runs.PerformEdit | src/coreconfTypes.c:113-167 | each edit acts as on a finite map; a refusal happens only on a chain of 52 and changes nothing |
| Runs.RunEdits | src/coreconfTypes.c:113-167 | over every run of inserts and deletes keys sit in their own bucket without duplicates, no chain exceeds 52, and size is the number of keys |
| Codec.EncodeIsWire | src/serialization.c:21-94 | the encoder's output is one well-formed item of exactly the predicted length |
| Codec.EncodeHasForm | src/serialization.c:21-94 | the form of each kind of value: major type 3 for strings, 0 or 1 by sign for integers, 0xFB for reals, 0xF5, 0xF4 and 0xF6 for true, false and null, 0x9F or 0xBF up to 0xFF for containers, each with its argument |
| Codec.ThreeKeysOnTheWire | src/coreconfTypes.c:321-329 | keys 2, 3 and 1 inserted in this order are written as 1, 3, 2: bucket by bucket, the newest of a bucket first |
| Codec.ThreeKeysInserted | src/coreconfTypes.c:113-148 | and that is the table the inserts build |
| Printer.RoomIsEnough | src/serialization.c:21-94 | with room for the encoding exactly the encoding is written and true returned |
| Printer.WrittenIffRoom | src/serialization.c:21-94 | the whole encoding is written exactly if it fits |
| Printer.FirmIsWhole | src/serialization.c:21-94 | for a value without maps a true result means that all of it was written |
| Printer.TrueWithoutTheValue | src/serialization.c:15-19 | a true result does not mean the value was written: for every scalar that does not fit after its key while the break does, the map is reported written without it |
| Printer.WalkGoesOn | src/serialization.c:15-19 | a value that does not fit leaves its key behind, and the walk goes on with the next object |
| Printer.DropsTheReal | src/serialization.c:15-19 | a concrete map, byte by byte |
| Printer.ElementsStop | src/serialization.c:36-39 | an array stops at the first element that does not fit |
| Printer.StopsAtTheReal | src/serialization.c:36-39 | a concrete array, byte by byte |
| Printer.CoreconfToCbor | src/serialization.c:21-94 | for every value and every amount of room, the bytes written and the result; with room, bytes of the form that the kind of value has |
| Printer.ScalarToCbor | src/serialization.c:43-88 | scalars are written whole or not at all |
| Printer.ArrayToCbor | src/serialization.c:32-42 | an array stops at its first failing element |
| Printer.MapToCbor | src/serialization.c:25-31 | a map goes on after failing entries and reports only its own head and break |
| Printer.ChainToCbor | src/coreconfTypes.c:321-329 | objects of a bucket in chain order |
| Printer.ObjectToCbor | src/serialization.c:15-19 | key and value, both results dropped |
| RoundTrip.TurnedIsMeaning | src/serialization.c:96-225 | what the decoder makes of an encoded value: integers by sign, every bucket chain reversed, at every level |
| RoundTrip.TurnedIsSame | src/serialization.c:96-225 | that is the same value once maps are finite maps and integers are numbers |
| RoundTrip.TurnedTwice | src/coreconfTypes.c:141-142 | a second trip restores every chain |
| RoundTrip.TwoRoundTripsRestoreBytes | src/coreconfTypes.c:321-329 | encoding the value that went through two trips gives the first encoding byte for byte |
| RoundTrip.FitsIsDecodable | src/serialization.c:197-225 | a value within the depth, backup and 51-entry limits is encoded as an item within the decoder's limits |
| RoundTrip.RoundTripLaw | src/serialization.c:96-225 | predicted length, decodable, and decoded to the same value up to integer width |
| Parser.CborToCoreconfValue | src/serialization.c:96-176 | on a well-formed item within the limits: the value the item says, exactly its bytes consumed, one element fewer, backups and indefinite flag as before; beyond them: the first 51 pairs of a map, nothing of an item nested too deep, an empty container without a backup left |
| Reading.MeaningIsReadAs | src/serialization.c:96-225 | what a decoded value has to do with its item: strings are the bytes before the first NUL, arrays element by element, maps with the keys of the pairs and the last value for each |
| Reading.LoadBinds | src/serialization.c:205-219 | up to 51 pairs every one of them is bound |
| Reading.AbsIffSame | src/serialization.c:96-225 | the abstraction of the round-trip laws tells values apart exactly up to integer width and bucket order |
| Reading.NestingFits | coreconf_zcbor_generated/zcbor_common.c:165-208 | up to 20 containers deep a value needs one backup for each |
| Parser.ParseLeaf | src/serialization.c:108-174 | integers by sign, strings of both kinds up to their first NUL, reals, booleans and null, as the item says |
| Parser.ParseArray | src/serialization.c:178-195 | all elements in order and the container closed |
| Parser.ParseElems | src/serialization.c:184-189 | one element per round until the end; a round without progress is reported as stuck |
| Parser.ParseMap | src/serialization.c:197-225 | the first 51 pairs inserted in wire order, and the container closed exactly if there are no more |
| Parser.ParsePairs | src/serialization.c:205-219 | true exactly for at most 51 pairs, and the first 51 in any case |
| Parser.ParsePair | src/serialization.c:206-218 | an unsigned key and its value, inserted into the map |
| Trips.ValueTrip | src/serialization.c:21-225 | encode then decode over one buffer: predicted bytes written and consumed, the same value back up to integer width |
| Trips.TwoTrips | src/serialization.c:21-225 | decode and encode twice: the first and the third encoding are the same bytes |
| Trips.TurnedFits | src/serialization.c:197-225 | a decoded value is again within the limits |
| Trips.TurnedSize | src/serialization.c:21-94 | and its encoding has the same length |
| Trips.OverfullTrip | src/serialization.c:205-219 | the limit is sharp: of a map with more than 51 entries exactly the first 51 in encoding order come back, and the decoder stops inside the encoding |
| KeyMapping.KeyMappingHashMapToCbor | src/serialization.c:227-251 | true exactly if there is room, and then every binding of the table once, in bucket order |
| KeyMapping.RowsToCbor | src/serialization.c:234-247 | the iterator loop writes the rows of all occupied buckets |
| KeyMapping.ListToCbor | src/serialization.c:239-246 | one list of SIDs, exactly if it fits |
| KeyMapping.DecodeList | src/serialization.c:273-285 | the list, exactly if the shared loop counter allows it |
| KeyMapping.DecodePair | src/serialization.c:260-288 | one key and its list, exactly if admitted |
| KeyMapping.CborToKeyMappingHashMap | src/serialization.c:253-297 | a table exactly if the mapping is admitted: 51 keys and SIDs in all, or 52 when the last list is not empty; and it holds exactly the mapping |
| KeyMapping.RefusedEarly | src/serialization.c:262-285 | a mapping refused at one of its pairs is not admitted as a whole |
| KeyMapping.MappedIsMapping | src/serialization.c:227-251 | what a table is written as binds exactly what the table binds |
| KeyMapping.RowOnTheWire | src/serialization.c:236-247 | a key and its list, byte by byte |
| KeyMapping.KeyMappingRoundTrip | src/serialization.c:227-297 | encode then decode gives the same finite map of ordered lists, and a copy exists exactly within the counter limit |
| Patch.FindListEntryByKey | src/ipatch.c:51-70 | the first entry with a string member equal to the key |
| Patch.RemoveArrayEntry | src/ipatch.c:73-80 | the array without exactly that entry, order kept |
| Patch.ApplySidEntry | src/ipatch.c:183-198 | null deletes, a map over a list is wrapped, anything else replaces |
| Patch.EditInstance | src/ipatch.c:225-251 | on the list before and after: the first match is removed or replaced in place, a new entry goes to the end, without a match null changes nothing; no other SID changes |
| Patch.DecodeInstanceKey | src/ipatch.c:203-220 | the pair of SID and string, consumed whole; a string of at most 127 bytes without NUL comes back as it is |
| Patch.KeyStringIs | src/ipatch.c:208-214 | of a key the first 127 bytes count, up to a NUL |
| Patch.ApplyEntry | src/ipatch.c:174-255 | one key and value applied and counted |
| Patch.ApplyMap | src/ipatch.c:171-258 | one map: its pairs in order, then its end |
| Patch.ApplyIpatchRaw | src/ipatch.c:157-262 | the datastore and the count are exactly those of the maps in the payload, in order; -1 for an empty payload |
| PatchTheory.ApplyOpsFrame | src/ipatch.c:157-200 | a SID the patch does not name keeps its value |
| PatchTheory.ApplyInstanceBinds | src/ipatch.c:225-251 | an instance entry rebinds exactly its list |
| PatchTheory.EditListEdits | src/ipatch.c:225-251 | what an instance entry does to a list, stated on positions |
| PatchTheory.MatchesIff | src/ipatch.c:51-70 | an entry is a match exactly if one of its members is bound to the key as a string |
| PatchTheory.LastOpDecides | src/ipatch.c:166-199 | the last entry that names a SID decides what it is bound to in the end |
| PatchTheory.StepsIdempotent | src/ipatch.c:166-199 | on finite maps any sequence of SID entries, deletions and the wrapping rule included, is idempotent |
| PatchTheory.PatchIdempotent | src/ipatch.c:166-199 | on tables too, if no bucket can outgrow the insert limit |
| PatchTheory.WritesIdempotent | src/ipatch.c:166-199 | a patch that deletes nothing is idempotent on every datastore, full buckets included |
| PatchTheory.OnceNamedIdempotentIff | src/ipatch.c:166-199 | a patch that names each SID once is idempotent exactly if no write of it is refused by a full bucket that ends up with room for it |
| PatchTheory.RefusedAgain | src/coreconfTypes.c:127-140 | a write that was refused is refused again exactly if its bucket is still full at the end |
| PatchTheory.PatchNotIdempotentWhenFull | src/ipatch.c:166-199 | on a bucket of 52 objects a patch that writes and then deletes is not idempotent: a concrete one |
| PatchTheory.EditIdempotentIff | src/ipatch.c:225-251 | writing a list entry twice is writing it once exactly if the value carries the key itself; deleting, exactly if at most one entry carries it |
| PatchWire.PayloadIdempotent | src/ipatch.c:157-200 | a payload of SID-keyed maps applied twice leaves the datastore of applying it once (section 3 of RFC 8132) |
| PatchWire.RequestIdempotentIff | src/ipatch.c:111-200 | the exact condition for what create_ipatch_request sends |
| PatchWire.ApplyIpatch | src/ipatch.c:95-108 | the entries that get memory for their copy applied in table order; -1 exactly if one did not or an insert was refused |
| PatchWire.ApplyOneSid | src/ipatch.c:21-46 | null deletes, anything else is copied and inserted if there is memory |
| PatchWire.CopiedAll | src/ipatch.c:32-40 | with memory for all of them, all entries are applied |
| PatchWire.WireMatchesMemory | src/ipatch.c:21-46 | over the wire and in memory every SID ends up with the same value up to integer width, except that a map over a list is wrapped on the wire; the count is the number of entries |
| PatchWire.CreateIpatchRequest | src/ipatch.c:111-155 | the encoding of the patch map if it fits; where no value holds a map, 0 exactly if it does not |
| PatchWire.RequestIsPatchMap | src/ipatch.c:111-155 | which is a patch map the server can read, for values nested at most 5 deep |
| PatchWire.FiveDeepFits | src/ipatch.c:168-169 | values nested at most 5 deep, with at most 51 entries per map, are within the limits of a patch |
| PatchWire.SendPatch | src/ipatch.c:111-200 | create_ipatch_request then apply_ipatch_raw: the same datastore as apply_ipatch, unnamed SIDs untouched, count the number of entries |
| Post.WriteKey | src/post.c:42-61 | a SID, or the pair of SID and string, exactly if there is room |
| Post.WriteItem | src/post.c:63-86 | one map of key and value, an absent value as null; for a value without maps, true exactly if there is room |
| Post.CreatePostItems | src/post.c:63-86 | the items one after the other if they fit; 0 for none and, where no value holds a map, exactly if they do not fit |
| Post.DecodePostKey | src/post.c:10-40 | the key and exactly its bytes |
| Post.ParseItem | src/post.c:100-122 | one item of the sequence |
| Post.ParsePostItems | src/post.c:88-150 | exactly the items of the payload, in order; none at all if something follows them that is no map |
| Post.NineDeepIsSendable | src/post.c:101-102 | values nested at most 9 deep, with at most 51 entries per map, can be sent |
| Post.ItemsOnTheWire | src/post.c:42-86 | two items, byte by byte |
| Post.SentIsReceived | src/post.c:63-150 | one item as sent is read back with its key and value |
| Post.PostRoundTrip | src/post.c:42-150 | same count, order, keys and values up to integer width, absent values as null |
| Lookup.DeltaOfChild | src/coreconfManipulation.c:136-138 | the delta of a child SID is the key it is stored under, wrap-around included |
| Lookup.AddUniqueLong | src/sid.c:107-114 | appended unless already listed |
| Lookup.Clookup.Record | src/coreconfManipulation.c:197-207 | exactly one child-parent pair is added, never twice |
| Lookup.Clookup.Build | src/coreconfManipulation.c:186-219 | exactly the child-parent pairs of the tree are added, for trees within the recursion limit, and never others |
| Lookup.Clookup.BuildChain | src/coreconfManipulation.c:192-210 | the same for the objects of one bucket |
| Lookup.FindRequirementForSid | src/coreconfManipulation.c:81-115 | ends on every index, parent cycles included, because each round pops a stored parent or stops; the path and the index afterwards |
| Lookup.PopShrinks | src/sid.c:89-96 | a pop strictly lowers the number of stored parents |
| Lookup.PathIsLinked | src/coreconfManipulation.c:186-219 | every path of the tree is a chain of recorded pairs from the root |
| Lookup.PathDistinct | src/coreconfManipulation.c:92-112 | with one parent per SID no SID comes twice on a path from the root |
| Lookup.FreshIndexFindsPath | src/coreconfManipulation.c:81-115 | a freshly built index yields exactly the root-to-node chain of every node and uses it up |
| Lookup.NewestParentFirst | src/sid.c:89-96 | of two parents of a SID the one recorded last is followed, and the other is left |
| Lookup.SecondLookupIsCutShort | src/coreconfManipulation.c:92-112 | a second lookup of the same SID answers with the SID alone, which is right exactly for top-level nodes |
| Retrieval.CompareDynamicLongList | src/sid.c:51-70 | equal exactly if non-empty, of one length and sorted alike |
| Retrieval.MatchEntry | src/coreconfManipulation.c:152-176 | an entry is chosen exactly if its keys are distinct and each leaf is the number requested for it, the last request key first, whatever the sort does |
| Retrieval.FitsAsNumber | src/coreconfTypes.c:217-238 | a leaf fits a request exactly if it is that number as a signed 64-bit integer; what is no number counts as 0 |
| Retrieval.ChosenByNumber | src/coreconfManipulation.c:158-176 | the choice stated on numbers |
| Retrieval.NextAsked | src/coreconfManipulation.c:171-175 | which request keys the next list is asked with |
| Retrieval.TwoLists | src/coreconfManipulation.c:129-179 | through two lists the last request key chooses in the outer one and the first in the inner one |
| Retrieval.WithoutAnEntry | src/coreconfManipulation.c:147-150 | a keyed SID that is no list is refused; a list without a chosen entry stands for itself |
| Retrieval.PickEntry | src/coreconfManipulation.c:152-179 | the first chosen entry, or the list itself |
| Retrieval.ExamineCoreconfValue | src/coreconfManipulation.c:117-184 | the answer of the descent along the path, through containers and keyed lists |
| Retrieval.WrappedIsOneEntry | src/coreconfManipulation.c:181-183 | the answer is the finite map from the SID to its node |
| Retrieval.RouteLeads | src/coreconfManipulation.c:129-145 | a route through containers and lists is a path of the indexed tree |
| Retrieval.RouteDescends | src/coreconfManipulation.c:129-179 | the descent along a route ends at its node |
| Retrieval.RouteExtends | src/coreconfManipulation.c:136-138 | every entry of a container that a route leads to has a route, so every node of a tree of containers has one |
| Retrieval.Retrieve | src/coreconfManipulation.c:81-219 | build, find and examine: for every tree within depth 50 with non-zero SIDs of one parent each, the subtree of the node the route leads to |
| Notifications.SidKeyReads | iot_containers/iot_apps/coreconf_server.c:628-640 | a key is read as a SID exactly if it is an unsigned integer or a pair beginning with one |
| Notifications.DecodeSidKey | iot_containers/iot_apps/coreconf_server.c:757-775 | the SID and the state after the key; a failure never goes back before it |
| Notifications.ExtractFirstSidFromMap | iot_containers/iot_apps/coreconf_server.c:617-641 | the SID of the first key or the fallback, for all bytes |
| Notifications.FirstSidOfMap | iot_containers/iot_apps/coreconf_server.c:617-641 | on a well-formed map that is its first key if it is a SID key, and the fallback otherwise |
| Notifications.UintBytesAreHead | iot_containers/iot_apps/coreconf_server.c:560-600 | the server's own encoder writes the shortest head |
| Notifications.CborEncodeUint | iot_containers/iot_apps/coreconf_server.c:560-600 | the head, exactly if it fits |
| Stream.WrapNotificationInstance | iot_containers/iot_apps/coreconf_server.c:602-615 | a one-entry map from the SID to the payload, exactly if it fits |
| Stream.FitsIff | iot_containers/iot_apps/coreconf_server.c:602-615 | an event fits if it is at most 4096 bytes with its head |
| Stream.EventOnTheWire | iot_containers/iot_apps/coreconf_server.c:602-615 | an event, byte by byte |
| Stream.EventIsInstance | iot_containers/iot_apps/coreconf_server.c:602-615 | an event is itself a well-formed map whose only key is its SID |
| Stream.SkipMap | iot_containers/iot_apps/coreconf_server.c:685-690 | skipping a map pair by pair passes exactly what a skip of the whole map passes, and ends at the same byte |
| Stream.SplitsMaps | iot_containers/iot_apps/coreconf_server.c:678-698 | a sequence of well-formed maps is cut into exactly those maps |
| Stream.PartsAreMaps | iot_containers/iot_apps/coreconf_server.c:678-698 | whatever the bytes and the memory after them, each part cut out is one whole well-formed map |
| Stream.ReadsBeyondIff | iot_containers/iot_apps/coreconf_server.c:685-695 | the splitter reads beyond the payload exactly on well-formed maps of which the last is cut short within its overhang |
| Stream.ReadBeyondTheEnd | iot_containers/iot_apps/coreconf_server.c:691-695 | a concrete input: a map that is queued with the byte after the payload |
| Stream.SidInFilter | iot_containers/iot_apps/coreconf_server.c:742-747 | true exactly if the SID is listed |
| Stream.EventMatchesFilter | iot_containers/iot_apps/coreconf_server.c:749-794 | an event of maps with SID keys matches exactly if the filter names one of their keys |
| Stream.ScanMap | iot_containers/iot_apps/coreconf_server.c:760-784 | the pairs of one map up to a match |
| EventQueue.EventStream.PushEvent | iot_containers/iot_apps/coreconf_server.c:643-664 | newest first, the oldest dropped from a full queue; an empty event or one without memory changes nothing |
| EventQueue.EventStream.ClearEvents | iot_containers/iot_apps/coreconf_server.c:551-558 | the queue is empty |
| EventQueue.EventStream.PushNotificationMap | iot_containers/iot_apps/coreconf_server.c:666-676 | the wrapped map is pushed exactly if it fits 4096 bytes and gets memory |
| EventQueue.EventStream.PushNotificationSequence | iot_containers/iot_apps/coreconf_server.c:678-698 | for all bytes: the events of the maps cut out, pushed in order, the last one completed from the memory after the payload exactly if it is cut short within its overhang |
| EventQueue.RunKeepsNewest | iot_containers/iot_apps/coreconf_server.c:643-664 | after any run of pushes onto any queue: the newest 16, newest first |
| EventQueue.RunFromEmpty | iot_containers/iot_apps/coreconf_server.c:643-664 | n pushes leave the last min(n, 16) events, newest first |
| EventQueue.EveryMapIsAnEvent | iot_containers/iot_apps/coreconf_server.c:666-698 | m well-formed maps that fit push m events, each wrapping exactly one map under its own SID |
| EventQueue.KeptPositions | iot_containers/iot_apps/coreconf_server.c:666-698 | of a sequence exactly the parts that fit and get memory become events, in their order |
| EventQueue.SequenceKeepsSound | iot_containers/iot_apps/coreconf_server.c:678-698 | whatever bytes arrive, a queue of whole maps stays one |
| EventQueue.EventNamedBySid | iot_containers/iot_apps/coreconf_server.c:749-794 | the filter names an event exactly by the SID it was queued under |
| EventQueue.FilteredPositions | iot_containers/iot_apps/coreconf_server.c:811-833 | the filtered events are exactly those at the positions whose SID is in the filter, in queue order |
| EventQueue.EventStream.EncodeSequence | iot_containers/iot_apps/coreconf_server.c:796-809 | the longest run of newest events within the limit and the room |
| EventQueue.EventStream.EncodeSequenceFiltered | iot_containers/iot_apps/coreconf_server.c:811-833 | newest first, exactly the events whose SID is in the filter, up to the limit or the first that does not fit; an empty filter passes all |
| EventQueue.CollectFilterSids | iot_containers/iot_apps/coreconf_server.c:700-740 | for all bytes: the SIDs of the keys at the start, as many as there is room for |
| EventQueue.CollectsKeys | iot_containers/iot_apps/coreconf_server.c:700-740 | well-formed keys followed by anything else, or by nothing, give exactly their SIDs |

## Left out

- PatchTheory.PatchIdempotent: a sufficient condition. Patches that name each SID once have the exact one (`PatchTheory.OnceNamedIdempotentIff`); for patches that delete and write one SID repeatedly in an overfull bucket it depends on the order of the chain and of every entry.
- PatchWire.PayloadIdempotent: sufficient conditions, for payloads of SID keys; a payload of one request has the exact one (`PatchWire.RequestIdempotentIff`), and lists edited by key have their own.
- Parser.CborToCoreconfValue: nothing exact is stated for malformed or truncated input; `stuck` stands for the array loop of the source that makes no progress there and never ends.
- Patch.ApplyIpatchRaw: nothing exact is stated for malformed payloads.
- PatchWire.CreateIpatchRequest: where a value holds a map and the buffer is too small, a request may come out with entries missing; which ones is not stated for the request (`Printer.CoreconfToCbor` states it for each value).
- Post.CreatePostItems: the same for the items of a POST.
- Post.WriteItem: the same for one item.
- PatchWire.ApplyIpatch: a table is always given; the shallow copy of arrays and maps, which then share memory with the patch, is not modelled.
- Stream.EventMatchesFilter: exact for events made of maps with SID keys, which the wrapped events are; other bytes only terminate.
- EventQueue.EventStream.EncodeSequenceFiltered: exact while every queued payload is one well-formed item, as it is for sequences (`EventQueue.SequenceKeepsSound`); a POST or PUT body is queued unexamined. The tests for empty slots in the queue are left out because no empty event is ever queued.
- EventQueue.EventStream.PushNotificationSequence: the memory after the payload is a parameter; that reading it is undefined in C is not modelled.
- Runs.Run: for runs that never have more than 65535 keys, beyond which the 16-bit dib may wrap (`RobinHood.KeyIsLost`).
- Runs.Perform: the same bound, for one call.
- HashTable.HashMap.Resize: the old bucket array, which the source uses as scratch space while it empties it, is left alone until it is dropped.
- Retrieval.ExamineCoreconfValue: reads through NULL or mistyped pointers are the outcome `Broken`; the C library's sort and the conversion of a double to an integer are parameters.
- Lookup.FindRequirementForSid: the hash tables it reads are finite maps here, as the runs of the Robin Hood table justify.
- Decoders.Decoder.constructor: the constant part of the zcbor state (error code, stop-on-error, canonical and smart-search options) is not modelled; element counts do not wrap.
- Encoders.Encoder.constructor: the encoder's element counts and backups, which this build writes but never reads, are not modelled.
- HashTable.HashMap.Set: for at most 65535 keys, beyond which the 16-bit dib may wrap (`RobinHood.KeyIsLost`); whether it does then depends on the hashes. The hash and comparison functions are one function of the key and key equality.
- Element destructors, ownership, freeing and pointer aliasing: values are immutable and held in tables.
- SipHash, Murmur and xxHash: the table needs only a function of the key.
- `hashmap_scan`, `hashmap_probe`, `hashmap_free`: easy companions of what is modelled.
- `create_ipatch_iid_request` and the RPC and action request wrappers: they repeat the encoders shown here.
- `src/get.c`, `src/put.c`, `src/delete.c`, `src/fetch.c`: loops over the same encoders and tables.
- zcbor features this build does not use: canonical re-encoding, unordered maps and key search, string fragments, unions, half and single floats, and most expect functions.
- CoAP, DTLS, sockets, files, the command line, printing and SID file loading: input and output.
