# A verified model of ndn-cxx's data structures and protocols

This project models the parts of ndn-cxx (a C++ library for Named Data Networking) in which state, order and
arithmetic interact, and proves what the library promises about them.

| file | what it models |
|---|---|
| `Bytes.dfy`, `Tlv.dfy` | octet strings, TLV numbers, single elements and lists of elements (NDN Packet Format Specification v0.3, "TLV Encoding") |
| `Encoder.dfy` | the two-ended growable encoding buffer |
| `Block.dfy` | `Block`: the estimator pass, the encoder pass that stores positions of a buffer still being filled, parsing |
| `Component.dfy`, `Name.dfy` | canonical order (same specification, "Canonical Order"), the memcmp shortcut, successors |
| `Packet.dfy` | matching of Interests, Data and Nacks |
| `Eviction.dfy`, `Storage.dfy` | the in-memory storage with its entry pool and its FIFO, LRU, LFU and persistent policies |
| `Pending.dfy`, `Face.dfy` | the table of pending Interests, Nack aggregation, posted work, timers |
| `InterestCodec.dfy`, `InterestWriter.dfy`, `Interest.dfy` | Interest encoding, decoding, the parameters digest and the cached wire |
| `LpPacket.dfy` | NDNLPv2 packets and their field order |
| `Dataset.dfy` | segmentation of management datasets |

Objects that the library updates in place are classes, loops are loops, and each is proved against a function or a
predicate on values. Runs (`Encoder.Run`, `Storage.Run`, `Faces.Run`, `Interests.Run`, `LpPackets.Run`,
`Datasets.Run`) carry the invariants over every sequence of calls and events. Numbers are unbounded unless a width is
written out (`% TWO_64`, `ToInt32`, `ToInt64`); SHA-256, the random nonce, the clock and the tests of Interest filters
are parameters.

Where the code does less than its wording or its users expect, the model keeps the code and states the exact condition:

- Comparing encoded components with memcmp agrees with canonical order against all shortest encodings for exactly the
  shortest ones (`ShortcutExact`), and for any two encodings exactly when the greater component has the wider form
  wherever the widths differ (`ShortcutPairExact`). The reader accepts longer forms; `LongFormMisordered` is one.
- Comparing components field by field truncates the difference of the sizes to 32 bits; `FieldsAgree` says exactly
  when that is right, and `HugeValueMisordered` when not. A left value that is longer by a multiple of 2^32 octets is
  compared beyond the end of the right one, which is undefined.
- `Name::compare` on ranges is documented as comparing the two `getSubName` results. Both turn starts from 2^63 on into
  offsets from the end, but `getSubName` lets start plus count wrap around and `compare` lets `size() - pos` wrap around,
  so that it may read out of range (undefined, None in the model), count components that are not there, or go on with
  the first component after the last. A range agrees with the documentation against every name, on either side, if and
  only if it is sound (`RangeSoundExact`), and sound ranges agree with one another (`SoundRangesAgree`).
  `PastEndMiscounted` and `WrappedCountMisled` are failing calls.
- "No name lies between a name and its successor" holds for the empty name only (`NothingBetweenExact`); the interval
  from a non-empty name to its successor holds exactly the names under it (`SuccessorBoundsPrefix`). Where the successor
  jumps over a digest of 0xFF octets to the next type, invalid components lie between (`JumpSkipsInvalid`).
- A storage with a limit below 16 can be left without a free entry, because shrinking clamps the capacity to 16
  (`SmallLimitRunsDry`); from 16 on that cannot happen (`Storage.Run`).
- Erasing by prefix erases nothing when the prefix is itself the full name of a stored packet (`EraseExact`);
  `ErasePrefixMissed` leads to such a store.
- An exact full-name hit in `find(Interest)` skips freshness and is not recorded as a use (`FindByInterest`).
- The assertion in `recordNack` fails exactly for an Interest that went to no destination (`NackAssertionExact`);
  `UnforwardedNack` leads to one.
- `Block::parse` drops what it has parsed only when a value is cut short (`Parse`).
- `Interest::wireDecode` stores the wire before it looks at it, so a rejected packet stays behind as the cached wire
  (`WireDecode`); encoding an Interest without a name fails once and then returns that packet (`EncodeTwice`).
- A lone LpPacket Fragment survives encoding and decoding exactly when it holds one Interest or Data
  (`LoneFragmentExact`); `SecondPacketLost` sends one that does not. For an empty Fragment `lp::Packet::wireEncode`
  takes the front of an empty list, which is undefined; the model gives the error `EmptyFragment` in its place.
- Encoding an LpPacket that has been edited writes every field anew in its shortest form, so types and values survive
  always, and the fields' octets exactly when all were shortest (`PacketRoundTrip`).

## Model

| member | source | states |
|---|---|---|
| Tlv.ReadNumberSlow | ndn-cxx/encoding/tlv.hpp:306-320 | the octet loop succeeds exactly when enough octets are left, gives their big-endian number, and on failure has consumed everything |
| Tlv.ReadNumberFast | ndn-cxx/encoding/tlv.hpp:324-367 | the loads from contiguous memory accept the same inputs with the same numbers, and on failure have consumed nothing |
| Tlv.ReadVarNumberAt | ndn-cxx/encoding/tlv.hpp:395-412 | whichever way the octets are read, the result is that of the number's definition |
| Tlv.VarNumberRoundTrip | ndn-cxx/encoding/tlv.hpp:395-463 | reading what was written gives the number back, whatever follows |
| Tlv.VarNumberForms | ndn-cxx/encoding/tlv.hpp:395-412 | a readable number is never shorter than the writer's form, equals it exactly when as short, and otherwise has a greater first octet |
| Tlv.NonNegativeIntegerRoundTrip | ndn-cxx/encoding/tlv.hpp:492-515 | reading a written non-negative integer gives it back |
| Tlv.NonNegativeIntegerIsShortest | ndn-cxx/encoding/tlv.hpp:509-515 | an integer is written in the least of 1, 2, 4 and 8 octets that holds it |
| Tlv.ConstructorsAgree | ndn-cxx/encoding/block.cpp:51-73 | the throwing and the non-throwing constructor accept the same octets as the same element |
| Tlv.BlockErrors | ndn-cxx/encoding/block.cpp:51-73 | which of missing, cut-short and illegal types and lengths and cut-short values gives which error, in both directions |
| Tlv.MakeElementWellFormed | ndn-cxx/encoding/block-helpers.cpp:181-209 | an element made from a legal type and value reads back as itself |
| Tlv.ShortestForm | ndn-cxx/encoding/block.cpp:51-73 | no encoding of a type and value is shorter than the writer's, and only the writer's is as short |
| Tlv.ElementLocal | ndn-cxx/encoding/block.cpp:51-73 | an element depends on its own octets only, not on what follows |
| Tlv.ParseInvertsConcatenation | ndn-cxx/encoding/block.cpp:340-365 | parsing concatenated elements gives them back one by one, in order |
| Tlv.ParseInvertsEncoding | ndn-cxx/encoding/block.cpp:340-365 | for every list of legal types and values, parsing the encoding gives the same list |
| Tlv.ParsePartitions | ndn-cxx/encoding/block.cpp:340-365 | a parse that succeeds cuts its input into consecutive elements without a gap; one that fails has cut a prefix |
| Encoding.Encoder.constructor | ndn-cxx/encoding/encoder.cpp:31-35 | an empty window, placed by the reserve asked for at the back |
| Encoding.Encoder.Reserve | ndn-cxx/encoding/encoder.cpp:64-95 | a larger buffer with the same contents, grown at the chosen end |
| Encoding.Encoder.ReserveFront | ndn-cxx/encoding/encoder.cpp:51-56 | room in front, with a new buffer exactly when there was none |
| Encoding.Encoder.ReserveBack | ndn-cxx/encoding/encoder.cpp:44-49 | room at the back, with a new buffer exactly when there was none |
| Encoding.Encoder.PrependRange | ndn-cxx/encoding/encoder.hpp:345-358 | the contents gain the octets in front; with room the buffer stays and nothing else in it changes |
| Encoding.Encoder.AppendRange | ndn-cxx/encoding/encoder.hpp:360-373 | the contents gain the octets at the back |
| Encoding.Encoder.PrependVarNumber | ndn-cxx/encoding/encoder.cpp:109-134 | the contents gain the number's encoding in front |
| Encoding.Encoder.AppendVarNumber | ndn-cxx/encoding/encoder.cpp:136-161 | the contents gain the number's encoding at the back |
| Encoding.Encoder.PrependNonNegativeInteger | ndn-cxx/encoding/encoder.cpp:163-181 | the contents gain the integer's encoding in front |
| Encoding.Encoder.AppendNonNegativeInteger | ndn-cxx/encoding/encoder.cpp:183-201 | the contents gain the integer's encoding at the back |
| Encoding.Encoder.Run | ndn-cxx/encoding/encoder.cpp:31-201 | for every interleaving of writes from any reservation, the window holds the abstract sequence |
| Blocks.Estimate | ndn-cxx/encoding/block.cpp:380-401 | the estimator's loop over sub-elements computes the size by which the buffer is allocated |
| Blocks.EstimateCovers | ndn-cxx/encoding/block.cpp:380-401 | the estimate is at least what the encoder writes, and equal to it if and only if all encodings are shortest |
| Blocks.EncodeInto | ndn-cxx/encoding/block.cpp:403-426 | with the estimated room, encoding never moves the buffer, writes the tree's octets, and leaves every position stored on the way pointing at its own sub-block |
| Blocks.EncodeElements | ndn-cxx/encoding/block.cpp:403-426 | the same for the sub-elements, written from the last to the first, side by side |
| Blocks.LocatedStable | ndn-cxx/encoding/block.cpp:403-426 | positions stored earlier stay right while more is written in front |
| Blocks.Encode | ndn-cxx/encoding/block.cpp:367-378 | the result has a wire; a block that had one is left alone, and any other one ends with its whole tree located in one new buffer of the estimated size, a mere value as its type, length and octets |
| Blocks.FromValue | ndn-cxx/encoding/block.cpp:144-153 | a block made from a type and a value has no wire, and its estimate is exact |
| Blocks.FromSpan | ndn-cxx/encoding/block.cpp:51-73 | the block made from octets refers to exactly the element they start with, or fails with its error |
| Blocks.Parse | ndn-cxx/encoding/block.cpp:340-365 | sub-blocks tile the value in place and carry the parsed elements; already parsed or empty blocks are left alone; after an error they are cleared only if a value was cut short |
| Blocks.Reencode | ndn-cxx/encoding/block.cpp:270-275 | parsing, dropping the wire and encoding again gives the same types and values in their shortest form |
| Tlv.ShortenShortest | ndn-cxx/encoding/block.cpp:403-426 | writing elements anew in shortest form never grows them, and leaves the octets unchanged exactly when all were shortest |
| NameComponents.LessIsNumeric | ndn-cxx/name-component.cpp:479-502 | canonical order compares type, length, then the value as a number |
| NameComponents.LessIsTotalOrder | ndn-cxx/name-component.cpp:479-502 | canonical order of components is a strict total order |
| NameComponents.WireOrder | ndn-cxx/name-component.cpp:482-488 | shortest encodings are in octet order exactly as their components are in canonical order |
| NameComponents.ShortcutAgrees | ndn-cxx/name-component.cpp:482-488 | for shortest encodings, memcmp over the shorter size has the sign of canonical order and is zero for equal components only |
| NameComponents.ShortcutExact | ndn-cxx/name-component.cpp:482-488 | an encoding compares rightly with all shortest encodings if and only if it is shortest |
| NameComponents.ShortcutPairExact | ndn-cxx/name-component.cpp:482-488 | for any two encodings, memcmp agrees with canonical order if and only if, where the widths of types or lengths differ, the greater component has the wider one |
| NameComponents.LongFormMisordered | ndn-cxx/name-component.cpp:482-488 | a component whose type takes three octets compares above a greater one |
| NameComponents.FieldsAgree | ndn-cxx/name-component.cpp:490-501 | without encodings, the comparison is right if and only if the types differ, the size difference keeps its sign as an int, or it vanishes and the first octets decide rightly |
| NameComponents.HugeValueMisordered | ndn-cxx/name-component.cpp:490-501 | a value of 2^31 octets compares below the empty value |
| NameComponents.CompareExact | ndn-cxx/name-component.cpp:479-502 | the exact condition for both paths, over all components and encodings whose comparison is defined |
| NameComponents.IncrementIsNumeric | ndn-cxx/impl/name-component-types.hpp:115-138 | the carry loop adds one to the number, and overflows to zero exactly at the greatest one |
| NameComponents.SuccessorIsNext | ndn-cxx/impl/name-component-types.hpp:209-226 | the successor is greater and next in canonical order, over carries and longer values among all components, and over the jumps between digest types among the valid ones; it is valid for a valid component |
| NameComponents.JumpSkipsInvalid | ndn-cxx/impl/name-component-types.hpp:209-219 | a jump skips a component, which is invalid when the digest is valid |
| NameComponents.LeastComponent | ndn-cxx/name.cpp:287-296 | no valid component is below the all-zero implicit digest |
| NameComponents.ValidMeans | ndn-cxx/name-component.cpp:119-126 | types from 1 to 65535, and 32 octets for the digest types 1 and 2 |
| NameComponents.WriteIncrement | ndn-cxx/impl/name-component-types.hpp:121-127 | the loop that writes octets backwards into an encoder leaves the incremented value there |
| NameComponents.SuccessorImpl | ndn-cxx/impl/name-component-types.hpp:115-138 | overflow flag and encoded successor, with an octet appended on overflow |
| NameComponents.GetSuccessor | ndn-cxx/name-component.cpp:504-517 | dispatch by type gives the successor |
| Names.CanonicalOrderIsTotal | ndn-cxx/name.cpp:328-343 | canonical order of names is a strict total order |
| Names.OrderIsAntisymmetric | ndn-cxx/name.cpp:314-343 | swapping the names negates the result, and zero means equal |
| Names.CompareRanges | ndn-cxx/name.cpp:328-343 | the loop computes the result with the conversions of positions and the wrapping counts, for all starts and counts |
| Names.SubNameMeans | ndn-cxx/name.cpp:185-201 | sub-names from inside, from an offset to the end, and from beyond the front |
| Names.SoundRangesAgree | ndn-cxx/name.hpp:608-615 | between sound ranges the result is that of comparing the two sub-names |
| Names.RangeSoundExact | ndn-cxx/name.cpp:185-201 | a range compares with every whole name, on either side, as documented if and only if it is sound |
| Names.PastEndMiscounted | ndn-cxx/name.cpp:328-343 | a call with a start past the end that is not as documented |
| Names.WrappedCountMisled | ndn-cxx/name.cpp:185-201 | a call with a start inside and a count that wraps around that is not as documented |
| Names.LastComponentCompared | ndn-cxx/name.hpp:163-170 | the start -1 as a size_t is the last component and is compared as documented |
| Names.IsPrefixOf | ndn-cxx/name.cpp:298-312 | true exactly for prefixes |
| Names.Equals | ndn-cxx/name.cpp:314-326 | true exactly for equal names, consistently with comparison |
| Names.PrefixIsConvex | ndn-cxx/name.cpp:287-343 | whatever lies between a name and a name under it is under it too |
| Names.SuccessorBoundsPrefix | ndn-cxx/name.cpp:287-296 | a name is from X up to the successor of X, exclusively, if and only if X is a prefix of it; components have to be valid only where the successor jumps to another type |
| Names.EmptySuccessorIsLeast | ndn-cxx/name.cpp:287-296 | the successor of the empty name is the least non-empty name |
| Names.SuccessorIsAfter | ndn-cxx/name.cpp:287-296 | the successor of a valid name is valid and after it |
| Names.NothingBetweenExact | ndn-cxx/name.hpp:539-541 | nothing lies between a name and its successor if and only if the name is empty |
| Packets.MatchMeaning | ndn-cxx/interest.cpp:329-359 | an Interest matches Data by its full name, its name, or as an allowed prefix, and MustBeFresh asks for a positive freshness period |
| Packets.MatchIsUnderName | ndn-cxx/interest.cpp:329-359 | what matches lies under the Interest's name in full-name order |
| Packets.InterestsMatchExactly | ndn-cxx/interest.cpp:361-367 | Interests match when name and both selectors are equal, and only then |
| Eviction.ReplayIsOrdered | ndn-cxx/ims/in-memory-storage-lfu.cpp:36-72 | after every history the index holds exactly the residents, once each, in eviction order, and LFU counts the recorded uses |
| Eviction.HeadIsVictim | ndn-cxx/ims/in-memory-storage-lru.cpp:37-71 | the head of the index is the oldest insertion (FIFO), the least recent use (LRU) or a least used resident (LFU), and there is a head exactly when there is a resident |
| Eviction.AccessStep | ndn-cxx/ims/in-memory-storage-lru.cpp:58-71 | recording an access keeps all of that for each policy |
| Eviction.InsertStep | ndn-cxx/ims/in-memory-storage-fifo.cpp:36-41 | so does an insertion |
| Eviction.DropStep | ndn-cxx/ims/in-memory-storage-fifo.cpp:56-62 | so does the removal of an entry |
| Eviction.PersistentIndexIsEmpty | ndn-cxx/ims/in-memory-storage-persistent.cpp:36-40 | the persistent policy never has a victim |
| Storage.LowerBound | ndn-cxx/ims/in-memory-storage.cpp:197-214 | the search splits the ordered cache at the name |
| Storage.Find | ndn-cxx/ims/in-memory-storage.cpp:216-225 | a full name is found exactly when it is stored |
| Storage.FindNextFresh | ndn-cxx/ims/in-memory-storage.cpp:250-259 | the first fresh entry from a position on |
| Storage.NothingBeyond | ndn-cxx/ims/in-memory-storage.cpp:261-308 | once past the Interest's name and not under it, no later entry matches, so the scan may stop |
| Storage.SelectChild | ndn-cxx/ims/in-memory-storage.cpp:261-308 | the rightward scan, with its skips to fresh entries, ends at the least eligible entry or at none when there is none |
| Storage.Search | ndn-cxx/ims/in-memory-storage.cpp:227-243 | lower bound, step back and scan together agree with a scan of the whole cache |
| Storage.InMemoryStorage.constructor | ndn-cxx/ims/in-memory-storage.cpp:99-112 | an empty store whose pool has the initial capacity, or the limit if that is less |
| Storage.InMemoryStorage.SetCapacity | ndn-cxx/ims/in-memory-storage.cpp:130-158 | capacity of at least 16, evictions only down to it, packets plus free entries equal to it; fails exactly when the policy cannot evict |
| Storage.InMemoryStorage.EvictItem | ndn-cxx/ims/in-memory-storage-lru.cpp:45-56 | drops exactly one entry, which is the policy's victim, and keeps the index in step |
| Storage.InMemoryStorage.MakeRoom | ndn-cxx/ims/in-memory-storage.cpp:168-179 | doubles up to the limit or evicts, only when full; the new capacity, and exactly when no free entry is left |
| Storage.InMemoryStorage.Insert | ndn-cxx/ims/in-memory-storage.cpp:160-195 | a duplicate changes nothing; otherwise the packet is added, fresh, and at most the policy's victim leaves; runs out of entries under an exact condition, and never with a limit of at least 16 and a policy that evicts |
| Storage.InMemoryStorage.FindByName | ndn-cxx/ims/in-memory-storage.cpp:197-214 | the least entry under the name, or none exactly when there is none |
| Storage.InMemoryStorage.FindByInterest | ndn-cxx/ims/in-memory-storage.cpp:216-248 | a stored full name first, whatever its freshness; otherwise the least matching and, if asked for, fresh entry, or none exactly when there is none |
| Storage.InMemoryStorage.MarkStale | ndn-cxx/ims/in-memory-storage-entry.cpp:31-49 | only the one entry's freshness and timer change |
| Storage.InMemoryStorage.FreeEntry | ndn-cxx/ims/in-memory-storage.cpp:310-318 | the entry leaves the cache and returns to the pool |
| Storage.InMemoryStorage.EraseImpl | ndn-cxx/ims/in-memory-storage.cpp:345-353 | exactly the entry with the full name leaves, if there is one |
| Storage.InMemoryStorage.EraseRange | ndn-cxx/ims/in-memory-storage.cpp:323-330 | erases exactly the packets under the prefix, or nothing if the prefix is a stored full name |
| Storage.InMemoryStorage.Erase | ndn-cxx/ims/in-memory-storage.cpp:320-343 | the halving that follows never evicts and never goes below 16 |
| Storage.EraseExact | ndn-cxx/ims/in-memory-storage.cpp:320-343 | erasing by prefix removes all packets under the prefix if and only if the prefix is not a stored full name, or nothing is under it |
| Storage.ErasePrefixMissed | ndn-cxx/ims/in-memory-storage.cpp:320-343 | a run after which a packet under the erased prefix is still stored |
| Storage.ErasedRange | ndn-cxx/ims/in-memory-storage.cpp:323-330 | the packets under a prefix are one contiguous range from its lower bound on |
| Storage.Run | ndn-cxx/ims/in-memory-storage.cpp:99-353 | every run keeps packets plus free entries equal to the capacity and the index of an evicting policy equal to the stored entries, once each; with a limit of at least 16 no insertion lacks an entry and the capacity stays between 16 and the limit |
| Storage.SmallLimitRunsDry | ndn-cxx/ims/in-memory-storage.cpp:130-158 | for every limit below 16 there is a run after which an insertion finds no free entry |
| Pending.SeverityIsStrictWeakOrder | ndn-cxx/lp/nack-header.cpp:44-55 | severity is a strict weak order: Congestion, Duplicate, NoRoute, then NONE, and by the number among other reasons |
| Pending.EarliestInCodes | ndn-cxx/lp/nack-header.cpp:44-55 | the earliest least severe Nack has the smallest of the codes 50, 100 and 150 that occurs, and is the first with it, or the first of all where none occurs |
| Pending.LeastIsEarliest | ndn-cxx/impl/pending-interest.hpp:117-128 | keeping the less severe Nack keeps the earliest of the least severe |
| Pending.LastNackResolves | ndn-cxx/impl/pending-interest.hpp:106-128 | with k destinations the first k-1 Nacks resolve nothing, and the k-th gives the earliest least severe of all k, in severity and in codes |
| Pending.LifeInPlainWords | ndn-cxx/impl/record-container.hpp:94-160 | in an accepted history no second callback fires, nothing happens to a record after its removal, and it is put at most once |
| Pending.PutComesFirst | ndn-cxx/impl/record-container.hpp:94-107 | nothing happens to a record before it is put |
| Pending.NeverSilent | ndn-cxx/impl/pending-interest.hpp:130-173 | an application's record is removed only after a callback, or withdrawn |
| Faces.Face.RemoveIf | ndn-cxx/impl/record-container.hpp:144-160 | the erase-while-iterating loop visits each record once, in order, keeps what the visitor keeps, and every record's history stays accepted |
| Faces.Face.SatisfyPendingInterests | ndn-cxx/impl/face-impl.hpp:126-151 | Data resolves exactly the matching records, calls back the application's, and goes to the forwarder exactly when one of its Interests matches or none does |
| Faces.Face.NackPendingInterests | ndn-cxx/impl/face-impl.hpp:153-183 | records of other Interests stay; one with more than one destination left has one less and keeps the Nack with the smallest code; any other leaves for good, and the application is called back with the Nack of the smallest code of all, or such a Nack of a forwarder's record is returned, if there is one |
| Faces.NackEffect | ndn-cxx/impl/face-impl.hpp:155-176 | what the visitor does with one record, without its body: counter, Nack kept, callback, removal, Nack to return |
| Faces.NackLeads | ndn-cxx/impl/face-impl.hpp:153-183 | the history of a visited record stays accepted, so that one of the application's is called back before it leaves |
| Faces.NackAssertionExact | ndn-cxx/impl/pending-interest.hpp:117-128 | the counter stays non-negative if and only if the Interest went to some destination |
| Faces.UnforwardedNack | ndn-cxx/impl/face-impl.hpp:204-210 | a forwarder's Interest at a face without filters leaves a record for which the first Nack makes the counter negative |
| Faces.Face.Clear | ndn-cxx/impl/record-container.hpp:133-138 | all records are withdrawn and removed, and nothing else happens |
| Faces.Face.Erase | ndn-cxx/impl/record-container.hpp:124-131 | the record is withdrawn and removed, or nothing happens if it has left already |
| Faces.Face.Timeout | ndn-cxx/impl/pending-interest.hpp:165-173 | the timeout callback exactly for an application's Interest, then removal of this record only |
| Faces.Face.Put | ndn-cxx/impl/record-container.hpp:94-107 | the record is inserted in id order and the others stay |
| Faces.Face.DispatchInterest | ndn-cxx/impl/face-impl.hpp:347-358 | one recorded forwarding for each filter that takes the Interest |
| Faces.CountsTakers | ndn-cxx/impl/interest-filter-record.hpp:58-63 | a forwarder's Interest is counted for every filter with a pattern for it, an application's for those with loopback only |
| Faces.Face.ExpressInterest | ndn-cxx/impl/face-impl.hpp:86-107 | the record is put once, sent, and waits for the forwarder and for each loopback filter that takes it |
| Faces.Face.ReceiveInterest | ndn-cxx/impl/face-impl.hpp:204-210 | a forwarder's record with a new id waits for each filter that takes it |
| Faces.Face.ReceiveData | ndn-cxx/face.cpp:336-341 | Data from the forwarder resolves records and is not sent back |
| Faces.Face.ReceiveNack | ndn-cxx/face.cpp:322-328 | a Nack from the forwarder has the same effects and is not sent back |
| Faces.Face.PutDataNow | ndn-cxx/impl/face-impl.hpp:212-229 | the application's Data resolves records, then goes out exactly when a forwarder's Interest or none at all matches |
| Faces.Face.PutNackNow | ndn-cxx/impl/face-impl.hpp:231-249 | the application's Nack is recorded; the Nack of a resolved forwarder's Interest goes out |
| Faces.Face.CallExpress | ndn-cxx/face.cpp:163-179 | the id is new and taken at once; the record is put later |
| Faces.Face.RunTask | ndn-cxx/impl/face-impl.hpp:109-124 | posted work is done first come first served; after a cancellation its record is gone for good |
| Faces.UnsetMeans | ndn-cxx/impl/face-impl.hpp:360-368 | unsetting a filter takes away that one and no other |
| Faces.Run | ndn-cxx/impl/face-impl.hpp:86-249 | over every interleaving of calls, posted work, arrivals and timers each record is in the table exactly while it waits, leaves once and for good, and its history is accepted; an application's record leaves only called back or withdrawn, and only by a Cancel of its own, a removal of all or a shutdown |
| InterestCodec.NameRoundTrip | ndn-cxx/name.cpp:115-127 | decoding an encoded name gives it back |
| InterestCodec.HintRoundTrip | ndn-cxx/interest.cpp:220-258 | decoding an encoded forwarding hint gives its names back in order |
| InterestCodec.DelegationName | ndn-cxx/interest.cpp:240-248 | a delegation stands for its first Name, whatever is around it |
| InterestCodec.FindParametersDigest | ndn-cxx/interest.cpp:735-747 | the first digest component's index, or which of none and several it is |
| InterestCodec.InterestRoundTrip | ndn-cxx/interest.cpp:63-317 | decoding an encoded Interest restores every field; it is rejected only for an empty name or a wrong digest |
| InterestCodec.AfterDecodeKeeps | ndn-cxx/interest.cpp:154-317 | accepted or rejected, also in the middle of a forwarding hint, a packet leaves at most one digest component, a proper parameter list and legal names |
| InterestCodec.DecodeEstablishes | ndn-cxx/interest.cpp:154-317 | an accepted packet leaves exactly its decoded fields, a non-empty name and, when checked, the right digest |
| InterestCodec.DecodeAcceptsExactly | ndn-cxx/interest.cpp:154-317 | in type numbers, exactly which packets are Interests: the five critical elements once and in order with proper values, HopLimit and ApplicationParameters, and other elements of even types from 32 on |
| InterestCodec.DecodedFieldsRead | ndn-cxx/interest.cpp:154-317 | each field of an accepted packet comes from its element and has its default without one; the parameters are the first ApplicationParameters and all unknown elements behind it |
| InterestCodec.CriticalIsRejected | ndn-cxx/interest.cpp:299-303 | an unknown element with a type of at most 31 or an odd one is never accepted |
| InterestCodec.CriticalInHintIsRejected | ndn-cxx/interest.cpp:249-253 | nor is one in a ForwardingHint |
| InterestWriter.PrependBinaryBlock | ndn-cxx/encoding/block-helpers.cpp:181-188 | an element of the type and value is written in front |
| InterestWriter.PrependBlocks | ndn-cxx/interest.cpp:91-94 | parameter elements are written in front, in order, as they are encoded |
| InterestWriter.PrependName | ndn-cxx/name.cpp:115-127 | a Name element with all components is written in front |
| InterestWriter.PrependHint | ndn-cxx/interest.cpp:112-116 | a ForwardingHint element with all names is written in front |
| InterestWriter.WriteInterest | ndn-cxx/interest.cpp:63-134 | writing from the last field to the first produces the Interest's elements in specification order |
| Interests.DigestSet | ndn-cxx/interest.cpp:715-733 | afterwards the name has exactly one digest component, with the digest |
| Interests.DigestUnset | ndn-cxx/interest.cpp:526-536 | removing the digest component leaves none and undoes setting it |
| Interests.DigestMeans | ndn-cxx/interest.cpp:677-696 | validity of the digest, in terms of the components of type 2 with 32 octets |
| Interests.SetInfoOrder | ndn-cxx/interest.cpp:558-590 | InterestSignatureInfo set is the first of its kind, the list stays proper, and it stays or comes in front of InterestSignatureValue |
| Interests.SetValueOrder | ndn-cxx/interest.cpp:602-640 | the same for InterestSignatureValue, without moving the InterestSignatureInfo |
| Interests.EncodeSucceedsExactly | ndn-cxx/interest.cpp:76-87 | with the digest kept up, encoding succeeds if and only if the name is not empty and holds no digest without parameters |
| Interests.FindFirstParameter | ndn-cxx/interest.cpp:749-755 | the first parameter of the type, or the end |
| Interests.Interest.AddOrReplaceDigest | ndn-cxx/interest.cpp:715-733 | the one digest component covers the parameters |
| Interests.Interest.SetName | ndn-cxx/interest.cpp:371-387 | refuses several digest components, keeps digest and cached wire right |
| Interests.Interest.SetCanBePrefix | ndn-cxx/interest.hpp:215-221 | changes the flag only and drops the wire |
| Interests.Interest.SetMustBeFresh | ndn-cxx/interest.hpp:234-240 | changes the flag only and drops the wire |
| Interests.Interest.SetForwardingHint | ndn-cxx/interest.cpp:389-395 | changes the hint only and drops the wire |
| Interests.Interest.SetNonce | ndn-cxx/interest.cpp:416-424 | drops the wire exactly when the nonce changes |
| Interests.Interest.GetNonce | ndn-cxx/interest.cpp:406-414 | an unset nonce is generated once |
| Interests.Interest.SetInterestLifetime | ndn-cxx/interest.cpp:439-451 | refuses a negative lifetime, drops the wire exactly when it changes |
| Interests.Interest.SetHopLimit | ndn-cxx/interest.cpp:453-461 | drops the wire exactly when the limit changes |
| Interests.Interest.SetApplicationParameters | ndn-cxx/interest.cpp:463-490 | replaces or starts the parameter list, wrapping other elements, and renews the digest |
| Interests.Interest.UnsetApplicationParameters | ndn-cxx/interest.cpp:526-536 | no parameters and no digest component are left |
| Interests.Interest.SetSignatureInfo | ndn-cxx/interest.cpp:558-590 | the new list and digest, or nothing at all for an equal element |
| Interests.Interest.SetSignatureValue | ndn-cxx/interest.cpp:602-640 | refused without InterestSignatureInfo; otherwise the new list and digest, or nothing at all for an equal element |
| Interests.Interest.IsParametersDigestValid | ndn-cxx/interest.cpp:677-696 | true exactly when parameters and digest component agree |
| Interests.Interest.DecodeForwardingHint | ndn-cxx/interest.cpp:220-258 | the hint's names or its first error, and the names in front of a bad one stay in the object |
| Interests.Interest.DecodeElements | ndn-cxx/interest.cpp:196-312 | the loop stops with the first rejected element's error and exactly the fields read until then |
| Interests.Interest.WireDecode | ndn-cxx/interest.cpp:154-317 | fields and error as decoding defines them; the cached wire is right if and only if an Interest packet was accepted |
| Interests.Interest.WireEncode | ndn-cxx/interest.cpp:138-152 | the cached wire, or a new one that decodes to the present fields; which error, and when the object is left with a wire it does not match |
| Interests.Run | ndn-cxx/interest.cpp:154-733 | over every run the digest covers the parameters through all operations but a decoding, whether or not digests are checked and whatever is refused, and again after a checked decoding or a change of the parameters; packets are rejected and returned exactly as the fields say; while none is rejected, every packet returned decodes to the fields of that moment |
| Interests.EncodeTwice | ndn-cxx/interest.cpp:138-152 | an Interest without a name is refused once, and then returned as a packet that cannot be decoded |
| LpPackets.OrderMeans | ndn-cxx/lp/packet.cpp:99-104 | in ordered fields the Fragment is last, only Acks repeat, and header types ascend |
| LpPackets.CheckMeans | ndn-cxx/lp/packet.cpp:143-168 | comparing neighbours accepts exactly the lists of known fields that are ordered throughout |
| LpPackets.AcceptedExactly | ndn-cxx/lp/packet.cpp:143-168 | the same in type numbers: allowed types, ascending headers, repeated Acks, a last Fragment |
| LpPackets.DecodeMeans | ndn-cxx/lp/packet.cpp:132-171 | which packets are accepted and what they hold, by their type numbers |
| LpPackets.PacketRoundTrip | ndn-cxx/lp/packet.cpp:118-171 | decoding an encoded packet gives the same types and values, each field in its shortest form, and the same octets if and only if every field was shortest |
| LpPackets.EncodesAsBlock | ndn-cxx/lp/packet.cpp:128-129 | the octets are those that block encoding writes for the tree of the fields |
| LpPackets.LoneFragmentExact | ndn-cxx/lp/packet.cpp:118-141 | a lone Fragment survives if and only if it holds exactly one Interest or Data |
| LpPackets.SecondPacketLost | ndn-cxx/lp/packet.cpp:118-130 | a Fragment with two Interests is sent as the first one only |
| LpPackets.OrderIsCanonical | ndn-cxx/lp/packet.hpp:146-165 | the values of each field determine the packet, in whatever order fields were added |
| LpPackets.InsertKeepsOrder | ndn-cxx/lp/packet.hpp:146-165 | inserting at the upper bound keeps the order |
| LpPackets.UpperBound | ndn-cxx/lp/packet.hpp:159-161 | the binary search splits the fields at the new one's place |
| LpPackets.Packet.Count | ndn-cxx/lp/packet.hpp:82-87 | the number of occurrences |
| LpPackets.Packet.Get | ndn-cxx/lp/packet.hpp:93-109 | the occurrence asked for, or none if there are fewer |
| LpPackets.Packet.Add | ndn-cxx/lp/packet.hpp:146-165 | one more value of the field, behind the others, and no change to other fields; refused exactly for a present field that cannot repeat |
| LpPackets.Packet.Set | ndn-cxx/lp/packet.hpp:134-140 | the field is there exactly once, with the value |
| LpPackets.Packet.Remove | ndn-cxx/lp/packet.hpp:171-187 | exactly the occurrence asked for leaves, or nothing if there is none |
| LpPackets.Packet.Clear | ndn-cxx/lp/packet.hpp:192-198 | all occurrences of the field leave, and no other field |
| LpPackets.Packet.WireDecode | ndn-cxx/lp/packet.cpp:132-171 | the fields of an accepted packet, a bare Interest or Data as the only Fragment; a rejected packet changes nothing |
| LpPackets.Packet.WireEncode | ndn-cxx/lp/packet.cpp:118-130 | the cached wire, or a new one of the shortened fields, which are the packet's fields from then on; it decodes to them, except for the lone Fragment |
| LpPackets.Run | ndn-cxx/lp/packet.hpp:134-198 | every run keeps the order, every encoding sends unless it cannot, and what is sent decodes to the types and values of the fields at that moment, for a lone Fragment if and only if it holds one Interest or Data |
| Datasets.SegmentNamesDiffer | ndn-cxx/name-component.cpp:392-398 | different segment numbers give different names |
| Datasets.SegmentNameMeans | ndn-cxx/name-component.cpp:392-398 | a segment's name is the prefix and a component of type 50 that reads back as its number |
| Datasets.ConventionsMean | ndn-cxx/name-component.cpp:222-248 | which components are segment numbers and versions, and that none is both |
| Datasets.FetchedIsAppended | ndn-cxx/mgmt/status-dataset-context.cpp:62-100 | whoever fetches a complete dataset by name until the final segment gets exactly what was appended |
| Datasets.StatusDatasetContext.SetPrefix | ndn-cxx/mgmt/status-dataset-context.cpp:39-60 | the checks and their errors; the prefix as given, or with a version appended that reads back as the time |
| Datasets.StatusDatasetContext.Append | ndn-cxx/mgmt/status-dataset-context.cpp:62-87 | full segments numbered in order, payloads plus buffer equal to what was appended; ends even from a full buffer; refused once finalized |
| Datasets.StatusDatasetContext.End | ndn-cxx/mgmt/status-dataset-context.cpp:89-100 | the dataset is complete: only the last segment is final or short, and it is empty only for an empty dataset |
| Datasets.StatusDatasetContext.Reject | ndn-cxx/mgmt/status-dataset-context.cpp:102-111 | one rejection, only before anything was appended |
| Datasets.Open | ndn-cxx/mgmt/status-dataset-context.cpp:29-37 | a context for the Interest's own name, or the error for it |
| Datasets.Publish | ndn-cxx/mgmt/status-dataset-context.cpp:62-100 | any number of appends and an end publish a complete dataset |
| Datasets.Run | ndn-cxx/mgmt/status-dataset-context.cpp:29-111 | over every run of calls the response is one rejection or one complete dataset, decided by the first end or reject that succeeds |

## Left out

- NameComponents.FieldsAgree: does not cover a left value longer by a non-zero multiple of 2^32 octets, because the comparison is undefined there.
- NameComponents.CompareExact: does not cover that case either, for the same reason.
- Names.SoundRangesAgree: covers names of fewer than 2^31 components, each in shortest form and below 2^31 octets, because elsewhere `CompareExact` decides component by component.
- InterestCodec.InterestRoundTrip: covers packets below 2^64 octets, because lengths are 64-bit numbers.
- Datasets.FetchedIsAppended: covers up to 2^64 segments, because segment numbers wrap around there.
- Storage.Run: names are values, so stored names count as encoded in shortest form; the pool's doubling does not overflow size_t in the model.
- Storage entries and pending records are values with an identity inside the object that owns them; aliasing of the C++ objects is not modelled.
- Block positions are indices into a buffer; sharing of one buffer by several owners is modelled by reference, its lifetime is not.
- Transports, sockets, the event loop and the scheduler: posted work is one queue, and a timer is an event that can fire while its record or entry exists.
- SHA-256, signatures, keys and the trust model: the hash is any function with 32-octet results.
- Interest filters with regular expressions: a filter is any predicate on names.
- Empty callbacks, packets above the size limit and link-layer tags on outgoing packets.
- Prefix registration with the forwarder, and the controller behind it.
- URI printing and parsing of names, stream output, logging.
- Naming conventions other than the default ones (typed when writing, either when reading).
- Interest::extractSignedRanges and refreshNonce, and the typed values of LpPacket fields: only their octets are modelled.
- The order in which Interest filters are called back, and what they do.
- DelegationList, KeyLocator, CachePolicy, ControlResponse, certificate fetching, Dispatcher: easier forms of what is here.
