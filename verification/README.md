# Verified model of the Cap'n Proto C runtime

These files model the core of a Cap'n Proto runtime written in C and prove what it keeps: the message arena and
its pointers, the graph validator, the canonicalizer, the packing codec, the stream framing, and the tables of an
RPC vat. The format is that of the Cap'n Proto encoding specification (capnproto.org/encoding.html).
`dafny verify dfyconfig.toml` checks everything.

Code that changes things in place is a method over arrays or fields, proved against a specification function or
predicate; what those specifications promise is proved beside them as lemmas.

| file | models |
|---|---|
| Packing.dfy, PackStream.dfy | the packed format, and capn_deflate and capn_inflate as resumable machines over any buffers |
| PackedIO.dfy | packed_emit_seg and read_fp, which drive the codec over small buffers |
| Framing.dfy, MessageIO.dfy | the segment table; writing a message to memory and reading it back, plain and packed |
| Wire.dfy, Arena.dfy | pointer words; segments and read_ptr with its limits |
| Pointers.dfy | write_ptr in all four placements, new_object, capn_root |
| Access.dfy | capn_getp, capn_get1/set1 and the inline field accessors, as addresses and as writes; what any reads may cost together |
| VisitedSet.dfy, Validate.dfy, Accepted.dfy | the open-addressing visited set, capn_validate on it, and what its acceptance says about every pointer word |
| CanonValue.dfy to Canonicalize.dfy | canonical form as a property of words, both passes of the canonicalizer, and its laws; CanonReads.dfy says what a reader sees |
| Layout.dfy | that element access, validator and canonicalizer find the same slots |
| SegmentTree.dfy | the red-black segment index with parent links, and the search in it |
| Rpc.dfy, JoinRuns.dfy, RpcStream.dfy | exports, joins and three-party handoff over any run, with the origin of every capability sent, and two runs after which a join does not tell the truth; questions and streams |

## Where the code does not do what is said of it

Each of these is proved at its input. The law beside it says when the code does what it should: exactly when, unless
the last column says that the condition is only sufficient.

| what fails | input | where |
|---|---|---|
| A packed writer refuses a message that it should send: the test of capn_deflate on its input comes before the raw branch, so a buffer that ends inside a raw word stops packed_emit_seg. The comment at lib/capn-malloc.c:446 expects 4098 bytes; they are 4100, in a buffer of 4096. | a segment of 512 words without a zero byte | `PackedIO.DenseSegmentSplits`; exact condition in `PackedIO.PackedEmitSeg` and `PackedIO.OnlySplitsFail` |
| A message of 1024 segments is written but its table does not fit the reader's buffer of 1024 entries. | any 1024 segments | `Framing.FullTableOverruns`; exact condition in `Framing.FramingRoundTrip` |
| A message whose segments are all empty cannot be read back from a plain FILE: fread of no bytes counts no item (lib/capn-malloc.c:169). | eight zero bytes, the frame of one empty segment | `Framing.EmptyFromFile`; exact condition in `Framing.FileRoundTrip` |
| A canonical message is refused when it is canonicalized again: an empty struct in the first slot of a struct without data words starts where its parent starts, and the cycle check takes it for the parent. | the two words of a struct that holds a pointer to an empty struct | `Canonicalize.HolderIsRefused`; exact condition `NoClash` in `Canonicalize.CanonicalFormAgain` |
| A bit list of 2^19 bytes or more is made too short, because its byte count passes through a field of 19 bits (lib/capnp_c.h:204); it reaches past its segment and read_ptr refuses it. | 2^22 bits, for which nothing is allocated | `Pointers.LongBitList`, `Pointers.ShortIsOutside`; exact condition `Readable` in `Pointers.AllocatedFits` |
| A far pointer to a position past 4 GiB names another segment: the position and the segment id are put together with an or (lib/capn.c:1161-1167). | the first word past 4 GiB of segment 0, which becomes word 0 of segment 1 | `Pointers.FarIsElsewhere`; exact condition in `Pointers.FarWordReads` |
| capn_validate accepts a message with a pointer that cannot be read, because the visited set compares address and type but not sizes. | two pointers of different sizes to one address | `Validate.ShapesMatter`; `KeysTellChildren` in `Validate.AcceptedPath` is sufficient |
| capn_validate accepts a graph that goes deeper than the nesting limit, because an object that is reached again is not followed again. | a struct that is reached at depth 1 and, through another one, at depth 2 | `Validate.DepthsMatter`; `OneLevel` in `Validate.AcceptedNesting` is sufficient |
| capn_getp and the field accessors do not look at the sign of an index or offset, except in bit lists. | a negative index | exact conditions in `Access.GetPSafe`, `Access.FieldSafe`, `Access.FlagSafe` |
| A join says that two servers are one, when an export that a waiting part recorded is freed and its slot reused. | five events on a fresh connection | `JoinRuns.ReusedExport`; exact condition in `Rpc.JoinTellsIff` |
| A join says that one server is two, when such an export is freed and the server exported again in another slot. | eight events on a fresh connection | `JoinRuns.MovedServer`; exact condition in `Rpc.JoinTellsIff` |
| capn_rpc_stream_finish does not wait, although lib/capn-rpc.h:311 says so: a call without an answer counts as failed. | finishing with a call outstanding | exact condition in `RpcStream.Stream.Close` |

A provision's own reference to its export is never given back: when the capability is accepted, the recipient
gets a new one (lib/capn-rpc.c:1382, 1418). The ledger of `Rpc` books it under `other`, where it stays.

## Model

| member | source | states |
|---|---|---|
| `Packing.UnpackPack` | lib/capn-stream.c:22-132 | decoding the packing of any whole-word input, followed by anything, gives the input and then the decoding of the rest |
| `Packing.UnpackPackEachThen` | lib/capn-malloc.c:347-382 | segments packed one behind the other decode to their concatenation, then to whatever follows |
| `Packing.ExpandTag` | lib/capn-stream.c:44-127 | a word is determined by its tag and its bytes that are not zero |
| `Packing.Greedy` | lib/capn-stream.c:50-110 | which words a token covers, byte by byte: as many zero words as there are up to 256; a word without zero bytes and as many with at most one as there are behind it up to 255; or one word |
| `Packing.TagBit` | lib/capn-stream.c:44-127 | bit i of the tag is set just if byte i is not zero, and that byte is where the bytes before it end |
| `Packing.BoundAttained` | lib/capn-stream.c:22-132 | for every number of words some input packs to exactly that bound |
| `Packing.PackSize` | lib/capn-malloc.c:347-372 | n >= 1 words pack into at most 8n + (n+3)/2 bytes, which is what packing a header inside its own buffer rests on |
| `PackStream.Stream.Deflate` | lib/capn-stream.c:22-132 | refuses just an input that is not whole words; otherwise appends exactly the next part of the one-shot packing of what it holds, whatever was written before, and is done just if all of it fits; in place it never overtakes its input |
| `PackStream.Stream.Inflate` | lib/capn-stream.c:134-236 | appends exactly the next part of what the stream decodes to, whatever input follows later; done just if the room is used up, and otherwise nothing more can be decoded yet |
| `PackedIO.RoundTripUnderEverySchedule` | lib/capn-stream.c:134-236 | however a packing is cut into inputs and whatever rooms are offered, the output is a prefix of the original and the rest is still owed |
| `PackedIO.RoundTripCompletes` | lib/capn-stream.c:134-236 | once all of it is fed, a last call that wants more, or had room for everything, completes the original |
| `PackedIO.PackedEmitSeg` | lib/capn-malloc.c:446-480 | success just if the segment is whole words and no buffer ends inside a raw word; then exactly the one-shot packing was sent, else a prefix of it |
| `PackedIO.OnlySplitsFail` | lib/capn-malloc.c:449-480 | with ten bytes of buffer there is always progress, so an end inside a raw word is the only way to fail |
| `PackedIO.DenseSegmentSplits` | lib/capn-malloc.c:446-448 | 512 dense words pack to 4100 bytes, and a buffer of 4096 splits a raw word |
| `PackedIO.ReadFp` | lib/capn-malloc.c:126-196 | reads exactly the next bytes that memory, a FILE or a descriptor of any granularity can deliver, packed or not; fails just if there are too few, or none are wanted of a plain FILE; writes nothing else |
| `Framing.FramingRoundTrip` | lib/capn-malloc.c:198-267 | reading back a frame, whatever follows it, gives the same segments just if they are within the reader's limits |
| `Framing.PackedFramingRoundTrip` | lib/capn-malloc.c:334-384 | the same for the packed frame, which decodes to the plain one |
| `Framing.FullTableOverruns` | lib/capn-malloc.c:224-245 | 1024 segments announce a table of 4100 bytes for a buffer of 4096 |
| `Framing.FileRoundTrip` | lib/capn-malloc.c:168-169 | from a plain FILE the same holds just if the segments are not all empty, besides |
| `Framing.EmptyFromFile` | lib/capn-malloc.c:168-169 | the frame of one empty segment is a message, and is refused from a plain FILE |
| `Framing.ParseFits` | lib/capn-malloc.c:224-262 | whatever the reader accepts is within its limits |
| `MessageIO.HeaderRender` | lib/capn-malloc.c:312-332 | fails just if the list and the count differ; otherwise the table is that of the segments' lengths |
| `MessageIO.WriteMem` | lib/capn-malloc.c:334-423 | fails just if the list and the count differ, the root does not fit segment 0, or room is short; otherwise the buffer starts with the plain or packed frame, and its size is returned |
| `MessageIO.Size` | lib/capn-malloc.c:661-685 | the size of the plain frame, under the same conditions without the room |
| `MessageIO.InitFp` | lib/capn-malloc.c:198-267 | the message built, or the failure, is what parsing the deliverable bytes says, except that a plain FILE of empty segments is refused; ids count from 0 |
| `MessageIO.InitMem` | lib/capn-malloc.c:275-282 | the same for bytes in memory, plain or packed |
| `MessageIO.Reread` | lib/capn-malloc.c:386-423 | a message that is written and read back has the same segments just if they are within the reader's limits |
| `Wire.DecodeEncode` | lib/capn.c:438-597 | every pointer whose fields fit survives the trip through its word |
| `Wire.EncodeDecode` | lib/capn.c:1069-1159 | and every word is the encoding of what it decodes to |
| `Wire.ListWords` | lib/capn.c:498-538 | how many elements of each size code go to a word |
| `Arena.Capn.ReadPtr` | lib/capn.c:295-597 | the meaning of the slot through near, far and double-far pointers, unless nesting or traversal budget refuse; an accepted object lies inside its segment, it is charged `Cost`, and a refusal only sets the error |
| `Pointers.TagValue` | lib/capn.c:1069-1159 | the stored word is the encoding of kind, offset and sizes, and fails just if the offset does not fit 30 bits |
| `Pointers.ReadDenotes` | lib/capn.c:438-597 | whatever a slot reads as, unless it is an empty struct, is a pointer that can be written again |
| `Pointers.FarWordReads` | lib/capn.c:1161-1167 | a far pointer's word says what it should just if the position has 29 bits; what is above them gets into the segment id |
| `Pointers.OrBit` | lib/capn.c:1161-1167 | the or of two numbers has the bits of both |
| `Pointers.FarIsElsewhere` | lib/capn.c:1161-1167 | the first word past 4 GiB of segment 0 is taken for the start of segment 1 |
| `Pointers.WritePtr` | lib/capn.c:1171-1236 | whenever written, by whichever placement, no other word changes, and the slot reads back as the pointer, far placements as long as positions have 29 bits; refused for foreign objects only; near fails just if out of range, far only if there is no tag and either the appended tag is out of range or no segment has room; failures change nothing |
| `Pointers.OthersKept` | lib/capn.c:1171-1236 | every other object pointer of the session is still good afterwards |
| `Pointers.FindRoom` | lib/capn.c:194-215 | finds the first segment with room or makes one; fails only if no segment has room |
| `Pointers.NewObject` | lib/capn.c:1701-1740 | the object is new, inside its segment, with its tags in front, behind everything allocated before; null only if no segment has room; long bit lists come out short; byte counts have to fit an int |
| `Pointers.AllocatedFits` | lib/capn.c:2276-2283 | what is allocated is what the object takes, just if it is not a bit list of 2^19 bytes or more |
| `Pointers.BitsLost` | lib/capn.c:2276-2283 | every 2^22 bits of a bit list are lost from what is allocated |
| `Pointers.LongBitList` | lib/capn.c:2276-2283 | 2^22 bits get no words at all |
| `Pointers.ShortIsOutside` | lib/capn.c:2276-2283 | a short bit list is not inside its segment |
| `Pointers.Root` | lib/capn.c:1742-1757 | makes room for the root pointer just if segment 0 can hold a word, and changes nothing else |
| `Access.ViewInside` | lib/capn.c:438-597 | the bytes that an accepted pointer views are those charged for it, and inside the segment |
| `Access.CostIsWeight` | lib/capn.c:295-315 | a read is charged the bytes it gives a view of, or a word per element where elements have none |
| `Access.ReadAll` | lib/capn.c:295-597 | over any sequence of reads, everything handed out together stays within the traversal limit, is what the slots mean, and nothing that there is room for is refused because of the limit |
| `Access.Elements` | lib/capn.c:974-1056 | element or pointer number off that capn_getp finds, by the words of the segment: in structs, struct lists, pointer lists (also taken for struct lists), data lists and bit lists, with its size, and nothing beyond the end |
| `Access.GetPSafe` | lib/capn.c:974-1056 | an element or slot that capn_getp derives is inside the object just if the index is not negative (or elements have no bytes) |
| `Access.ListBitInside` | lib/capn.c:1557-1597 | the bit that get1 and set1 use is inside the list, or inside what its entry points to |
| `Access.BitsApart` | lib/capn.c:1557-1597 | different entries have different bits |
| `Access.EntryBit` | lib/capn.c:1557-1597 | which bit of the segment that is: number off of a bit list, the first of the element of a data list, the first of what the entry of a pointer list points to |
| `Access.BitValue` | lib/capn.c:1557-1597 | bit k of a byte is worth 2^k |
| `Access.Set1` | lib/capn.c:1599-1653 | succeeds just if the entry has a bit, and changes that bit only |
| `Access.SetThenGet` | lib/capn.c:1557-1653 | an entry of any list that is set reads as set, and every other entry of any list as before unless it uses the same bit, which entries of one list do only in pointer lists |
| `Access.FieldSafe` | lib/capnp_c.h:537-583 | a field that is let through is in the data section just if its offset is not negative |
| `Access.FlagSafe` | lib/capnp_c.h:523-535 | the same for boolean fields |
| `Access.FlagInField` | lib/capnp_c.h:523-583 | flag 8 * off + i is bit i of the field of bytes at off, counted from the start of the data section |
| `Access.WriteThenRead` | lib/capnp_c.h:537-583 | a field that is written reads back and leaves all bytes beside it alone |
| `VisitedSet.VSet.Find` | lib/capn.c:675-694 | the probe ends at the key's slot or at the empty slot where it belongs |
| `VisitedSet.VSet.Grow` | lib/capn.c:696-728 | twice the room, the same map |
| `VisitedSet.VSet.Enter` | lib/capn.c:730-754 | a key on the path is a cycle, a finished one stays, a new one joins the path; the map is otherwise unchanged |
| `VisitedSet.VSet.Reenter` | lib/capn.c:769-793 | as Enter, but a finished key goes on the path again |
| `VisitedSet.VSet.Leave` | lib/capn.c:756-767 | exactly this key is marked finished |
| `Validate.ChildSlotInside` | lib/capn.c:814-839 | every child slot lies inside its object |
| `Validate.EveryPointer` | lib/capn.c:795-839 | pointer j of element i is a child, for every i and j, and its slot is that word |
| `Validate.OnlyPointers` | lib/capn.c:795-839 | and there are no other children |
| `Layout.SlotsAgree` | lib/capn.c:814-839 | the slot of each child is the one that capn_getp reaches and the column that the canonicalizer reads |
| `Layout.KeysCompare` | lib/capn.c:675-694 | keys are equal just if segment, address, type and being composite are |
| `Validate.WalkGraph` | lib/capn.c:880-961 | the explicit-stack walk ends on every graph and accepts just if the recursive depth-first search does, with a certificate or a trail to the fault |
| `Validate.Run` | lib/capn.c:848-961 | the same for the message; the charges are taken back, and nothing is written but the root's word |
| `Validate.AcceptedPath` | lib/capn.c:848-961 | on an accepted graph every pointer on every path is null or readable, if objects with one key lead to the same things |
| `Accepted.PointerReads` | lib/capn.c:848-961 | under that condition every pointer word of every element of every object reached is zero or reads as something that is not null |
| `Accepted.AcceptedMeans` | lib/capn.c:848-961 | so an accepted message decodes: nothing behind its root is unreadable and no descent goes on for ever |
| `Validate.AcceptedAcyclic` | lib/capn.c:848-961 | and no path comes back to an object it has passed |
| `Validate.AcceptedNesting` | lib/capn.c:848-961 | and nothing lies deeper than the nesting limit, if no object is reached by paths of different lengths |
| `Validate.SlotsTell` | lib/capn.c:730-767 | objects at one address lead to the same things when their pointers are the same words, whatever their sizes |
| `Validate.DepthsMatter` | lib/capn.c:730-767 | without the condition on lengths, a message with a path to depth 3 passes under a limit of 3 |
| `Validate.ShapesMatter` | lib/capn.c:730-767 | without the condition on keys, a message with an unreadable pointer passes |
| `CanonValue.OutputUnique` | lib/capn.c:1974-2134 | the value fixes every word of a canonical message |
| `CanonValue.LinkReads` | lib/capn.c:1974-2134 | a laid-out pointer reads as the object it was laid out for |
| `CanonSource.WalkMeans` | lib/capn.c:1871-1972 | what the traversal finds is the truncation of what the message means |
| `CanonReads.DataBits` | lib/capn.c:2047-2121 | the data taken from a list is the bits of its elements, each where it was, and zeros behind the last one |
| `CanonMeasure.Truncate` | lib/capn.c:1763-1819 | the shape without the columns at its end that are zero in every element |
| `CanonMeasure.LoadChild` | lib/capn.c:1828-1845 | a zero word is null; any other word is read or is a failure |
| `CanonMeasure.Measure` | lib/capn.c:1847-1972 | succeeds just if the traversal gets through and charges and size stay within the limit, and then adds exactly the size of the canonical tree |
| `CanonEmit.Emit` | lib/capn.c:1974-2134 | when the traversal gets through, the charges are within the limit and the tree fits, it succeeds and lays the tree out at the end of the destination, without holes; and when it succeeds, all of that was so; what the tree holds of the source is the matter of DataBits and CanonicalFormReads |
| `Canonicalize.SecondPass` | lib/capn.c:2178-2204 | the second pass succeeds just if the first one's conditions hold and the tree fits, in any destination that near pointers reach all over |
| `CanonAgain.LaidMeans` | lib/capn.c:1974-2134 | a layout means the value that was laid out |
| `CanonAgain.Rewalk` | lib/capn.c:1871-1972 | traversing a canonical layout finds that value again, just if it is not too deep and no empty struct clashes with its parent |
| `Canonicalize.Run` | lib/capn.c:2136-2210 | succeeds just if source, limits and destination allow it; then the destination is one segment that holds the canonical form and nothing else, and along every path from the root it shows what the source shows, down to every bit of every list; the source keeps its words |
| `Canonicalize.CanonicalFormUnique` | lib/capn.c:1974-2210 | sources with the same meaning up to truncation give the same words, whatever their layout |
| `Canonicalize.CanonicalFormMeans` | lib/capn.c:1974-2210 | the output means the truncation of what the source means |
| `Canonicalize.CanonicalFormReads` | lib/capn.c:1974-2210 | whatever pointers of whatever elements a reader follows, source and output show the same null pointer, capability, or elements with the same bits; words that were cut off were zero |
| `Canonicalize.CanonicalFormAgain` | lib/capn.c:2136-2210 | canonicalizing again succeeds just if no empty struct clashes with its parent, and then gives the same words |
| `Canonicalize.HolderIsRefused` | lib/capn.c:1871-1900 | a struct that holds only a pointer to an empty struct is refused |
| `SegmentTree.RotateOnce` | lib/capn.c:147-168 | case 5: the exact subtree with the parent risen and the colours exchanged, all links in and around it in place in both directions |
| `SegmentTree.RotateTwice` | lib/capn.c:119-146 | case 4: the same with the node itself risen |
| `SegmentTree.OnceKeeps` | lib/capn.c:147-168 | what case 5 makes is balanced with a black root and as high as before, in the same order |
| `SegmentTree.TwiceKeeps` | lib/capn.c:119-146 | and so is what case 4 makes |
| `SegmentTree.Recolour` | lib/capn.c:95-111 | case 3: the red moves up two levels and nothing else changes |
| `SegmentTree.Insert` | lib/capn.c:70-174 | a hooked leaf becomes part of a red-black tree of the same nodes in the same order, with consistent links in both directions |
| `SegmentTree.Index.Append` | lib/capn.c:176-190 | the new segment gets the next id and the index stays a red-black tree in id order |
| `SegmentTree.Lookup` | lib/capn.c:217-241 | finds exactly the segment for each id, in at most twice log2 of their number steps |
| `SegmentTree.HeightBound` | lib/capn.c:70-174 | a balanced tree of n nodes is at most 2 log2(n+1) high |
| `Rpc.Conn.Claim` | lib/capn-rpc.c:38-60 | the export that names the server gains a reference, or else the first free slot is taken; it fails just if the table is full of other servers |
| `Rpc.Conn.HandleBootstrap` | lib/capn-rpc.c:259-315 | exports the bootstrap server and answers with it, or answers with an exception when there is none or no room |
| `Rpc.Conn.HandleRelease` | lib/capn-rpc.c:515-524 | the count goes down, as a signed int; while the peer gives back only what it got, a slot that is freed is held by nobody |
| `Rpc.PeerReleases` | lib/capn-rpc.c:515-524 | a polite release keeps every count equal to what is held, and every claimed export |
| `Rpc.Conn.HandleProvide` | lib/capn-rpc.c:1354-1391 | the first vacant slot holds the export that the target names, directly or by an earlier answer, under the nonce; or there is an exception, just if the target names none, there is no recipient or no slot, and nothing changes |
| `Rpc.Conn.HandleAccept` | lib/capn-rpc.c:1393-1465 | the first unclaimed provision under the nonce is claimed for good: handed over at once, or held back under an embargo without an answer |
| `Rpc.Conn.HandleLift` | lib/capn-rpc.c:1286-1342 | exactly the first embargoed provision of this very Provide question is given up and its Accept answered, with an export that still names its server |
| `Rpc.ResolveIs` | lib/capn-rpc.c:68-82 | a target is resolved to the export in use that it names, and to none just if it names none |
| `Rpc.Conn.JoinSlotFind` | lib/capn-rpc.c:580-600 | the join's own slot, or a new one in an unused slot; fails just if the part count disagrees or the table is full |
| `Rpc.Conn.JoinComplete` | lib/capn-rpc.c:527-624 | success just if all recorded exports are one and hosted; every part is answered once, the first with the capability, on a live export that gains a reference |
| `Rpc.Conn.HandleJoin` | lib/capn-rpc.c:626-662 | a part is refused, waits, or finishes its join; a finished join has told the truth just if, for its target, comparing recorded exports and comparing named servers come to the same, and always while no recorded export is freed |
| `Rpc.JoinTellsIff` | lib/capn-rpc.c:602-613 | before the last part: whatever its target, the join will succeed just if one server was named, if and only if for every export in use all recorded exports are that one just when all named servers are its |
| `Rpc.HeldTells` | lib/capn-rpc.c:602-613 | which is so while recorded exports still name what the parts named |
| `Rpc.SameServer` | lib/capn-rpc.c:602-613 | different servers are different exports, so comparing export ids compares servers |
| `Rpc.Conn.Handle` | lib/capn-rpc.c:1480-1546 | every event keeps all the invariants, and only adds to what was sent; what it adds is explained by this event |
| `Rpc.Run` | lib/capn-rpc.c:1480-1546 | over any run: every Join question is answered once or waits in one slot; provisions made are unclaimed, embargoed or handed over; every reference count is the sum of what is held, while the peer is polite; and every message sent answers an event of the run: a capability promised to a third party goes to an Accept that brings the nonce of its Provide, under an embargo only when a Disembargo names that Provide, and is the server which that Provide had for its target |
| `JoinRuns.ReusedExport` | lib/capn-rpc.c:602-613 | a run after which two different servers are said to be the same |
| `JoinRuns.MovedServer` | lib/capn-rpc.c:602-613 | a run after which one server is said to be two, although no recorded slot is reused |
| `RpcStream.Client.QuestionFind` | lib/capn-rpc.c:762-770 | finds a question just if it is asked and not finished |
| `RpcStream.Client.QuestionClaim` | lib/capn-rpc.c:746-760 | a question with an id of its own, just if fewer than 64 are asked |
| `RpcStream.Client.HandleReturn` | lib/capn-rpc.c:1163-1182 | records the answer of an asked question in a frame of at most 8192 bytes and ignores any other |
| `RpcStream.Stream.RetireOldest` | lib/capn-rpc.c:1196-1219 | the oldest call is finished, and has failed unless it was answered with results; the first failure is remembered |
| `RpcStream.Stream.Send` | lib/capn-rpc.c:1221-1242 | nothing is sent once a failure is seen; a full window retires its oldest call first; outstanding calls are always the newest |
| `RpcStream.Stream.Close` | lib/capn-rpc.c:1244-1249 | every call is finished once, in order; 0 just if every call had succeeded when it was retired, else the earliest failure is known |
| `RpcStream.FinishSent` | lib/capn-rpc.c:1198-1219 | finishes follow calls in order, and at no time is the window exceeded |

## Left out

- PackStream.Stream.Deflate: sizes are unbounded; the source's `min` takes unsigned values (lib/capn-stream.c:19), so with a raw span open and room for a multiple of 2^32 bytes it would copy nothing and not advance.
- PackStream.Stream.Inflate: the same with zeros or a raw span open and such a room.
- MessageIO.WriteMem: the same holds of its `sz`, which is handed on as the room.
- Pointers.NewObject: byte counts that do not fit an int overflow in capn_new_list and its kin (lib/capn.c:2236-2293), which is undefined; the contract asks that they do fit.
- Access.GetPSafe: `off * (datasz + 8 * ptrs)` is not bounded by the range of an int, which it leaves for lists of 2 GiB and more.
- Validate.ChildSlotInside: nor are `8 * idx` and `mem * stride` in child_slot.
- CanonMeasure.Truncate: nor is `i * stride` in trunc_composite.
- CanonEmit.Emit: the last word of a data list is copied up to its last bit by arithmetic on the word, where the source copies bytes onto zeroed memory.
- Rpc.Conn.HandleRelease: reference counts are unbounded where the source has an int that can overflow.
- capn_setp's deep copy, text and data helpers, capn_getv1 and capn_setv1, and the bulk accessors.
- Writers to a FILE or descriptor, except as a callback that takes what packed_emit_seg emits; read errors; kernel variants.
- The create callback is only its contract (a zeroed segment with room, or nothing); the lookup callback and failing allocations are left out.
- Byte swapping and floating point: words and fields are little-endian values.
- The quality of the hash function: the visited set is proved for every one.
- The stack of capn_validate as an array that doubles: here it is a sequence.
- The list of segments as `next` links, and the tree inside the arena: the arena finds segments by position, which is what the index is proved to do.
- Payloads, dispatch of calls, the answer table, promised-answer transforms (a target says what it resolves to), introductions, and several connections on one vat.
- 32-bit question ids that wrap around; fixed tables are sequences of fixed length.
- The code generator and everything it generates.
