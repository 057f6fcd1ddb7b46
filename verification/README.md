# A verified model of puregit

puregit is a git engine written from scratch. This project models its byte-level codecs,
graph walks, diff and merge, and proves what they promise: what is written is read back,
the fast forms agree with the simple ones, the walks visit exactly what is reachable, and
the merges obey their laws. `dafny verify dfyconfig.toml` checks everything.

| area | modules |
|---|---|
| byte strings, order, tables | `Base`, `Order`, `Tables` |
| packfiles | `Delta`, `DeltaMeaning`, `PackFormat`, `PackReader`, `PackAgreement`, `PackWriter`, `IdTable`, `PackIndex`, `PackLayout` |
| graph walks | `Graph`, `Walk`, `MergeBases`, `RevWalk`, `ShallowRun`, `ShallowBoundary`, `ShallowMet`, `Shallow` |
| diff and merge | `Diff`, `Hunks`, `Merge3`, `MergeShape`, `MergeTrees`, `MergeMeaning` |
| trees and the index | `Trees`, `Odb`, `TreeBuilder`, `Flatten`, `IndexEntry`, `Index`, `IndexBytes`, `IndexTree`, `TreeBytes` |
| commit-graph | `Generations`, `CommitGraph`, `GraphBytes` |
| bitmaps | `Ewah`, `Bitmap`, `BitmapBytes` |
| ignore patterns | `Ignore`, `IgnoreMeaning` |

Loops of the source are methods with loops, proved equal to a recursive function or against
a property stated outright; structures it updates in place (`PackWriter`, `RevWalk`, the
in-memory object store, the generation table, the LCS table, the varint buffer) are classes
and arrays. The recursive functions are then related to each other by lemmas, and what each of
them means is stated once more without it: by the literal bytes of every format (`DeltaMeaning`,
`PackLayout`, `TreeBytes`, `IndexBytes`, `GraphBytes`, `BitmapBytes`), by what each kind of object
names (`Walk.Complete`, `MergeBases.Line`, `ShallowMet.Spreads`), by the order in which a walk meets
commits (`RevWalk.Newest`), by how a text or a path is cut up (`IgnoreMeaning`), and by the lines or
entries that the sides of a merge share (`MergeShape`, `MergeMeaning`).

## Modelling decisions

- The hash, the trailing digest, CRC-32 and zlib are parameters (`PackFormat.Env`). Laws are
  only: fixed output length, and a deflated stream is self-delimiting and inflates back under
  any sufficient bound (`PackFormat.LawfulZlibExists` shows this is satisfiable). No global
  injectivity is assumed, which no fixed-length hash can have; where two objects sharing an
  id would matter, the lemma asks for no clash among the objects at hand only.
- The object database is a finite map. A missing object names nothing; an object that does
  not parse is a node of its own and makes the walks fail exactly when it is reached.
- Integers are unbounded where the source's 64-bit `usize` cannot overflow on data that fits
  in memory; wrap-around (`ReadOfsFrom`, `ReadVarintFrom`), checked arithmetic (`ReadVarFrom`),
  32-bit truncation (`U32Bytes`) and 31-bit literal counts are explicit.
- Sorted sets and maps are iterated in ascending byte order (`Order.Ascending`).

Where the code does less than its documentation suggests, the code is followed:

- A wildcard is tried only after a literal comparison (src/ignore.rs:194), so a `*` byte in the
  text can be consumed as a literal. `Ignore.SpoilerSpoils` gives, for every such text, a
  pattern that is wrongly refused; `Ignore.ScannerExact` shows the scanner is exact for all
  patterns if and only if the text has no `*`, and `Ignore.AnchoredExact` lifts this to paths.
- The bitmap header counts the selected commits, not the entries written
  (src/pack/bitmap.rs:107). `Bitmap.HeaderCounts`: the file reads back if and only if every
  selected commit is in the packfile.
- In the shallow walk a tag's target is queued at the tag's own depth, so a commit can be met at
  the limit first and nearer later; it then stays marked shallow
  (`ShallowBoundary.StaleBoundary` is such a call). What is sent is exact for all inputs. The
  marks are exact for all wants and depths over a store if and only if no tagged commit is
  nearer than another commit to a commit that can be cut off
  (`ShallowBoundary.ExactForAllWants`), and for one call whenever all wants have equally many
  tags in front of them, none for commits (`ShallowBoundary.EvenTagsExact`). Both are for
  stores in which no commit names a tag as its parent.
- An object queued both as an entry and as an external base is written as a delta on itself when
  that is shorter (`PackWriter.Writer.Finish`). The sequential reader returns it; through the
  index it is its own base and random access fails (`PackWriter.OwnBaseFinished`).
  `PackWriter.ChainDecides` is the exact condition for every written packfile: an entry is
  returned if its chain of bases ends within the cap, and is an error otherwise;
  `PackWriter.RandomAccess`: no external base being an entry is enough.
- A copy instruction keeps an offset modulo 2^32 only. `Delta.CreateDelta`: over a longer base the
  delta is right if and only if every match the scan takes is found again, chunk by chunk, at
  its offset modulo 2^32 (`Delta.CopyExact` for one copy); otherwise it applies without an error
  to other bytes.
- A tree merge reads blobs that it has itself just written for another path, so it can succeed in
  one order of the sides only (`MergeTrees.OneOrderOnly`); when both succeed the laws hold.
- The committer time in a commit-graph is kept if and only if it lies in [0, 2^34).
- An index file is reproduced byte for byte if and only if its entry block is the one the
  writer makes of its entries and its trailer is a real checksum (`Index.ByteIdentical`).

## Model

| member | source | states |
|---|---|---|
| `Base.BigEndian` | src/index.rs:470-476 | words are stored with their most significant byte first |
| `Order.LessMeans` | src/object/tree.rs:235-247 | byte strings are in order by the first byte that differs, and a prefix comes first |
| `Delta.VarintRoundTrip` | src/pack/delta.rs:170-248 | a size below 2^64 written anywhere in a buffer is read back, and the cursor ends right after it |
| `Delta.ReadVarintAt` | src/pack/delta.rs:235-248 | the cursor loop is the recursive little-endian base-128 meaning, including truncation errors |
| `Delta.SparseRoundTrip` | src/pack/delta.rs:208-232 | the sparse bytes chosen by the selector bits give back the value they were taken from |
| `Delta.ReadSparseAt` | src/pack/delta.rs:57-68 | the bit-by-bit reading of an offset or size is the recursive sparse meaning |
| `Delta.ApplyDelta` | src/pack/delta.rs:32-96 | the instruction loop computes the recursive meaning `Apply`, with every error case |
| `Delta.RunAppend` | src/pack/delta.rs:50-90 | instructions compose: running a longer delta is running its prefix and continuing from the result |
| `Delta.FlushInsert` | src/pack/delta.rs:195-204 | after the 127-byte inserts the delta builds exactly what it built before followed by the pending bytes, and nothing else was written |
| `Delta.EmitCopy` | src/pack/delta.rs:208-232 | for any offset the emitted copies build what was built before followed by the chunks at their offsets modulo 2^32 |
| `Delta.CopyExact` | src/pack/delta.rs:208-232 | one copy at any offset builds the intended slice if and only if the base holds the same bytes at the offset modulo 2^32 |
| `Delta.CopiedRight` | src/pack/delta.rs:208-232 | the chunks emitted for a slice build that slice if and only if each is found again at its offset modulo 2^32 |
| `Delta.ShortBaseRight` | src/pack/delta.rs:208-232 | in a base of at most 2^32 bytes every slice is copied right |
| `Delta.IndexBase` | src/pack/delta.rs:119-127 | the block index maps exactly the hashes that occur to the earliest window that has them |
| `Delta.FindMatch` | src/pack/delta.rs:132-148 | the match taken is the earliest window of that hash if it has the same bytes, extended as far as base and target agree |
| `Delta.ExtendMatch` | src/pack/delta.rs:138-146 | the forward extension is the longest on which base and target agree |
| `Delta.TakeMatch` | src/pack/delta.rs:150-154 | flushing the pending bytes and copying the match keeps the length built, and keeps it right exactly if the match is copied right |
| `Delta.TakeByte` | src/pack/delta.rs:155-161 | an unmatched byte joins the pending ones, which are flushed at 127 |
| `Delta.CreateDelta` | src/pack/delta.rs:112-166 | for every base and block hash: a target within the reader's 2^30 cap gives a delta that applies to as many bytes, and to the target itself if and only if every match the greedy scan takes is copied right, as all are over a base of at most 2^32 bytes; a longer target is refused; an object of one block or more against itself gives one copy; the bytes are those of the greedy program |
| `Delta.SelfMatch` | src/pack/delta.rs:131-148 | whatever the hash, a base of at least one block matches itself at once and as a whole |
| `Delta.SelfApplies` | src/pack/delta.rs:32-96 | the delta that copies a base whole makes the base from itself |
| `DeltaMeaning.VarintForm` | src/pack/delta.rs:170-183 | sizes are written seven bits a byte, least significant first, the high bit set on all bytes but the last |
| `DeltaMeaning.CopyMeans` | src/pack/delta.rs:54-80 | for each of the 128 copy opcodes: the low four bits select offset bytes, the next three size bytes, what is not selected is zero, a size of zero is 65536, and a copy past the end of base or delta is an error |
| `DeltaMeaning.InsertMeans` | src/pack/delta.rs:81-90 | opcodes 1 to 127 insert that many of the bytes after them, opcode 0 is an error |
| `DeltaMeaning.DeltaMeans` | src/pack/delta.rs:32-96 | for any two declared sizes below 2^64 and any program: the delta applies exactly if the first is the base's size, the second is at most 2^30 and the number of bytes the program produces |
| `DeltaMeaning.BareCopy` | src/pack/delta.rs:69-71 | over every base of at least 65536 bytes the one-byte program 0x80 gives its first 65536 bytes |
| `DeltaMeaning.RunShift` | src/pack/delta.rs:50-90 | a program means the same wherever it stands in a delta |
| `DeltaMeaning.MatchMeans` | src/pack/delta.rs:119-148 | a match is at least 16 bytes at the earliest window of that hash and as long as both agree; none means that an earlier window with the same hash hides every equal one |
| `DeltaMeaning.NoZeroBytes` | src/pack/delta.rs:208-232 | no argument byte written for a copy is zero |
| `PackFormat.HeaderRoundTrip` | src/pack/mod.rs:358-379 | an entry header (type, size below 2^64) reads back, self-delimiting |
| `PackFormat.WriteEntryHeader` | src/pack/writer.rs:307-322 | the loop writes the header whose round trip is proved |
| `PackFormat.ParseEntryHeader` | src/pack/mod.rs:358-379 | the shift loop is the header meaning, with overlong sizes and unknown types refused |
| `PackFormat.OfsRoundTrip` | src/pack/writer.rs:69-79 | the offset-style varint reads back for every distance below 2^64 |
| `PackFormat.EncodeOfs` | src/pack/writer.rs:69-79 | the digits built backwards and reversed are the offset-style varint |
| `PackFormat.ReadOffsetVarint` | src/pack/mod.rs:383-398 | the read loop is the varint's recursive meaning, with 64-bit wrap-around |
| `PackFormat.FrameRoundTrip` | src/pack/writer.rs:204-223 | a written frame of any kind reads back as that kind, with that stream, ending where it ends |
| `PackLayout.FrameMeans` | src/pack/writer.rs:204-223 | commits are type 1, trees 2, blobs 3, tags 4, deltas 6 and 7 in bits four to six of the first byte, below the size; then the base reference and the stream |
| `PackLayout.OfsForm` | src/pack/writer.rs:69-79 | a distance is written in base 128, most significant digit first, every digit before the last one less than it counts |
| `PackFormat.LawfulZlibExists` | src/compress.rs:18-85 | the laws asked of zlib are satisfiable |
| `PackReader.OpenPack` | src/pack/mod.rs:112-130 | exactly files of at least twelve bytes that start with `PACK` and version 2 or 3 are opened, with the entry count in bytes 8 to 11 |
| `PackReader.ReadEntryAt` | src/pack/mod.rs:302-338 | one entry's header, base reference and stream are the frame meaning |
| `PackReader.ExplodePackPrefix` | src/pack/mod.rs:276-354 | the loop over memo tables is the fold of one decoding step over the entries, errors included |
| `PackReader.DecodeEntry` | src/pack/mod.rs:305-340 | resolving through the offset and id tables is the step's meaning |
| `PackReader.ReadAtWith` | src/pack/mod.rs:165-237 | on arbitrary bytes, index and resolver the iterative chain reader terminates and equals the recursive base-then-apply value with at most 10,000 in-pack links; a revisited offset is an error because such a chain has no value |
| `PackReader.CycleHasNoValue` | src/pack/mod.rs:175-180 | a chain that returns to an offset has no value whatever the cap |
| `PackReader.NextBase` | src/pack/mod.rs:181-231 | how one entry names its base |
| `PackReader.ApplyCollected` | src/pack/mod.rs:233-236 | applying the collected deltas from the base upward is the fold the recursion makes |
| `PackAgreement.TablesHold` | src/pack/mod.rs:290-345 | at every point of a run the memo tables hold exactly the decoded entries by offset and by id |
| `PackAgreement.EntryRun` | src/pack/mod.rs:301-345 | entry k of the result was decoded from the state before it, and later entries do not change it |
| `PackAgreement.EntryBase` | src/pack/mod.rs:184-231 | the base the random-access reader finds for an entry is the object the sequential reader applied the delta to, before or after it in the packfile |
| `PackAgreement.ReadersAgree` | src/pack/mod.rs:165-354 | on every packfile the sequential reader accepts, the random-access reader gives the same object at an entry if its chain ends within the cap and an error otherwise; a base named by id may come after its delta if the resolver, which then answered for it, knows no other object of that id |
| `IdTable.Search` | src/pack/mod.rs:553-570 | binary search returns a row holding the id, and none only if no row of a sorted table does |
| `IdTable.FanoutTotal` | src/pack/mod.rs:464-466 | the last fanout word is the number of ids |
| `PackIndex.Fanout` | src/pack/writer.rs:260-273 | in-place accumulation gives, per first byte, the number of ids up to it |
| `PackIndex.BuildIndex` | src/pack/writer.rs:252-303 | the written file is the v2 layout of the id-sorted rows with its checksum |
| `PackIndex.BuiltParses` | src/pack/mod.rs:449-496 | the layout parses back to its own tables |
| `PackIndex.OffsetOf` | src/pack/mod.rs:514-528 | on a sorted index the lookup gives the offset stored for the id, through the 8-byte table for large ones, and none only for absent ids |
| `PackIndex.Lookup` | src/pack/mod.rs:514-528 | the lookup as a function: the offset of a row with the id, none only without such a row |
| `PackIndex.IndexFindsExactly` | src/pack/writer.rs:252-303 | the parsed built index maps every id to its own offset and no other id to anything |
| `PackLayout.IndexMeans` | src/pack/writer.rs:252-303 | magic and version 2; word b of the fanout is the number of ids with first byte at most b; ids, CRCs and offsets stand at their places, those from 2^31 on in the 8-byte table; then the digest of the packfile |
| `PackWriter.Writer.constructor` | src/pack/writer.rs:83-89 | an empty writer |
| `PackWriter.Writer.Add` | src/pack/writer.rs:111-121 | queues an object once, by id, and keeps the queue's ids distinct and true |
| `PackWriter.Writer.AddExternalBase` | src/pack/writer.rs:97-107 | the same for external bases, leaving the entries alone |
| `PackWriter.Writer.TryInPack` | src/pack/writer.rs:170-187 | of the ten latest full entries of its type, leaving out those over 2^20 bytes, the delta on the best is taken if it is smaller than the raw stream; it reproduces the entry |
| `PackWriter.Writer.TryBase` | src/pack/writer.rs:177-186 | one candidate base replaces the best so far exactly by a smaller delta, the one created on it, that reproduces the entry |
| `PackWriter.Writer.MakeDelta` | src/pack/writer.rs:177-182 | a delta tried between two objects is the created one and reproduces the target |
| `PackWriter.Writer.TryExternal` | src/pack/writer.rs:188-201 | of the first sixteen external bases of its type and of at most 2^20 bytes the delta on the best replaces the best so far if it is smaller; it reproduces the entry |
| `PackWriter.Writer.Choose` | src/pack/writer.rs:158-202 | the encoding chosen takes the least room of the full object and all deltas tried, and is a delta only if that takes less than the full object |
| `PackWriter.Writer.WriteEntry` | src/pack/writer.rs:152-223 | what is appended is one frame that encodes the entry, in the smallest encoding tried |
| `PackWriter.Writer.Finish` | src/pack/writer.rs:137-238 | exploding the output followed by any bytes gives the queued objects in order and consumes exactly the output, for every resolver that knows the external bases; it starts with `PACK` and version 2 and opens with as many entries as are queued; every entry is in the smallest encoding tried; the index is the one over the frames' offsets; an object queued as entry and as external base is written as a delta on itself when that is shorter |
| `PackWriter.PackMeans` | src/pack/writer.rs:137-144 | for any frames: `PACK`, version 2, their number as the reader opens it, the first frame at byte 12, a digest of all that at the end |
| `PackWriter.PackRoundTrip` | src/pack/writer.rs:137-238 | the same of any well-written run of frames, the step from frames to objects |
| `PackWriter.ChainDecides` | src/pack/mod.rs:165-237 | for every written packfile and every exact index, reading an entry by offset gives the queued object if its chain ends within the cap and an error otherwise |
| `PackWriter.RandomAccess` | src/pack/mod.rs:165-237 | when no external base is also an entry, reading any entry of a finished packfile by offset gives the queued object |
| `PackWriter.OwnBaseFails` | src/pack/mod.rs:175-228 | an object that is entry and external base at once may be stored as a delta on itself: well written, exploded correctly, and never returned by random access |
| `PackWriter.OwnBaseFinished` | src/pack/writer.rs:188-213 | so does the packfile that finishing such a queue writes |
| `PackWriter.SelfWinsSometimes` | src/pack/writer.rs:164-169 | there is a lawful stream format under which that delta is the shorter one |
| `PackWriter.ShortChain` | src/pack/writer.rs:147-151 | chains of a written packfile have at most one in-pack link |
| `PackWriter.WrittenIndex` | src/pack/writer.rs:224-231 | the index returned with a packfile locates each id at its frame and no other id |
| `PackWriter.WrittenLocates` | src/pack/mod.rs:514-528 | the lookup in the parsed index is exact on the written entries |
| `PackWriter.IndexedAccess` | src/pack/mod.rs:165-237 | reading a finished packfile at random through the index finished with it gives each queued object exactly if its chain ends, and always when no external base is an entry |
| `Ignore.GlobSeg` | src/ignore.rs:190-213 | the backtracking loop terminates and equals the greedy scan meaning |
| `Ignore.ScanIsSound` | src/ignore.rs:190-213 | what the greedy scan accepts, the recursive wildcard definition matches |
| `IgnoreMeaning.MatchesMeans` | src/ignore.rs:186-189 | a text matches exactly if it can be cut into one piece per pattern byte: any piece for `*`, one byte for `?`, that byte for any other |
| `Ignore.ScanIsComplete` | src/ignore.rs:190-213 | on text without `*` the greedy scan accepts everything that matches |
| `Ignore.SpoilerSpoils` | src/ignore.rs:194-200 | every text with a `*` has a matching pattern the scan refuses |
| `Ignore.ScannerExact` | src/ignore.rs:190-213 | the scan is exact for all patterns if and only if the text has no `*` |
| `Ignore.MatchAnchored` | src/ignore.rs:151-184 | the one-pass table accepts exactly when the tokens cover a prefix of the components, `**` spanning any number, a strict prefix for directory patterns; on paths without `*` in the sense of the glob definition itself |
| `Ignore.CoversIsSpans` | src/ignore.rs:151-184 | on components without `*` covering by the scanner is covering by the glob definition |
| `IgnoreMeaning.SpansMeans` | src/ignore.rs:145-184 | tokens span components exactly if these can be cut into one run per token: any run for `**`, else one component that matches |
| `Ignore.AnchoredExact` | src/ignore.rs:151-184 | the answer of `match_anchored` is the right one for all token lists and both kinds of pattern if and only if no component has a `*` |
| `Ignore.SpoiledPath` | src/ignore.rs:151-184 | for every path with a `*` a token list that should match and is refused |
| `Walk.CollectClosure` | src/walk.rs:205-262 | the set is exactly what is reachable from the roots outside the excluded set: the least that holds the roots and with a commit its tree and parents, with a tree its entries but gitlinks, with a tag its target; it fails exactly when an unparsable object is in every such set |
| `Walk.ObjectsToSend` | src/walk.rs:112-119 | exactly what the wants reach and the haves do not: the least set that holds the wants and what its members name, but for the least such set of the haves |
| `Walk.ReachIsLeast` | src/walk.rs:225-258 | what paths reach is the least set closed under what each kind of object names |
| `Walk.GitlinksAlone` | src/walk.rs:238-240 | what only gitlinks name is not in the set |
| `Walk.RefusingIsSubtracting` | src/walk.rs:112-119 | refusing to enter what the haves reach is the same as subtracting it afterwards |
| `Walk.ReceiverComplete` | src/walk.rs:105-119 | a receiver that held everything the haves reach then holds everything the wants reach, and nothing it was sent names an object it lacks |
| `MergeBases.CommitAncestors` | src/walk.rs:365-383 | exactly the ancestors of the tip, itself included: the least set that holds it and the parents of each commit in it |
| `MergeBases.MergeBases` | src/walk.rs:334-362 | in ascending order exactly the present common ancestors that no common ancestor descends to by one or more edges; with ancestors as least sets, those that are no parent of a commit in both |
| `MergeBases.SingleEdgeSuffices` | src/walk.rs:341-361 | discarding parents of common ancestors discards everything reachable from one |
| `MergeBases.BaseAbove` | src/walk.rs:334-362 | in an acyclic history every present common ancestor is an ancestor of some merge base |
| `RevWalk.Walker.constructor` | src/walk.rs:536-544 | a walk that has emitted nothing and owes its tips |
| `RevWalk.Walker.Enqueue` | src/walk.rs:547-565 | keeps the run invariant, settling one owed id; fails exactly on an unseen non-commit |
| `RevWalk.Walker.EnqueueAll` | src/walk.rs:568-571 | settles a whole list of owed ids |
| `RevWalk.Walker.Pop` | src/walk.rs:507-513 | takes the entry that precedes every other: newest, then earliest queued |
| `RevWalk.Walker.Step` | src/walk.rs:568-579 | keeps the run invariant and appends exactly the commit it returns; none means the queue is empty |
| `RevWalk.RevList` | src/walk.rs:581-588 | a full run emits each commit reachable through present commits exactly once and each non-tip after one of its children; each is the newest that waits, of equal dates the one met first; dates never increase if no parent is newer; all walked children come first if every parent is strictly older; it fails exactly when a non-commit is reached |
| `RevWalk.EmitNewest` | src/walk.rs:507-513 | the front of the queue is the newest of all commits met and not yet emitted, and of equal dates the one met first |
| `Shallow.Visit` | src/walk.rs:153-196 | the breadth-first loop terminates with the least depth of everything within the limit and gathers what those depths say; it fails exactly when an unparsable commit or tag is within the limit |
| `Shallow.ShallowObjectsToSend` | src/walk.rs:140-201 | it fails exactly when something to be sent does not parse; the objects are exactly what lies within the depth, trees in full; every boundary commit is marked, and whatever is marked is where the client stops already or is reached at the limit exactly; with equally many tags before all wants nothing else is marked; all this also by what each object names, from a limit of at least one |
| `ShallowMet.MetIsLeast` | src/walk.rs:152-190 | the depths at which objects are met are least: wants at 1, a parent one deeper unless the commit is at the limit or in the client's own boundary, a tag's target at the tag's depth |
| `ShallowMet.CutIsMarked` | src/walk.rs:173-178 | marked are commits with parents met at the limit or in the client's boundary, among them all not met nearer |
| `ShallowRun.RunTraced` | src/walk.rs:153-196 | at every turn the queue is in order of route length, then of want; every step from a visit is queued or was met earlier and no deeper; later visits to an object are nearer; the marks are the visits at the limit |
| `ShallowRun.AllDominated` | src/walk.rs:153-196 | when the run is over every route within the limit was beaten to its end, in order and in depth, by a visit |
| `ShallowRun.BestIsLeast` | src/walk.rs:153-161 | the recorded depth of an object is its least depth |
| `ShallowRun.RunEnds` | src/walk.rs:153-196 | every run ends, revisits included |
| `ShallowBoundary.BoundaryMarked` | src/walk.rs:173-178 | the whole boundary is marked, whatever is wanted |
| `ShallowBoundary.MarkedAtLimit` | src/walk.rs:173-178 | a marked commit outside the client's own boundary has a route of exactly the limit |
| `ShallowBoundary.EvenTagsExact` | src/walk.rs:140-201 | with equally many tags before all wants exactly the boundary is marked |
| `ShallowBoundary.ExactForAllWants` | src/walk.rs:140-201 | the marks are exact for all wants and depths if and only if no tagged commit is nearer than another commit to a commit with parents that can be cut off |
| `ShallowBoundary.WrongMark` | src/walk.rs:184-189 | wanting a commit one step farther and then the tag marks the commit both lead to |
| `ShallowBoundary.StaleBoundary` | src/walk.rs:173-189 | three objects, two wants and depth two for which a walked commit stays marked |
| `Diff.SplitLines` | src/diff.rs:32-45 | the scan gives the lines with their terminators |
| `Diff.JoinLines` | src/diff.rs:32-45 | the lines joined are the input |
| `Diff.LinesEnd` | src/diff.rs:32-45 | no line is empty, all but the last end with a newline, none holds one before its end |
| `Diff.FillTable` | src/diff.rs:51-61 | the bottom-up table holds the longest-common-subsequence length of every pair of suffixes |
| `Diff.LcsBounds` | src/diff.rs:51-61 | no script that turns one side into the other keeps more lines than the table says |
| `Diff.ScriptTurns` | src/diff.rs:63-86 | the extracted script turns old into new and keeps that many |
| `Diff.DeletesFirst` | src/diff.rs:63-86 | a common first line is kept, and no insertion is directly followed by a deletion |
| `Diff.LineOps` | src/diff.rs:49-87 | dropping inserts gives old, dropping deletes gives new, and no other script keeps more lines |
| `Hunks.RunEnd` | src/diff.rs:110-127 | a run ends at its last change, with the next change more than twice the context away |
| `Hunks.GroupHunks` | src/diff.rs:100-136 | hunks are ordered and disjoint and hold exactly the ops within the context of a change |
| `Hunks.Unified` | src/diff.rs:92-183 | for every context size, replacing the old ranges the headers name by the hunks' new lines turns old into new; the ranges of each hunk name exactly its lines in both files, an empty one the line before it; equal files give no hunk |
| `Hunks.PatchRebuilds` | src/diff.rs:141-166 | applying hunks that cover every change rebuilds the new side from any op on |
| `Merge3.ComputeMatches` | src/diff.rs:198-214 | the paired indexes are those the script keeps |
| `Merge3.MatchesFaithful` | src/diff.rs:198-214 | matches pair equal lines, in range and strictly in order |
| `Merge3.MatchesMost` | src/diff.rs:198-214 | as many lines are matched as any script keeps |
| `Merge3.MergeThree` | src/diff.rs:230-285 | the three cursors compute the region-by-region merge of which the laws are proved here and in `MergeShape` |
| `Merge3.MergeSwap` | src/diff.rs:230-285 | exchanging ours and theirs keeps the conflict verdict and, when clean, every byte |
| `Merge3.MergeIdentical` | src/diff.rs:230-285 | identical sides merge to that side without conflict |
| `Merge3.MergeUnchanged` | src/diff.rs:230-285 | an unchanged side yields exactly the other side |
| `MergeShape.Shape` | src/diff.rs:230-285 | exactly the lines both matches keep stand between the pieces; each piece is what both sides have between two of them or the ends, else the only changed side's lines, else both sides' between the three markers; the merge conflicts if a piece does |
| `MergeShape.ConflictsBetween` | src/diff.rs:246-281 | a merge conflicts exactly if between two neighbouring lines that both matches keep, or the ends, all three files differ |
| `MergeShape.BothChanges` | src/diff.rs:246-281 | one side changes the first of three lines and the other the last: both changes, no conflict |
| `MergeTrees.ResolvePath` | src/merge.rs:63-106 | one path's entry, conflict and written blob are the choice of which the laws are proved |
| `MergeTrees.Merge` | src/merge.rs:35-111 | flattening, merging every path of the three trees in order and building gives the tree of the merged listing, and fails exactly when a tree or a needed blob cannot be read; a stored side against an unchanged or equal one gives back its own id |
| `MergeTrees.Yields` | src/merge.rs:63-77 | an unchanged side yields exactly the other side's entries, identical sides theirs, without conflict and without a write |
| `MergeTrees.YieldsTree` | src/merge.rs:109-110 | two entry lists of one listing build one tree, so the listing that was yielded builds the tree it came from |
| `MergeTrees.TreeYielded` | src/merge.rs:35-111 | merging a stored tree with an unchanged or an equal side gives that very tree id without conflict |
| `MergeTrees.MergeByPath` | src/merge.rs:58-107 | each path of any merge that succeeds is decided on its own, by the blobs of the final store |
| `MergeTrees.MergeGrows` | src/merge.rs:85-90 | merging only adds to the store |
| `MergeTrees.ReadableSucceeds` | src/merge.rs:117-126 | a merge whose blobs are all stored at the start succeeds |
| `MergeTrees.OneOrderOnly` | src/merge.rs:85-90 | two paths and three blobs for which one order succeeds and the other does not: it needs the blob the first conflict writes |
| `MergeTrees.CleanSwap` | src/merge.rs:58-107 | a merge without conflicts is the same with the sides exchanged: entries, blobs written and store, whatever can be read |
| `MergeTrees.TreeSwap` | src/merge.rs:35-111 | when both orders succeed, exchanging the sides gives the same conflict paths and, when there are none, the same entries and store |
| `MergeTrees.ConflictsExactly` | src/merge.rs:78-106 | a path of any merge that succeeds conflicts exactly when all three sides differ and its contents cannot be merged or their merge conflicts |
| `MergeMeaning.EachPath` | src/merge.rs:58-107 | each path of a merge that succeeds: agreed or one-sided entries are taken; files both changed keep their common mode and get the stored merge of their contents; of anything else ours stays, theirs if there is no ours, with a conflict; no other path is in the result |
| `Trees.ParseTree` | src/object/tree.rs:116-156 | the loop over the shrinking slice is the entry-by-entry meaning, with every refusal |
| `TreeBytes.SpellingRead` | src/object/tree.rs:49-66 | exactly 40000, 040000, 100644, 100755, 120000 and 160000 are modes, each its own |
| `TreeBytes.EntryExactly` | src/object/tree.rs:116-156 | an entry is read exactly if the payload starts with a mode, a space, a name that is not empty and has no slash or NUL, a NUL and an id |
| `TreeBytes.EntryWritten` | src/object/tree.rs:164-171 | an entry is written in that form, in the short spelling |
| `TreeBytes.EntryOrder` | src/object/tree.rs:235-247 | in a written tree the first byte in which two names differ, a slash behind those of subtrees, puts them in order |
| `TreeBytes.ModeMeans` | src/object/tree.rs:74-93 | types 4, 8, 10 and 14 of a staged mode are tree, file, symlink and gitlink; any odd permission digit makes a file executable |
| `TreeBytes.PlaceholderMeans` | src/tree_builder.rs:35-39 | bit 13 of the extended flags marks a placeholder |
| `Trees.SerializeTree` | src/object/tree.rs:160-173 | the payload of the entries in git's order |
| `Trees.TreeRoundTrip` | src/object/tree.rs:116-173 | parsing a serialized tree gives its entries in git's order |
| `Trees.SerializeIgnoresOrder` | src/object/tree.rs:158-173 | entries pushed in any order serialize to the same bytes |
| `Odb.Memory.constructor` | src/odb/memory.rs:30-35 | an empty store |
| `Odb.Memory.Write` | src/odb/memory.rs:65-72 | stores an object under its hash unless something is there already |
| `TreeBuilder.MarkKeepsOrder` | src/tree_builder.rs:47-55 | byte order of paths keeps the order of their top-level names, so a directory's paths are contiguous |
| `TreeBuilder.LevelSorted` | src/object/tree.rs:235-247 | the builder's own order is strictly git's tree order |
| `TreeBuilder.Gather` | src/tree_builder.rs:77-91 | the run of entries under a directory, stripped of it |
| `TreeBuilder.Build` | src/tree_builder.rs:59-105 | returns the root id and writes every subtree before the tree that names it |
| `TreeBuilder.WriteTreeFromEntries` | src/tree_builder.rs:49-55 | the same for the path-sorted entries |
| `Flatten.FlattenInto` | src/walk.rs:462-483 | the recursion inserts exactly the files met, in order, and fails exactly when a tree cannot be read |
| `Flatten.TreeInverts` | src/walk.rs:453-483 | a tree whose pieces are stored flattens to the listing it was built from |
| `Flatten.FlattenBuild` | src/tree_builder.rs:49-105 | flattening the written tree gives back exactly the entries, for distinct well-formed paths, even when one path is a directory of another |
| `Flatten.SameListingSameTree` | src/tree_builder.rs:45-55 | two lists with one listing give the same id and objects in any order, so rebuilding from a flattened tree gives its id |
| `Flatten.SameTreeSameListing` | src/walk.rs:453-483 | equal root ids in one store mean equal listings |
| `IndexTree.StagedFiles` | src/tree_builder.rs:26-41 | exactly the non-placeholder entries, and an error exactly for a conflict stage or a mode no tree can hold |
| `IndexTree.WriteTreeFromIndex` | src/tree_builder.rs:25-43 | writes the tree of those files and nothing on error |
| `IndexTree.StagedTreeFlattens` | src/tree_builder.rs:25-43 | flattening the written tree lists exactly the staged files |
| `IndexEntry.SafeIsWellFormed` | src/index.rs:258-264 | every path the index accepts is one the tree builder can nest |
| `IndexBytes.SafeMeans` | src/object/tree.rs:199-230 | a path component is refused exactly if it is empty, `.`, `..`, holds a slash, backslash, colon or NUL, is `.git` in any case with only dots and spaces behind it, or `git~1` in any case |
| `IndexBytes.SafePathMeans` | src/index.rs:258-264 | a path is accepted exactly if no part between its slashes is refused |
| `IndexBytes.SomeNames` | src/object/tree.rs:199-230 | README.md and .gitignore are accepted, .git and .GIT followed by a dot and a space are not |
| `IndexEntry.EntryReads` | src/index.rs:266-426 | a written entry with any NUL-free path is read back if the path is safe and refused otherwise |
| `IndexBytes.FieldsAt` | src/index.rs:266-312 | each stat word, the id, the stage, the three flag bits and the extended flags are read from their places |
| `IndexBytes.NameMeans` | src/index.rs:330-352 | up to version 3 a name is as long as the flags say, or up to a NUL from 0xFFF on, and entries end at the next multiple of eight after it |
| `IndexBytes.ShortenedName` | src/index.rs:313-329 | in version 4 a name is the previous one without as many bytes as the varint says, and what stands up to the next NUL |
| `IndexEntry.VarintRoundTrip` | src/index.rs:430-461 | the checked varint reads back every value below 2^64 |
| `IndexEntry.ReadVarint` | src/index.rs:430-446 | the loop is the varint's meaning, overflow and truncation refused |
| `IndexEntry.WriteVarint` | src/index.rs:449-461 | filling the sixteen-byte buffer from its end never runs out and gives the varint |
| `IndexEntry.EntryRoundTrip` | src/index.rs:266-426 | an entry written anywhere reads back, in versions 2, 3 and 4, through padding, prefix compression and long paths |
| `IndexEntry.ParsedFits` | src/index.rs:266-379 | whatever parses is something the writer can store |
| `IndexEntry.WriteName` | src/index.rs:408-425 | the common-prefix scan and the padding give the stored name |
| `IndexEntry.WriteEntry` | src/index.rs:381-426 | appends exactly the entry's encoding |
| `Index.BlockRoundTrip` | src/index.rs:152-158 | a run of entries reads back, each relative to the path before it |
| `Index.KeptBlocks` | src/index.rs:236-247 | what is kept of stale extensions is every block named `REUC`, byte for byte, and nothing else |
| `Index.IndexRoundTrip` | src/index.rs:114-225 | parsing a serialized index gives the entries by path and stage, the chosen version, and the extensions verbatim if entries and version are unchanged, else their `REUC` blocks |
| `Index.IndexReads` | src/index.rs:114-225 | a written index with any NUL-free paths is read back if every path is safe and refused otherwise |
| `IndexBytes.AcceptedPaths` | src/index.rs:114-264 | a written index parses exactly if no part of a path in it is a refused name |
| `IndexBytes.FileStarts` | src/index.rs:182-225 | `DIRC`, version 4 if it was 4, else 3 or 2 as an entry has extended flags or none has, the count, and a digest at the end |
| `IndexBytes.ReadFiles` | src/index.rs:114-177 | what is read starts so, ends with the digest or zeros and has no `link` extension |
| `IndexBytes.BlockMeans` | src/index.rs:236-247 | an extension is four bytes of name, four of length and as many of content; one cut short stops the reading |
| `Index.SerializeAgain` | src/index.rs:182-225 | writing what was read back gives the same bytes |
| `Index.ByteIdentical` | src/index.rs:14-22 | a parsed file is reproduced byte for byte if and only if its entry block is canonical and its checksum real |
| `Index.ExtensionBlocks` | src/index.rs:236-247 | the loop stops at the first malformed block |
| `Index.WriteBlock` | src/index.rs:195-200 | the loop with the previous path writes the entry block |
| `Index.SerializeIndex` | src/index.rs:182-225 | writes the file whose round trip is proved |
| `Index.ParseIndex` | src/index.rs:114-177 | the cursor loop computes the file's meaning, with every refusal |
| `Generations.Sweep` | src/commit_graph.rs:77-89 | an in-place sweep is at least one synchronous round further and never overshoots; no change means a fixed point |
| `Generations.Relax` | src/commit_graph.rs:65-90 | ends normally exactly when the parent relation is acyclic; each generation is one more than its parents' maximum, the length of the longest chain to a root, and at most n |
| `Generations.RoundsSettle` | src/commit_graph.rs:65-90 | without a cycle n rounds are final |
| `Generations.FixedIsLongest` | src/commit_graph.rs:65-90 | a fixed point exists only without cycles and is the longest-chain length |
| `Generations.LongestMeans` | src/commit_graph.rs:65-90 | a root has generation 1, any other commit one more than the largest among its parents |
| `CommitGraph.WriteCommitGraph` | src/commit_graph.rs:41-187 | succeeds only on a parent-closed acyclic set, fails only otherwise, and writes the file describing those commits and generations |
| `CommitGraph.ReadParents` | src/commit_graph.rs:318-348 | the edge-table loop is the parent list's meaning |
| `CommitGraph.FileParses` | src/commit_graph.rs:203-266 | a written file parses to its own tables |
| `CommitGraph.ParentsAgree` | src/commit_graph.rs:318-348 | zero, one, two and octopus parents read back in order |
| `CommitGraph.GraphAgrees` | src/commit_graph.rs:311-369 | tree, parents and generation read back; the time exactly when it is in [0, 2^34) |
| `CommitGraph.AgreesWithCommits` | src/commit_graph.rs:41-369 | for commits that fit the format the parsed file holds exactly the ids and says of each what the database says |
| `GraphBytes.FileMeans` | src/commit_graph.rs:149-187 | `CGPH`, version 1, hash 1 for SHA-1 and 2 for SHA-256, three or four chunks as no merge or some merge has more than two parents, their names in order, and a digest at the end |
| `GraphBytes.ChunksMean` | src/commit_graph.rs:149-187 | each chunk stands where the chunk table says, from right behind it to the digest: fanout, ids, rows, extra parents |
| `GraphBytes.RowMeans` | src/commit_graph.rs:113-147 | a row is the tree, two parent slots, the generation above two bits of date and the low 32 bits of date; 0x70000000 is no parent, and from three parents on the second slot has its high bit over the number of extra words before |
| `GraphBytes.EdgeMeans` | src/commit_graph.rs:124-139 | the extra words of an octopus merge are its parents from the second on, the last with its high bit set |
| `Ewah.Compress` | src/pack/ewah.rs:43-94 | decompressing gives the words back and the recorded position is the decoder's last run word |
| `Ewah.Decompress` | src/pack/ewah.rs:149-168 | the loop is the recursive decoding, truncated blocks included |
| `Ewah.RoundTrip` | src/pack/ewah.rs:43-168 | decoding inverts compressing for fewer than 2^31 words |
| `Ewah.FromSetBits` | src/pack/ewah.rs:97-106 | the decoded words have exactly the given positions below the size set |
| `Ewah.SetBits` | src/pack/ewah.rs:171-188 | the set positions below the size, in order |
| `Ewah.SetBitsInvert` | src/pack/ewah.rs:97-188 | reading back increasing positions gives those positions |
| `Ewah.WriteBytes` | src/pack/ewah.rs:109-118 | the loop writes the stored form whose round trip is proved |
| `Ewah.BytesRoundTrip` | src/pack/ewah.rs:109-146 | the stored form reads back and is self-delimiting |
| `Ewah.CompressedIsStorable` | src/pack/ewah.rs:109-118 | compressed bitmaps fit the stored form's fields |
| `BitmapBytes.SetMeans` | src/pack/ewah.rs:97-106 | position p is bit p % 64 of word p / 64, from the least significant |
| `BitmapBytes.RunMeans` | src/pack/ewah.rs:149-203 | a run word is a bit, 32 bits of run length and 31 bits of literal count, and decodes to that many equal words and that many of the words behind it |
| `BitmapBytes.StoredMeans` | src/pack/ewah.rs:109-118 | size in bits, number of words, the words, position of the last run word, most significant byte first |
| `Bitmap.PackOrderPermutes` | src/pack/bitmap.rs:66-72 | pack order is a permutation of the rows by increasing offset |
| `Bitmap.WriteReverseIndex` | src/pack/bitmap.rs:150-177 | the reverse index lists the rows in pack order |
| `Bitmap.ReverseReads` | src/pack/bitmap.rs:144-177 | word k is the index row of the object at pack position k |
| `BitmapBytes.ReverseMeans` | src/pack/bitmap.rs:150-177 | `RIDX`, version 1, hash 1 for SHA-1 and 2 for SHA-256, then the rows, then the digest of the packfile |
| `Bitmap.TypeBitmap` | src/pack/bitmap.rs:181-184 | marks exactly the given positions and can be stored |
| `Bitmap.TypesPartition` | src/pack/bitmap.rs:88-114 | every position is in exactly one of the four type bitmaps |
| `BitmapBytes.TypesMean` | src/pack/bitmap.rs:88-114 | the four type bitmaps mark commits, trees, blobs and tags, in this order |
| `BitmapBytes.BitmapMeans` | src/pack/bitmap.rs:103-141 | `BITM`, version 1, flag 1, count, digest of the packfile, the four type bitmaps, then each entry's row, two zeros and bitmap, and a digest at the end |
| `Bitmap.WriteBitmap` | src/pack/bitmap.rs:55-141 | fails exactly when a row's object is missing or a selected commit reaches an unparsable object; each type bitmap marks the positions of its type, and each selected commit's bitmap exactly the positions of what it reaches, in row order |
| `Bitmap.FileReads` | src/pack/bitmap.rs:22-27 | a file whose header counts its entries reads back to the same bitmaps |
| `Bitmap.HeaderCounts` | src/pack/bitmap.rs:103-120 | the header counts the entries, and the file reads back, if and only if every selected commit is in the packfile |

## Left out

- ShallowBoundary.ExactForAllWants: stores in which a commit names a tag as its parent; there the order of a commit's own parents decides too.
- ShallowBoundary.EvenTagsExact: the same stores.
- PackWriter.RandomAccess: asks that no external base is also an entry; `PackWriter.ChainDecides` has the exact condition without it.
- PackAgreement.ReadersAgree: a resolver that contradicts an entry about the object of its id, for an entry named before it is decoded.
- PackAgreement.EntryBase: the same resolver.
- Flatten.FlattenInto: takes a ghost bound on how deep trees nest, since a store with a cyclic tree would make the source recurse without end.
- MergeTrees.TreeSwap: two orders whose final stores hold different objects under one id, which is a hash clash.
- MergeTrees.Merge: takes the same bound on nesting as `Flatten.FlattenInto`; the merged path set may hold both a file and a directory of one name; nothing is claimed about it being prefix-free.
- I/O errors of the database, of deflating and of hashing; errors carry no text.
- Zlib, hashes, signatures, CRC-32 and the block hash themselves (src/compress.rs, src/hash.rs, src/signing.rs).
- Textual rendering of hunks: prefixes, lossy UTF-8 and "No newline" markers (src/diff.rs:168-182); hunks are records of line numbers, counts and lines.
- Parsing of commit and tag text (src/object/commit.rs, src/object/tag.rs): the walks see parsed objects.
- Ignore files as a whole: line parsing, negation and floating patterns (src/ignore.rs:52-146), which add little to the matcher.
- `merge_base`, `is_ancestor`, `diff_trees`, `missing_tree_objects`, `pack_frame_end`, `verify_pack`: easier relatives of what is proved.
- The multi-pack index, which has the chunk table and search of the commit-graph (src/multi_pack_index.rs).
- Config, refs, remotes, LFS, worktrees, status, fsck, transports, the foreign interface and the command line.
- Allocation caps and capacity hints, which have no functional content.
