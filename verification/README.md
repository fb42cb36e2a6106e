# Verified models of libfdt, the debug-module host, the chunked memory adapter and three smaller cores

This project models the parts of the repository whose correctness is hardest to see from the code and proves
what they promise, for all inputs, runs and interleavings.

- **libfdt** (`fdt/`), version 17 blobs, and version 16 where they are converted. A blob is real bytes: header, reservation map, structure block and
  strings block (chapter 5 of the Devicetree Specification). Three layers are connected by proofs: bytes, token
  sequences (`Tokens`), and forests with cursors (`Forests`: a `Spot` is a forest with a hole, so an offset is a
  cursor). `Trees` decodes a forest into names and values. Read-only functions are methods on byte sequences.
  Editing functions are methods on a mutable buffer (`FdtRw.Dtb`, `FdtSw.Writer`) whose ghost field says which
  forest or which calls the bytes stand for. Functions that work on two overlapping buffers (`FdtOpen`, `FdtResize`)
  work on one memory. Each edit is proved to change the decoded tree exactly as a function on trees does, and what
  matters about those functions is proved as lemmas about lookups by path (`Merges`, `Phandles`, `References`,
  `OverlayLookups`). Loops that need not end are functions for one turn (`Loops`), and what they do on arbitrary bytes
  is a verdict: an error, a read outside the buffer, or no return.
- **Debug-module transfers** (`fesvr/dtm.cc`). `DebugModules` is a step machine after RISC-V External Debug Support
  0.13, sections 3.6 and 3.7: abstract register access, program buffer, automatic execution, and a hart that
  executes any positive number of instructions between two polls. `Dtm` holds the host loops.
- **Chunked memory adapter** (`fesvr/memif.cc`, `clear_chunk` of `fesvr/htif.cc`). The contract of the chunk backend
  is a precondition of its methods, so it is proved at every call.
- **Coroutine hand-off** (`fesvr/context.cc`, pthread branch). `Contexts` is a transition system with one step per
  atomic action of each thread, spurious wake-ups included.
- **RV32I simulator** (`project_2/main.c`), against a reference step function written from the ISA manual, which `Rv32Values`
  in turn says in integers: every operation, instruction, encoding and immediate.
- **Memory regions** (`spike_main/spike.cc`): merging and page rounding.

`dafny verify dfyconfig.toml` checks everything.

## What the proofs found

The models follow the code. Where it does less than one would expect, the exact condition is a contract.

- `fdt_next_tag` does not advance on a property whose length word is 0xfffffff4 (`Tokens.NextTagAdvances`,
  an if-and-only-if; `Tokens.NextTagCanStandStill` is an instance). `fdt_next_node`, `fdt_check_full` and the loop of
  `fdt_open_into` end exactly when they do not come to one (`Scans.NodeScanSpins`, `Checks.VerdictSpins`,
  `StructSizes.BlockEndEnds`).
- `fdt_check_full` accepts malformed blobs with length words from 0xfffffff5 on. Accepted and valid are the same
  exactly without such words (`Checks.AcceptedIsValid`; `Checks.MalformedAccepted` is an instance). With 0xfffffff4 it
  may not return (`Checks.NeverReturns`).
- `fdt_generate_phandle` answers 0 with success when some node has phandle 0xffffffff (`FdtPhandle.GeneratePhandle`,
  `Phandles.ReservedPhandle`).
- `fdt_open_into` with reordering reads `boot_cpuid` after it has written the buffer. It is kept exactly when the
  new image does not touch that word of the old header (`BootCpus.BootKeptExactly`; `BootCpus.BootLost` is an instance).
- `fdt_rw_probe_` tests the block order with room for one reservation only, so the list may reach into the other blocks.
  `fdt_pack` then may write behind its buffer (exactly when `Overlaps.PackStrays` says; `Overlaps.GrowsPastItsEnd`) or
  move one block over another (exactly without `FdtPack.PackSafe`, by `FdtPack.PackSafeExact`; `Overlaps.LosesName`).
  `fdt_add_mem_rsv` may put its entry into the structure block (exactly when `FdtMemRsv.AddKeepsExactly` says;
  `Overlaps.ReplacesTree`), and `fdt_del_mem_rsv` may move half of it away (`FdtMemRsv.RsvRemovedParts`;
  `Overlaps.RemovesTree`).
- `fdt_del_mem_rsv` of the only entry may leave a layout that the probe refuses (`FdtMemRsv.DelMemRsv`;
  `Overlaps.RefusedWithoutEntry`).
- `fdt_add_mem_rsv` with size zero adds a terminator, so the list does not grow (`FdtMemRsv.RsvAddedParts`).
- Two unsigned comparisons wrap: for an in-place write behind a value (`FdtWip.PartialStrays`,
  `FdtWip.PartialCanStray`) and for a string longer than the buffer (`FdtSw.RoomTest`, `FdtSw.RoomTestPasses`).
- An overlay node whose phandle is only in "linux,phandle" loses it to a "phandle" of the base node it is merged into
  (`OverlayLookups.PhandleArrives` says exactly when; `OverlayLookups.PhandleLost` is an instance).
- `clear_chunk` stores to the second word of its host array of data words whatever the register width, so on a module
  with a single one it writes behind the array (`Dtm.ClearChunk`, an if-and-only-if; `Dtm.ClearChunkStrays`).
- Page rounding in `make_mems` can wrap around unnoticed (`MemRegions.RoundedCovers`, an if-and-only-if, and
  `MemRegions.RoundingWraps`).

## Model

| member | source | states |
|---|---|---|
| `Tokens.NextTagAdvances` | fdt/fdt.c:131-182 | `fdt_next_tag` fails or advances by at least one word inside the tag-aligned block exactly unless it stands on a property whose length word is 0xfffffff4; then it does not move |
| `Tokens.NextTagCanStandStill` | fdt/fdt.c:131-182 | a concrete block on which the tokenizer answers offset 0 for offset 0: the failing family of the row above is not empty |
| `Tokens.NextTagToken` | fdt/fdt.c:131-182 | tokenizing the bytes of an encoded token at its place gives back its tag and lands exactly on the next token |
| `Tokens.NextTagErrors` | fdt/fdt.c:131-182 | TRUNCATED exactly when the tag word does not lie inside the block, BADSTRUCTURE exactly for an unknown tag word, a name without NUL, or a property whose span (modulo 2^32) leaves the block; there is no other failure |
| `Tokens.KnownTags` | fdt/fdt.h:53-58 | the bytes of every token as they stand in a blob, tag words 1, 2, 3, 4 and 9 in big-endian order |
| `Tokens.EncConcat` | fdt/fdt.c:131-182 | the bytes of two token runs are the concatenation of their bytes; every other statement about offsets rests on it |
| `Fdt.NextTag` | fdt/fdt.c:131-182 | the loop over names, the signed offset arithmetic and the bounds tests together compute the tokenizer function of the structure block, for every offset and every block |
| `Fdt.OffsetPtrExact` | fdt/fdt.c:114-129 | for version 16 and 17 headers alike, the three wrap-around tests hold exactly when the bytes lie inside the structure area |
| `Fdt.SkipName` | fdt/fdt.c:143-152 | the name loop ends just past the first NUL, or fails exactly when there is none before the end of the block |
| `Fdt.CheckOffset` | fdt/fdt.c:184-200 | a node or property offset is accepted exactly when it is a non-negative multiple of four with the wanted tag, and answered with the next offset |
| `Fdt.NextNode` | fdt/fdt.c:202-240 | on any structure block, well nested or not, on which the scan does not meet a standing tokenizer: the call returns what the scan says, and an offset it returns is later than the one it was given |
| `Fdt.NextNodeAt` | fdt/fdt.c:202-240 | on a blob that carries a forest one call ends on the next BEGIN_NODE with the right depth, past the END_NODE that makes a tracked depth negative, or with NOTFOUND |
| `Scans.NodeScanEnds` | fdt/fdt.c:202-240 | the loop of `fdt_next_node` ends exactly when its scan is not the spinning one, for every block, offset and depth |
| `Scans.NodeScanSpins` | fdt/fdt.c:202-240 | and it spins exactly when some turn of it stands on a property whose length word is 0xfffffff4 |
| `Walks.EndWalkCloses` | fdt/fdt_wip.c:73-81 | counting depth down over any forest arrives at the END_NODE that closes it: bracket matching |
| `Fdt.NodeEndOffset` | fdt/fdt_wip.c:73-81 | the offset just past the END_NODE that matches the node, whatever is nested inside |
| `Fdt.FirstSubnode` | fdt/fdt.c:242-251 | the first direct child, never a deeper node, or NOTFOUND when there is none |
| `Fdt.NextSubnode` | fdt/fdt.c:253-268 | the next sibling node, skipping the whole subtree of the current one, or NOTFOUND |
| `Walks.SiblingIsFirst` | fdt/fdt.c:253-268 | the depth-counting sibling walk finds the first node among the remaining items of the same parent |
| `Walks.SubnodesInOrder` | fdt/fdt.c:242-268 | first-then-next yields exactly the direct children of a node, in order, and then stops |
| `Walks.SearchIsFindChild` | fdt/fdt_ro.c:211-228 | the depth-counting name search over the whole subtree is the search among the direct children |
| `Visits.VisitsAll` | fdt/fdt.c:202-240 | calling `fdt_next_node` again and again from -1 visits the nodes in document order, then stops |
| `Visits.VisitedAll` | fdt/fdt.c:202-240 | no BEGIN_NODE token is missed by that walk |
| `Visits.VisitedInOrder` | fdt/fdt.c:202-240 | the visited nodes lie at strictly increasing token positions |
| `Visits.WalkOfValidBlob` | fdt/fdt.c:202-240 | on every valid blob the walk from -1 visits every BEGIN_NODE at increasing offsets and then returns NOTFOUND |
| `Visits.WalkOfAccepted` | fdt/fdt.c:202-240 | on every blob that `fdt_check_full` accepts, malformed ones included, the walk from -1 visits exactly the BEGIN_NODE tags that the tokenizer meets, at increasing offsets, and then returns NOTFOUND |
| `Fdt.FindString` | fdt/fdt.c:270-280 | the first place where the string stands with its NUL, also as the tail of a longer name; -1 exactly when there is none |
| `Fdt.OccursMeans` | fdt/fdt.c:270-280 | a name stands at an offset exactly when reading the string there gives that name |
| `Checks.BalancedIsForest` | fdt/fdt_ro.c:859-897 | a token sequence closes what it opens exactly when it is the flattening of some forest |
| `Checks.CheckHeaderExact` | fdt/fdt.c:73-112 | the 32-bit header tests amount to exact bounds on all three blocks |
| `Checks.HeaderErrors` | fdt/fdt.c:73-112 | for every header of any version: BADMAGIC, BADVERSION and 0 exactly under the stated conditions on the words themselves, TRUNCATED otherwise |
| `Checks.NumMemRsv` | fdt/fdt_ro.c:175-185 | the index of the first entry of size zero, TRUNCATED exactly when the map is cut off before one |
| `Checks.CheckTokens` | fdt/fdt_ro.c:859-897 | on every structure block the token loop returns, reads a word outside its buffer or runs for ever as the verdict of the block says |
| `Checks.CheckFull` | fdt/fdt_ro.c:837-898 | the verdict on every buffer of the declared size, the word it would read behind that buffer included; it returns whenever the verdict says so |
| `Checks.AcceptedIsValid` | fdt/fdt_ro.c:837-898 | a blob is valid (sound header, terminated reservation map, well-nested tokens, readable names) exactly when it is accepted and no length word met on the walk makes twelve plus it wrap around |
| `Checks.MalformedAccepted` | fdt/fdt_ro.c:837-898 | a concrete blob with length word 0xfffffffd that is accepted although no token sequence encodes it |
| `Checks.NeverReturns` | fdt/fdt_ro.c:837-898 | a concrete blob with length word 0xfffffff4 on which `fdt_check_full` does not return |
| `Checks.VerdictEnds` | fdt/fdt_ro.c:859-897 | the token loop ends exactly when the verdict is not that it spins |
| `Checks.VerdictSpins` | fdt/fdt_ro.c:859-897 | and it spins exactly when it comes to a property whose length word is 0xfffffff4 |
| `FdtRo.GetString` | fdt/fdt_ro.c:34-87 | the NUL-terminated string at the offset of the strings block and its length; BADOFFSET or TRUNCATED exactly when there is none |
| `Checks.NameErrors` | fdt/fdt_ro.c:34-87 | a name can be read exactly when there is a NUL at or behind its offset inside the block; TRUNCATED when there is none, BADOFFSET when the offset is not inside |
| `FdtRo.StringEq` | fdt/fdt_ro.c:94-101 | true exactly when that string is the given one |
| `FdtRo.GetName` | fdt/fdt_ro.c:286-322 | the name of the node under the offset |
| `FdtRo.NodenameEq` | fdt/fdt_ro.c:13-32 | true exactly when the node's name is `s`, or `s` has no '@' and the node's name is `s`, an '@' and some unit address |
| `Trees.NameMatchMeans` | fdt/fdt_ro.c:13-32 | the byte comparison is that condition, for every pair of names |
| `FdtRo.NextProp` | fdt/fdt_ro.c:187-209 | on any structure block `nextprop_` returns what its scan says; the scan skips NOPs only and always ends |
| `FdtRo.PropScanAt` | fdt/fdt_ro.c:187-209 | on a blob that carries a forest that is the next property before any other item, or NOTFOUND |
| `FdtRo.GetProperty` | fdt/fdt_ro.c:379-406 | offset and length of the first property of the node with that name, among the properties before its subnodes |
| `FdtRo.GetpropByOffset` | fdt/fdt_ro.c:453-479 | name and value of the property under the offset, read from both blocks |
| `FdtRo.SubnodeOffset` | fdt/fdt_ro.c:211-228 | the offset of the first of the direct children, in order, whose name is the given one or that name with a unit address; NOTFOUND exactly when there is none |
| `Walks.FindChildFirst` | fdt/fdt_ro.c:211-228 | the search finds the first of the direct children that answers to the name, and nothing exactly when none does |
| `Trees.ChildOfFirst` | fdt/fdt_ro.c:211-228 | so does the lookup in the decoded tree, over its list of subnodes |
| `Edits.FindPropReads` | fdt/fdt_ro.c:379-406 | looking a property up in the bytes is looking it up in the decoded tree |
| `Edits.FindChildReads` | fdt/fdt_ro.c:211-228 | looking a subnode up in the bytes is looking it up in the decoded tree |
| `Trees.DecodePlug` | fdt/fdt_ro.c:453-479 | decoding commutes with putting a part into its place: nothing outside a node depends on what is inside it |
| `FdtPath.SupernodeAtDepth` | fdt/fdt_ro.c:573-607 | the offset of the ancestor at that depth and the depth of the node; NOTFOUND exactly for depths outside 0..depth |
| `Paths.AncDepth` | fdt/fdt_ro.c:573-607 | the ancestor at depth i is enclosed by exactly i nodes, the first i that enclose the node |
| `FdtPath.NodeDepth` | fdt/fdt_ro.c:609-618 | the number of enclosing nodes |
| `FdtPath.ParentOffset` | fdt/fdt_ro.c:620-628 | the offset of the enclosing node in the decoded tree; NOTFOUND for the root |
| `FdtPath.GetPath` | fdt/fdt_ro.c:521-571 | the buffer holds the path of the node with its NUL; NOSPACE exactly when the buffer is shorter than that or than two bytes |
| `Paths.PathStringMeans` | fdt/fdt_ro.c:521-571 | the path of a node, written out: a slash and its name for each enclosing node and the node itself, and '/' for the root |
| `FdtPath.GetPathLen` | fdt/fdt_overlay.c:650-676 | the length of exactly that path |
| `FdtPath.PathOffset` | fdt/fdt_ro.c:236-279 | for a path that spells some names, with any number of slashes in front of and behind each: the node reached by taking, name by name, the first direct child that answers to it; NOTFOUND exactly when one step finds none |
| `FdtPath.ResolveSteps` | fdt/fdt_ro.c:236-279 | resolving a path byte by byte takes those steps |
| `FdtPath.EverySpelled` | fdt/fdt_ro.c:236-279 | every absolute path spells some names, so the statement covers all of them |
| `FdtPath.PathsAreInverse` | fdt/fdt_ro.c:236-279 | resolving the path string of a node gives that node, for nodes with non-empty slash-free names and no earlier sibling answering to them |
| `FdtPath.ResolveJoined` | fdt/fdt_ro.c:236-279 | following the names of the ancestors arrives at the node with the rest of the path unread |
| `Paths.ScanToward` | fdt/fdt_ro.c:587-600 | a walk from the root toward a node stays on offsets up to it and its depth is the number of enclosing nodes |
| `Paths.OffOrder` | fdt/fdt_ro.c:587-600 | byte offsets of one blob are ordered as its tokens are, so `offset <= nodeoffset` never passes the node |
| `FdtRw.Dtb.Splice` | fdt/fdt_rw.c:52-65 | everything behind the gap moves by the difference, exactly when it still fits |
| `FdtRw.Dtb.SpliceStruct` | fdt/fdt_rw.c:80-92 | and the two header words follow; without room nothing changes |
| `FdtRw.ProbeMeans` | fdt/fdt_rw.c:25-39 | which headers an editing call accepts, word by word; a sound header that it refuses gets BADLAYOUT |
| `Layouts.StructSplicedParts` | fdt/fdt_rw.c:80-92 | a splice keeps reservations and strings byte for byte, the block order, and the structure bytes on both sides of the gap |
| `Layouts.StringAddedParts` | fdt/fdt_rw.c:102-113 | a name appended to the strings leaves the other blocks alone |
| `Layouts.StringRolledBack` | fdt/fdt_rw.c:95-100 | taking the last string back restores header, structure, strings and reservations |
| `FdtRw.Dtb.FindAddString` | fdt/fdt_rw.c:115-139 | an offset at which the name can be read: an existing one, shared suffixes included, or a new one appended; a string is added exactly when it occurs nowhere |
| `Edits.EditTokens` | fdt/fdt_rw.c:80-92 | replacing the tokens under a cursor replaces exactly their bytes: in-place edits commute with decoding |
| `Edits.OffsetsShift` | fdt/fdt_rw.c:80-92 | tokens before an edit keep their offsets and every token behind it moves by exactly the difference in size |
| `FdtRw.Dtb.ResizeProperty` | fdt/fdt_rw.c:170-186 | the property keeps its name and place and has the new length; NOTFOUND and NOSPACE exactly when due |
| `FdtRw.Dtb.AddProperty` | fdt/fdt_rw.c:188-218 | a property in front of the items of the node; NOSPACE exactly when token and missing name do not fit, and then the name is rolled back |
| `FdtRw.Dtb.SetpropPlaceholder` | fdt/fdt_rw.c:243-259 | the node has one cell for the name with the new length, the other items as before |
| `FdtRw.Dtb.Setprop` | fdt/fdt_rw.c:261-274 | the decoded tree changes by setting that property of that node and nothing else; NOSPACE exactly when the needed bytes exceed the free ones, and then it means what it meant |
| `FdtRw.SetNeedsMeans` | fdt/fdt_rw.c:241-274 | the room that setting takes: the difference of the aligned lengths when the node has the property, else a cell, and the name when no string of the block reads as it |
| `Trees.SetPropReads` | fdt/fdt_rw.c:261-274 | setting a property makes it readable and leaves every other property as it was |
| `Trees.PropOfFirst` | fdt/fdt_ro.c:379-406 | a property lookup gives the value of the first property of that name in front of the subnodes, and nothing exactly when there is none |
| `Trees.SetPropList` | fdt/fdt_rw.c:261-274 | setting a property exchanges the first value of that name, or puts the property in front of all others; what follows the properties stays |
| `Trees.DropPropList` | fdt/fdt_rw.c:303-316 | deleting takes the first property of that name out of the list and nothing else |
| `FdtRw.Dtb.Appendprop` | fdt/fdt_rw.c:276-301 | afterwards the property reads as its old value followed by the new bytes, or as the new bytes when it was not there; every other property, and all subnodes, read as before; exact space condition |
| `Trees.AppendPropReads` | fdt/fdt_rw.c:276-301 | the function on trees that says so, looked up by name |
| `FdtRw.Dtb.Delprop` | fdt/fdt_rw.c:303-316 | the decoded tree loses exactly that property; NOTFOUND exactly when it was absent |
| `FdtRw.Dtb.SetName` | fdt/fdt_rw.c:220-241 | the decoded tree differs in that name only; exact space condition |
| `FdtRw.Dtb.AddSubnode` | fdt/fdt_rw.c:318-357 | an empty node after the properties of the parent, at the returned offset; EXISTS exactly when some direct child has the name or the name with a unit address, NOSPACE exactly when the node does not fit |
| `Trees.AddChildList` | fdt/fdt_rw.c:318-357 | the new node stands behind all properties and in front of everything that followed them |
| `FdtRw.Dtb.DelNode` | fdt/fdt_rw.c:364-376 | the decoded tree loses exactly that node with everything below it |
| `FdtRw.StillAt` | fdt/fdt_overlay.c:556-601 | edits inside a node keep the offset of the node valid |
| `FdtMemRsv.AddMemRsv` | fdt/fdt_rw.c:141-156 | on every sound blob the exact error and the exact bytes, wherever the list ends; when the place of the entry spares structure and strings the blob still means the same tree |
| `FdtMemRsv.AddKeepsExactly` | fdt/fdt_rw.c:141-156 | structure block and strings survive every possible entry if and only if the list ends in front of both, or passes the whole new place of a block and the bytes there are the same already |
| `FdtMemRsv.RsvAddedParts` | fdt/fdt_rw.c:141-156 | for every terminated list: it grows by the entry exactly when what follows still ends it, that is when the terminator has moved or zeros take its place; with an entry of size zero, which is a terminator, it stays as it is |
| `FdtMemRsv.DelMemRsv` | fdt/fdt_rw.c:158-168 | on every sound blob and every `n` the exact error and the exact bytes; if and only if the removal spares them structure and strings stay; the probe accepts the result exactly when an entry of room is left |
| `FdtMemRsv.RsvRemovedParts` | fdt/fdt_rw.c:158-168 | for every entry whose removal succeeds: the blocks stay exactly when they lie behind it or repeat sixteen bytes further on, and the list loses exactly that entry if and only if what was not moved reads as if it had been |
| `FdtMemRsv.RsvSplicedParts` | fdt/fdt_rw.c:67-78 | a splice of one entry anywhere behind the header, also inside another block, leaves a sound header with both offsets moved, and moves every byte behind it up to the end of the strings and no other |
| `Overlaps.ReplacesTree` | fdt/fdt_rw.c:141-156 | a concrete blob, accepted by the probe, whose structure block is the new entry after `fdt_add_mem_rsv` |
| `Overlaps.RefusedWithoutEntry` | fdt/fdt_rw.c:158-168 | a concrete tree with one reservation: without it tree and list are right, but the probe refuses the blob |
| `Overlaps.RemovesTree` | fdt/fdt_rw.c:158-168 | a concrete tree with four reservations: without the last one the probe accepts the blob and its structure block starts with no tag |
| `FdtWip.SetpropInplacePartial` | fdt/fdt_wip.c:13-31 | exactly the bytes from `idx` on of that value are replaced; NOTFOUND and NOSPACE exactly when due |
| `FdtWip.PartialStrays` | fdt/fdt_wip.c:26-29 | the unsigned test lets a write behind the value through exactly when the sum of offset and length wraps around to a length that fits |
| `FdtWip.PartialCanStray` | fdt/fdt_wip.c:26-29 | a concrete write of four bytes that starts 0xfffffffe bytes into a value of four and is let through |
| `FdtWip.SetpropInplace` | fdt/fdt_wip.c:33-49 | the value is replaced by one of the same length, any other length is refused |
| `FdtWip.NopRegion` | fdt/fdt_wip.c:51-57 | the region holds NOP tags and nothing else changes |
| `FdtWip.NopProperty` | fdt/fdt_wip.c:59-71 | decodes to the same tree as `fdt_delprop` would leave, changing only bytes of the property |
| `FdtWip.NopNode` | fdt/fdt_wip.c:83-94 | decodes to the same tree as `fdt_del_node` would leave, changing only bytes of the node |
| `Edits.NopsInvisible` | fdt/fdt_wip.c:51-57 | NOPs in front of items do not change what they decode to |
| `FdtPack.PackBlocks` | fdt/fdt_rw.c:378-398 | in place or to a disjoint place, the memory is that of three moves, each reading what the ones before it left, and the five header words |
| `FdtPack.NothingLostExactly` | fdt/fdt_rw.c:378-398 | for every blob whose image fits: the moves write exactly the wanted image if and only if none of them changes a byte that is still to be moved |
| `FdtPack.PackSafeExact` | fdt/fdt_rw.c:464-476 | a test on header and list size that is exact: it holds if and only if `fdt_pack` loses nothing of any blob with that header and as many reservations, whatever its contents and the alignment of its list |
| `FdtPack.Pack` | fdt/fdt_rw.c:464-476 | on every editable blob whose moves stay inside the buffer the exact bytes; when the moves spare what they need the decoded tree is the same |
| `FdtPack.PackedParts` | fdt/fdt_rw.c:464-476 | when no block is lost, packing keeps reservations, structure and strings, leaves no gaps, and the total size is the end of the strings |
| `FdtPack.PackedStays` | fdt/fdt_rw.c:464-476 | a packed blob is left as it is |
| `FdtPack.PackIdempotent` | fdt/fdt_rw.c:464-476 | packing twice is packing once |
| `Overlaps.PackStrays` | fdt/fdt_rw.c:464-476 | the moves stay inside the buffer exactly when the reservation list is terminated and there is room for the image; an unterminated list makes the first length, a `size_t`, larger than any blob |
| `Overlaps.GrowsPastItsEnd` | fdt/fdt_rw.c:464-476 | a concrete blob of 88 bytes, accepted by the probe, whose image has 120 |
| `Overlaps.LosesName` | fdt/fdt_rw.c:464-476 | a concrete blob with room for its image, accepted by the probe, whose property loses its name |
| `FdtOpen.Move` | fdt/fdt.c:282-291 | the blob is copied as it was, also over itself; NOSPACE exactly when it does not fit |
| `StructSizes.StructSize` | fdt/fdt_rw.c:417-422 | the loop over a block of unknown size: the end of its first END tag or the exact negative error |
| `StructSizes.EncodedEnd` | fdt/fdt_rw.c:417-422 | of an encoded block it finds exactly the encoded size |
| `StructSizes.EndEncodes` | fdt/fdt_rw.c:417-422 | and where it finds a size without meeting a wrapping length word, that part of the block is the encoding of some tokens up to END |
| `StructSizes.BlockEndEnds` | fdt/fdt_rw.c:417-422 | the loop ends exactly when the tokenizer does not stand still on the way |
| `FdtOpen.OpenInto` | fdt/fdt_rw.c:400-462 | version 16 and 17 input, any overlap of blob and buffer: the exact verdict; a straight copy with three header words set, or a reordered blob; reservations, tokens and strings are kept, version and structure size are set, nothing outside the buffer changes |
| `FdtOpen.OpenVerdictMeans` | fdt/fdt_rw.c:400-462 | for version 17 with a terminated list: a blob in order must fit the buffer as it is; else the image must fit, and, where its place overlaps the old blob, fit a second time behind that; otherwise NOSPACE |
| `FdtOpen.OrderedIsTidy` | fdt/fdt_rw.c:13-24 | for a terminated list the unsigned order test is exactly that the blocks follow each other with the whole list in front |
| `FdtOpen.EncodedBlock` | fdt/fdt_rw.c:417-422 | the structure taken over from a version 16 blob is the encoding of its tokens |
| `BootCpus.BootKeptExactly` | fdt/fdt_rw.c:452-459 | a reordering keeps every boot CPU exactly when the new image does not touch the old header word that holds it, for every memory, place and size |
| `BootCpus.BootFromImage` | fdt/fdt_rw.c:452-459 | where the image covers that word, the boot CPU of the result is read from the image |
| `BootCpus.BootLost` | fdt/fdt_rw.c:452-459 | a concrete memory in which boot CPU 5 becomes 17 |
| `FdtSw.Writer.CreateWithFlags` | fdt/fdt_sw.c:105-137 | an unfinished blob without reservations or tokens, its header word by word; NOSPACE and BADFLAGS exactly when due |
| `FdtSw.Writer.GrabSpace` | fdt/fdt_sw.c:90-103 | space is handed out exactly when the ends of the buffer leave it; the strings at the other end are untouched |
| `FdtSw.Writer.AddReservemapEntry` | fdt/fdt_sw.c:180-198 | the entry is recorded; BADSTATE after the map was finished, NOSPACE exactly when it does not fit |
| `FdtSw.Writer.FinishReservemap` | fdt/fdt_sw.c:200-209 | the map is terminated and the builder enters the struct state |
| `FdtSw.Writer.BeginNode` | fdt/fdt_sw.c:211-226 | the event is recorded; NOSPACE exactly when the padded name does not fit, and then not a byte changes |
| `FdtSw.Writer.EndNode` | fdt/fdt_sw.c:228-240 | the event is recorded, whether or not a node is open |
| `FdtSw.Writer.AddString` | fdt/fdt_sw.c:242-257 | the string stands in front of the others at a negative offset, exactly when it fits between the two ends |
| `FdtSw.RoomTest` | fdt/fdt_sw.c:249-252 | the unsigned room test refuses exactly the strings that would run into the structure, and lets those through that would start in front of the buffer |
| `FdtSw.RoomTestPasses` | fdt/fdt_sw.c:249-252 | a concrete header with total size 100 for which a name of 200 bytes passes the test |
| `FdtSw.Writer.NameOffset` | fdt/fdt_sw.c:268-283 | a negative offset at which the name is read; a string is added exactly when it occurs nowhere or de-duplication is off |
| `FdtSw.Writer.Property` | fdt/fdt_sw.c:285-327 | name and value are recorded; NOSPACE exactly when they do not fit, and then tokens, strings and header are as before |
| `SwLayouts.TailRolledBack` | fdt/fdt_sw.c:260-266 | taking the last string back restores the builder |
| `SwLayouts.TailGrownParts` | fdt/fdt_sw.c:242-257 | the strings growing downwards never touch the structure growing upwards |
| `FdtSw.Writer.Relocate` | fdt/fdt_sw.c:351-367 | every name offset is made non-negative in one pass over the tokens, all else unchanged |
| `FdtSw.Writer.Finish` | fdt/fdt_sw.c:329-376 | a complete blob with the same reservations, names and values, and its header word by word; NOSPACE exactly when the END tag does not fit |
| `RoundTrips.EventReadBack` | fdt/fdt_sw.c:329-376 | the i-th call is read back by the tokenizer at its place: node name, or property name and value, shared names included |
| `RoundTrips.RsvReadBack` | fdt/fdt_ro.c:161-173 | the i-th reservation is read back |
| `RoundTrips.RsvCounted` | fdt/fdt_ro.c:175-185 | `fdt_num_mem_rsv` stops at the first recorded entry of size zero |
| `RoundTrips.DepthsAgree` | fdt/fdt_sw.c:211-240 | open nodes after the tokens are the open begin calls |
| `RoundTrips.FinishedIsValid` | fdt/fdt_ro.c:837-898 | `fdt_check_full` on the finished blob, up to its total size, accepts exactly when the begin and end calls were balanced; then it is an editable tree |
| `FdtResize.Resize` | fdt/fdt_sw.c:144-178 | for any overlap of the buffers: the same reservations, tokens and calls, every pending name at its negative offset, the same state, nothing outside the new buffer changed; NOSPACE exactly when they do not fit |
| `FdtResize.HeadFirst` | fdt/fdt_sw.c:163-169 | moving the head first does not clobber the old tail when the new buffer starts at or before the old one |
| `FdtResize.TailFirst` | fdt/fdt_sw.c:166-169 | moving the tail first does not clobber the old head when it starts behind |
| `FdtPhandle.GetPhandle` | fdt/fdt_ro.c:487-502 | the phandle property, else the older linux,phandle, else 0 |
| `Phandles.PhandleMeans` | fdt/fdt_ro.c:487-502 | the word in the four-byte "phandle", without one that in the four-byte "linux,phandle", else 0 |
| `FdtPhandle.FindMaxPhandle` | fdt/fdt_ro.c:103-129 | the largest phandle of the tree |
| `Phandles.MaxIsLargest` | fdt/fdt_ro.c:103-129 | it bounds every phandle and is one of them unless there is none |
| `FdtPhandle.GeneratePhandle` | fdt/fdt_ro.c:131-147 | a fresh phandle exactly when no node has phandle 0xffffffff; otherwise the answer is 0 |
| `Phandles.ReservedPhandle` | fdt/fdt_ro.c:131-147 | a concrete tree with phandle 0xffffffff, for which the next one wraps to 0 |
| `FdtPhandle.NodeOffsetByPhandle` | fdt/fdt_ro.c:657-680 | the first node in document order that has the phandle; BADPHANDLE for 0 and 0xffffffff |
| `FdtPhandle.AddOffset` | fdt/fdt_overlay.c:116-139 | the cell grows by delta in place; NOTFOUND, BADPHANDLE and NOPHANDLES exactly when due |
| `Phandles.AddErrorMeans` | fdt/fdt_overlay.c:116-139 | NOTFOUND without the property, BADPHANDLE for another length than four, NOPHANDLES exactly when the sum is 0xffffffff or does not fit the cell |
| `FdtPhandle.AdjustNodePhandles` | fdt/fdt_overlay.c:156-177 | all phandles of the node and below are renumbered, or the first error is returned |
| `FdtPhandle.AdjustLocalPhandles` | fdt/fdt_overlay.c:193-199 | the whole overlay is renumbered |
| `Phandles.OwnFirst` | fdt/fdt_overlay.c:156-177 | renumbering the own cells of a node before or after those below it is the same |
| `Phandles.RenumberedFollow` | fdt/fdt_overlay.c:156-177 | renumbering commutes with following a path |
| `Phandles.RenumberedApart` | fdt/fdt_overlay.c:156-199 | with the maximum of the base as delta every nonzero overlay phandle exceeds all of the base, and distinct ones stay distinct |
| `FdtReferences.UpdateCell` | fdt/fdt_overlay.c:254-285 | one listed cell grows by delta modulo 2^32; BADOVERLAY exactly when it does not fit the value |
| `FdtReferences.UpdateCells` | fdt/fdt_overlay.c:254-285 | all listed cells of one property, in order |
| `FdtReferences.UpdateProps` | fdt/fdt_overlay.c:226-286 | all listed properties of one node |
| `FdtReferences.UpdateNodeReferences` | fdt/fdt_overlay.c:220-305 | two trees of one blob are walked while one of them is written: the listed cells below the node are updated, BADOVERLAY exactly when a listed property, node or cell is missing |
| `FdtReferences.UpdateLocalReferences` | fdt/fdt_overlay.c:324-342 | the cells listed in `__local_fixups__` are updated; nothing happens without it |
| `Regions.Rebased` | fdt/fdt_overlay.c:220-305 | overwriting a value outside a node keeps the offset and contents of the node |
| `References.CellOnce` | fdt/fdt_overlay.c:254-285 | a cell listed once and overlapping no other listed cell moves by delta exactly once |
| `References.PropsFitMeans` | fdt/fdt_overlay.c:229-282 | a list can be worked off exactly when each listed property is there, its list is whole words, and each word is the offset of a cell inside the value |
| `References.FixableMeans` | fdt/fdt_overlay.c:284-305 | and so at every listed subnode, each of which must be there |
| `References.BumpedLookup` | fdt/fdt_overlay.c:220-305 | along every path: a listed value has its listed cells updated and every other value is as before |
| `References.ReferencesKept` | fdt/fdt_overlay.c:220-342 | after renumbering and updating, each cell listed once names a node exactly when it named that node before |
| `FdtOverlay.ApplyNode` | fdt/fdt_overlay.c:556-601 | the base tree with the overlay node merged in at the target and nothing outside changed; NOSPACE exactly when the room runs out on the way, else exactly the room that is left |
| `FdtOverlay.ApplyProperties` | fdt/fdt_overlay.c:561-578 | the property loop sets every overlay property on the target, each within the room the ones before have left |
| `FdtOverlay.ApplySubnodes` | fdt/fdt_overlay.c:580-598 | the subnode loop merges or creates every overlay subnode, within the room that is left |
| `FdtOverlay.EnterChild` | fdt/fdt_overlay.c:580-594 | the child that stands for the overlay subnode: found, or created empty; NOSPACE exactly when there is none and its tags and name do not fit |
| `Merges.MergeLookup` | fdt/fdt_overlay.c:556-601 | by path: overlay values win, all others stay; a node is there exactly when it was in the base or is in the overlay |
| `FdtOverlayApply.GetTargetPhandle` | fdt/fdt_overlay.c:28-41 | 0 without a target, 0xffffffff for a malformed one, else its phandle |
| `FdtOverlayApply.GetTarget` | fdt/fdt_overlay.c:58-100 | by phandle the first node in document order that has it; by path the node that the spelled names lead to, in particular, for the path string of an unambiguous node, that node; BADPHANDLE for a cell of another length or 0xffffffff, BADOVERLAY with neither property, NOTFOUND when the search fails |
| `FdtOverlayApply.NamesSpelled` | fdt/fdt_overlay.c:28-41 | the names of the special nodes and properties, letter by letter |
| `Fragments.LookupSame` | fdt/fdt_overlay.c:58-100 | following a path in the bytes and in the decoded tree finds the same node |
| `Fragments.WithPhandleSame` | fdt/fdt_ro.c:657-680 | so does the search by phandle |
| `FdtOverlayApply.MergeFragment` | fdt/fdt_overlay.c:618-648 | one fragment merged at its target, or the error of the target lookup, or NOSPACE exactly when its room runs out |
| `FdtOverlayApply.OverlayMerge` | fdt/fdt_overlay.c:618-648 | every fragment with an overlay node in order, each into the result of those before; the exact return value, decided by the first fragment without target or room |
| `MergeRooms.FragsEnough` | fdt/fdt_overlay.c:556-648 | with as many bytes free as the fragments take when every name and node is new, the merge fails only for want of a target, exactly when the merge of the trees does |
| `MergeRooms.MergeErrorIs` | fdt/fdt_overlay.c:618-648 | whatever the room: a merge that returns 0 is the merge of the trees, and any other result is NOSPACE or the error of the first target that is missing |
| `FdtOverlayApply.AdoptOverlay` | fdt/fdt_overlay.c:829-881 | renumbering, then updating references, with the exact error of either |
| `FdtOverlayApply.OverlayApply` | fdt/fdt_overlay.c:829-881 | the exact return value for every base and room; on success the base means its old tree with all fragments of the adopted overlay merged in; the magic of the overlay is erased, on failure that of the base too |
| `OverlayLookups.AppliedReferences` | fdt/fdt_overlay.c:829-881 | by path, over the whole call, for any number of fragments: in the tree that applying the overlay leaves, a cell listed once, now below the target of its fragment, names a merged node of the same or another fragment exactly when it named that node in the overlay |
| `OverlayLookups.MergedByPath` | fdt/fdt_overlay.c:618-648 | for a fragment whose target-path spells names: in the merged tree every property path below the base node with those names reads the fragment's value, or without one what the base has there, whatever fragments precede and follow that spare it |
| `OverlayLookups.PhandleArrives` | fdt/fdt_overlay.c:618-648 | a merged node has the phandle it had in the overlay, in "phandle" or "linux,phandle", unless that is only in the latter and the base node has a "phandle"; then it has that one |
| `OverlayLookups.PhandleLost` | fdt/fdt_overlay.c:618-648 | a concrete fragment with phandle 2 in "linux,phandle" for a base node with phandle 1: the merged node has phandle 1 |
| `OverlayLookups.LaterKeeps` | fdt/fdt_overlay.c:618-648 | a property stays through all later fragments that do not go to its node with that property |
| `OverlayLookups.GraftElsewhere` | fdt/fdt_overlay.c:618-648 | a merge at one place is not seen by paths that do not lead there |
| `OverlayLookups.GraftFollow` | fdt/fdt_overlay.c:618-648 | what is merged at a target is found by the path of the target |
| `Memif.ChunkedMem.ClearChunk` | fesvr/htif.cc:196-203 | zeros exactly the range, in aligned chunks of at most the maximum size |
| `Memif.Read` | fesvr/memif.cc:9-40 | exactly the requested bytes for every address and length; every chunk access is aligned, whole units, at most the maximum |
| `Memif.ReadFront` | fesvr/memif.cc:12-23 | the unaligned front, after which the address is aligned unless nothing is left |
| `Memif.ReadBack` | fesvr/memif.cc:25-35 | the partial unit at the end |
| `Memif.ReadChunks` | fesvr/memif.cc:37-39 | the aligned middle |
| `Memif.Write` | fesvr/memif.cc:42-84 | changes exactly the addressed bytes to the given ones, also on the all-zero path |
| `Memif.WriteFront` | fesvr/memif.cc:45-57 | read, patch and write back change only the patch |
| `Memif.WriteBack` | fesvr/memif.cc:59-70 | and so at the end |
| `Memif.AllZero` | fesvr/memif.cc:72-75 | true exactly for a non-empty run of zeros |
| `Memif.WriteChunks` | fesvr/memif.cc:79-82 | the aligned middle |
| `Contexts.StepGood` | fesvr/context.cc:32-100 | every atomic step of every thread, spurious wake-ups included, keeps the invariant: one token, mutexes owned as positions say, wake-ups pending |
| `Contexts.HandOffSafety` | fesvr/context.cc:32-100 | in every interleaving at most one thread is in client code, and a blocked thread whose flag is set has its signal still coming |
| `Contexts.HandOffEnds` | fesvr/context.cc:81-100 | without client steps and spurious wake-ups a run has a bounded number of steps |
| `Contexts.SomeoneRuns` | fesvr/context.cc:43-100 | the threads never wait for each other in a circle: some thread can go on unless the token holder is in client code or has returned |
| `Contexts.SwitchArrives` | fesvr/context.cc:81-100 | when the thread in client code switches to u and the threads run until none can go on, u is in client code and every other live thread is blocked |
| `Contexts.StartReturns` | fesvr/context.cc:43-74 | when it starts a context instead, it is back in client code itself, and the new thread is alive and blocked like every other |
| `Contexts.FinishedByReturn` | fesvr/context.cc:33-41 | a step ends a thread exactly when it is a return of that thread from client code |
| `DebugModules.ProgramsDecode` | fesvr/dtm.cc:22-33 | the words the host encodes decode to the instructions meant |
| `Riscv.LoadFields` | fesvr/dtm.cc:22-33 | a load word carries its registers, width and offset, for all operands; likewise the other encoders |
| `DebugModules.KnownCommands` | fesvr/dtm.cc:40-41 | three commands of the host as words, with the fields where the specification has them |
| `DebugModules.ReadPass` | fesvr/dtm.cc:231-249 | one run of the read program loads the word at S0 into S1 and moves S0 on |
| `DebugModules.WritePass` | fesvr/dtm.cc:284-286 | one run of the write program stores S1 at S0 and moves S0 on |
| `DebugModules.ClearLoop` | fesvr/dtm.cc:389-392 | the loop on the hart ends and has zeroed exactly the words from S0 to S1, also up to the top of the address space |
| `Dtm.WaitNotBusy` | fesvr/dtm.cc:197-201 | polling ends in the state the hart reaches by itself, however fast it runs |
| `Dtm.RunAbstractCommand` | fesvr/dtm.cc:177-212 | loading program and data, starting, polling and reading back has the effect of the command run to its end, and the command error of that |
| `Dtm.SaveReg` | fesvr/dtm.cc:147-158 | the value of the register, registers and memory unchanged |
| `Dtm.RestoreReg` | fesvr/dtm.cc:160-175 | the register has the value, all else unchanged |
| `Dtm.ReadChunk` | fesvr/dtm.cc:219-270 | the bytes of exactly the range; registers and memory as before |
| `Dtm.WriteChunk` | fesvr/dtm.cc:272-343 | memory changed in exactly the range to the given bytes; registers as before |
| `Dtm.ClearChunk` | fesvr/dtm.cc:367-406 | the stores to the host arrays stay inside them exactly when the module has two data words, whatever the register width, and four program words; then memory is zeroed in exactly the range, registers are as before and the loop on the hart ends |
| `Dtm.ClearChunkStrays` | fesvr/dtm.cc:367-406 | a concrete 32-bit module with the single data word its registers need, on which a store leaves the array |
| `Dtm.WordBytes` | fesvr/dtm.cc:260-261 | copying the data words of a little-endian host gives the bytes of the value |
| `LittleEndian.LeOfBytes` | fesvr/dtm.cc:147-175 | words and bytes are inverse |
| `LittleEndian.LeFour` | fesvr/dtm.cc:256-322 | the first of four bytes counts once, the last 2^24 times |
| `Riscv.ImmediateI` | fesvr/dtm.cc:13-14 | an I immediate decodes back to itself |
| `Riscv.ImmediateS` | fesvr/dtm.cc:15-16 | an S immediate decodes back to itself |
| `Riscv.ImmediateSB` | fesvr/dtm.cc:17-18 | an even branch offset decodes back to itself |
| `Riscv.ImmediateU` | fesvr/dtm.cc:19-20 | an upper immediate decodes back to itself |
| `Riscv.ImmediateUJ` | fesvr/dtm.cc:21-22 | an even jump offset decodes back to itself |
| `Simulator.ImmIAgrees` | project_2/main.c:9-11 | the shifted and sign-extended field is the I immediate of the ISA, for every word |
| `Simulator.ImmSAgrees` | project_2/main.c:74 | the S immediate of the ISA |
| `Simulator.ImmBAgrees` | project_2/main.c:75 | the B immediate of the ISA |
| `Simulator.ImmJAgrees` | project_2/main.c:76 | the J immediate of the ISA |
| `Simulator.ShiftAgrees` | project_2/main.c:9-11 | the arithmetic shift of the host is the shift right arithmetic of the ISA, for every word and amount |
| `Simulator.FieldsAgree` | project_2/main.c:65-70 | the masked and shifted fields are those of the ISA |
| `Simulator.OffsetAgrees` | project_2/main.c:90-105 | the array index is the reference's offset for every aligned data address |
| `Simulator.SwitchAgrees` | project_2/main.c:122-205 | for every valid encoding the switch computes the ALU operation of the reference |
| `Rv32Values.AluMeans` | project_2/main.c:122-345 | every ALU operation in integers: sums and differences modulo 2^32, signed and unsigned order, logic bit by bit, shifts as multiplication or division by a power of two, rounded down for the signed one |
| `Rv32Values.TakenMeans` | project_2/main.c:359-384 | branches compare the signed integers |
| `Rv32Values.WordMeans` | project_2/main.c:103 | a loaded word is the sum of its four bytes, the first once, the last 2^24 times |
| `Rv32Values.StoredWord` | project_2/main.c:228-231 | a stored word is the word loaded from there, and no byte outside its four changes |
| `Rv32Values.OtherWord` | project_2/main.c:228-231 | words that do not overlap a store are as before |
| `Rv32Values.ComputeMeans` | project_2/main.c:122-351 | upper immediates and operations write one register, never x0, and move on by four modulo 2^32; nothing else changes |
| `Rv32Values.JumpMeans` | project_2/main.c:398-422 | jumps link the next instruction and go to the sum modulo 2^32, an indirect one to the even address at or below it |
| `Rv32Values.BranchMeans` | project_2/main.c:353-396 | a branch changes only the program counter, by its offset or by four |
| `Rv32Values.LoadMeans` | project_2/main.c:91-108 | which register value a load leaves, in bytes of the memory or from the input, by the integer address; where it faults |
| `Rv32Values.StoreMeans` | project_2/main.c:223-242 | which four bytes a store changes and what integer they then hold, or what it prints; where it faults |
| `Rv32Values.OpEncoding` | project_2/main.c:249-345 | a word that matches the ISA listing of a register operation decodes to it, with the registers of bits 11-7, 19-15 and 24-20 |
| `Rv32Values.OpImmEncoding` | project_2/main.c:122-205 | the same for the immediate operations |
| `Rv32Values.ShiftImmEncoding` | project_2/main.c:122-205 | the same for shifts by an immediate, funct7 included |
| `Rv32Values.BranchEncoding` | project_2/main.c:353-396 | the same for branches |
| `Rv32Values.OtherEncodings` | project_2/main.c:80-422 | the same for lw, sw, jalr, jal, lui and auipc |
| `Rv32Values.ImmediateMeans` | project_2/main.c:72-77 | the five immediates as signed integers, from the fields of the word where the ISA puts their bits |
| `BitValues.SumValue` | project_2/main.c:116 | addition of words is addition modulo 2^32 |
| `BitValues.MinusValue` | project_2/main.c:260 | subtraction is subtraction modulo 2^32 |
| `BitValues.OrderValue` | project_2/main.c:283-292 | the order of words is that of their integers |
| `BitValues.ShiftValue` | project_2/main.c:268-319 | shifts by the low five bits of the amount |
| `BitValues.SignedShiftValue` | project_2/main.c:321-325 | the shift with copies of the sign divides the signed integer, rounded down |
| `Simulator.Machine.StoreCase` | project_2/main.c:223-242 | an aligned store, output to the I/O word, or the fault of the reference |
| `Simulator.Machine.LoadCase` | project_2/main.c:91-108 | an aligned load, input from the I/O word, or the fault of the reference |
| `Simulator.Machine.Step` | project_2/main.c:80-430 | one turn of the loop is one reference step on pc, registers, memory, input and output; x0 is zero |
| `Simulator.Machine.Run` | project_2/main.c:60-431 | whole runs agree with the reference |
| `MemRegions.MemMap.Merge` | spike_main/spike.cc:117-143 | sorted, pairwise disjoint and covering exactly the addresses covered before, for every non-empty list without overflow |
| `MemRegions.ExtendedStep` | spike_main/spike.cc:131-136 | extending a region over the next one keeps order and coverage |
| `MemRegions.ContainedStep` | spike_main/spike.cc:128-130 | erasing a contained region keeps coverage |
| `MemRegions.RoundedCovers` | spike_main/spike.cc:163-171 | an accepted region is page-aligned and covers the requested one exactly when the rounded size is below 2^64; otherwise at most one page is left |
| `MemRegions.RoundingWraps` | spike_main/spike.cc:163-171 | two concrete requests for all but one byte: nothing is left of one, and one page of the other |

## Left out

- Device-tree versions other than 17, except version 16 in `fdt_next_tag` and `fdt_open_into`.
- Aliases: `fdt_path_offset` of a path without a leading slash.
- Offsets that are not those of a node or property, except in `fdt_next_tag`, `fdt_next_node`, `nextprop_` and the two offset checks: the tree functions require a node.
- Names and values so long that 32-bit sums wrap: sizes that keep the accesses inside are required, exactly those at fdt/fdt_sw.c:251 and fdt/fdt_wip.c:26.
- FdtSw.Writer.Property: requires the name to fit the buffer next to the strings; otherwise the source writes in front of the buffer (`FdtSw.RoomTest`), which is not described further.
- Checks.CheckFull: for a declared size from 28 to 39 requires the forty header bytes to be in memory, since the header check reads them all.
- FdtOverlayApply.OverlayApply: requires an overlay without `__fixups__` and `__symbols__`, because matching label strings (`overlay_fixup_phandle`, `overlay_symbol_update`) is not modelled.
- FdtOverlayApply.GetTarget: requires an absolute, NUL-terminated "target-path".
- FdtReferences.UpdateCell: copies four bytes at the listed offset before anything is tested. The model takes any word when they lie behind the buffer, and the result does not depend on it; that the read itself is then outside is not described.
- FdtReferences.UpdateLocalReferences: requires that `__local_fixups__` does not list itself and that no listed offset is above 0xfffffffb, where adding four wraps around; for single cells and lists the condition is the exact one.
- FdtMemRsv.AddMemRsv: of a list without terminator that starts less than 168 bytes into the blob, where the entry is inserted in the header or in front of the blob, the bytes are given, but not what they mean; the same holds for `fdt_del_mem_rsv` with a negative index.
- FdtPack.Pack: requires the moves to stay inside the buffer; what a move outside destroys is not described.
- FdtOpen.OpenInto: requires that the call returns and stays inside its buffer; for an unterminated list the straight copy is described byte by byte only.
- OverlayLookups.AppliedReferences: requires that no later fragment sets the listed property or the phandle of the named node again, that the named fragments and their `__overlay__` are the first to answer to their names, and distinct names without unit-address shorthands where the two are merged.
- OverlayLookups.MergedByPath: the same for the one property path, and names of the target path that are not taken by an earlier sibling answering to them.
- FdtPath.GetPath: requires a nameless root and names without slashes.
- FdtOverlay.ApplyNode: the tree functions take the first of several properties or siblings of one name as the source does; `Merges.MergeLookup` requires distinct overlay names and no unit-address shorthand clashes.
- The bytes an edit leaves behind the strings block, and padding inside grown storage: free for later use, not described.
- String lists, compatible strings, `fdt_addresses.c`, `fdt_strerror.c`, `fdt_empty_tree.c` and the typed wrappers: thin.
- Dtm.ReadChunk: what a running hart does before it is halted and after it is resumed is not modelled, so registers and memory are those of the halted hart; the same holds for the other chunk operations.
- CSR access, `fence_i`, hart enumeration, reset, 128-bit registers and failing bus accesses of the debug module.
- Memif.Read: the address range is inside one memory, so addresses do not wrap around; the unit size need not be a power of two, since masks are modelled as remainders.
- The ucontext branch of `context_t`, the destructor, and `pthread_create` failing.
- Contexts.HandOffEnds: a bound on the steps of a hand-off; that every enabled thread is scheduled is the duty of the scheduler. `Contexts.SwitchArrives` and `Contexts.StartReturns` say where it ends when no thread can go on; runs with spurious wake-ups are covered by safety only.
- `std::sort` is modelled by insertion, since any sorted permutation serves; the allocation of `mem_t` is not modelled.
- Simulator.Machine.Run: requires supported, valid encodings and aligned data addresses; file loading is not modelled, `scanf` and `printf` on the I/O word are an input and an output sequence.
- ELF loading, system calls, terminals, the disassembler and the other simulators of the repository: host I/O, tables or duplicates.
