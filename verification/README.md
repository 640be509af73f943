# A verified model of the kernel's message link, memory stack, file system and shell

The project models the parts of the kernel and of its companion hub whose behaviour depends on
state kept over many calls, and proves what that behaviour amounts to:

* **the message link**: packets built by the kernel, a hub that re-frames byte streams and routes
  packets between nodes, and the byte-at-a-time receiver of the kernel;
* **the memory stack**: a first-fit page allocator, slab caches on top of it, `kmalloc`/`kfree` on
  top of both;
* **the file system**: block and inode bitmaps, free counts, inode table, directories with freed
  slots and a terminator, files over direct blocks, name formatting, and the file encryption of the
  shell;
* **the shell's line editor** with its terminal line and its history ring;
* **number printing and parsing**.

Every component has two layers. A *value layer* (`Framing`, `RxPieces`, `HubModel`, `Link`, `LinkOrder`, `LinkServed`,
`PageAlloc`, `SlabModel`, `HeapModel`, `HeapExact`, `FsModel`, `FsWrite`, `FsDir`, `FsTree`, `FsOps`,
`FsRemove`, `FsRun`, `FsStale`, `FsBooks`, `FsInodes`, `FsReach`, `FsTall`, `FsTwice`, `Names`, `Crypt`,
`LineEditor`, `Numbers`) describes states and operations as functions, and carries
the theorems. An *in-place layer* (`Hub.HubServer`, `Receiver.MsgReceiver`,
`PageAlloc.PageAllocator`, `Lists`, `SlabCache.ObjectCache`, `FileSystems.FileSystem`,
`LineEditor.Editor`, and the loops of `Names`, `Crypt`, `Wire` and `Numbers`) has the loops, arrays,
bit operations and list links of the program, and is proved equal to the value layer step by step.

Main results, in short:

* Whatever bytes the peers send, however they are chunked and interleaved, and whichever sends fail,
  a node accepts exactly the messages addressed to it among the frames the hub sent it, in order
  (`Link.EndToEnd`); from each other node these are a selection of what that node sent, in its order
  and without duplicates (`LinkOrder.AcceptedSelection`). The hub forgets nobody: on a connection that
  stays, every broadcast and every frame for the id it then had is attempted
  (`LinkServed.EveryFrameAttempted`).
* The hub's scanner is the one parse that a declarative description of framing allows
  (`Framing.ParseCharacterised`), independent of chunking (`Framing.ChunkIndependence`). What the
  kernel's receiver delivers is characterised for every byte string as well (`RxPieces.Received`): it
  delivers nothing whose whole encoding, right check byte included, does not lie in what it read
  (`RxPieces.DeliveredLie`).
* After every run of `kmalloc`/`kfree` every byte of every live range is aligned storage of its own,
  clear of all headers, index stacks and cache records, in pages marked used
  (`HeapModel.EveryRunSafe`); and nothing leaks: the free-index stack of every slab is the complement
  of its live objects, every cache counts its live objects, and every used page belongs to something
  live (`HeapExact.EveryRunExact`).
* After every run of file-system operations from a formatted disk in which no bound name is bound once
  more, no directory is made in a stale block or written to as a file, no entry is created without a
  spare inode, and the code does not leave its structures (`FsRun.Allowed`): no block has two owners, the free-block counts are the numbers of
  clear bits, names are unique, every name leads to an inode in use and no inode has two names
  (`FsRun.EveryRunSafe`). Ownership and free-block counts survive the first three as well
  (`FsBooks.EveryRunBooks`). A failed write restores the whole disk (`FsWrite.WriteRollsBack`); what a
  successful one wrote is what is read after any operations on other files (`FsRun.ReadYourWrite`).
* Encrypting and decrypting restores a file (`Crypt.RoundTrip`).

## Where the code departs from what one would expect

The model follows the code. Each departure has a theorem with its exact condition; the file-system
ones marked *reached* also have a run from a formatted disk that ends there.

* `msg_poll` recognises a frame behind stray bytes exactly if it is idle when they end
  (`Receiver.RecognisedBehind`); so it loses one behind bytes that end in an odd number of first magic
  bytes, where the hub finds it (`Link.StrayBytes`).
* `krealloc` keeps the new page count in 16 bits and frees the old address after allocating
  (`PageAlloc.KreallocSize`, with `PageAlloc.KreallocWraps` and `PageAlloc.KreallocReleasesItself`).
* A full-length name of twelve characters is cut by `fsLookup` and not found again
  (`Names.LookupLaw`); its last character is not upper-cased, so that a second creation may succeed
  (`Names.ReformatLaw`) and bind the name twice: creation keeps the invariant exactly if it does not
  (`FsOps.CreateLaw`, `FsRun.SecondCreate`; reached, for every such name: `FsTwice.DoubleReached`).
* `fsMkdir` itself does not look for the name: in a block of zeros it keeps the invariant exactly if it
  binds none that is bound (`FsStale.MkdirSafe`).
* `fsCreate` ignores the result of `insertEntry`: in a directory that has neither a freed slot nor a
  terminator it reports success and binds nothing (`FsRun.LostEntry`; reached:
  `FsReach.LostEntryReached`); a directory gets there when its last slot is taken and no block is left
  (`FsRun.SealingInsert`). In the same situation `fsMkdir` fails but leaves a binding to a cleared
  inode (`FsStale.MkdirExact`; reached: `FsTwice.StrandedReached`).
* With no inode left, creating a file or a directory sets a block bit without charging it
  (`FsBooks.CreateBooks`, `FsBooks.MkdirBooks`; both reached: `FsReach.CreateBooksReached`).
* A `fsMkdir` that fails for want of a slot in the parent, or of a block to grow it, leaves the block it
  took marked and owned by nobody (`FsStale.MkdirExact`).
* `fsMkdir` does not clear the block it takes. The new directory binds exactly its dot entries if and
  only if the slots the block already holds bind nothing else and leave room for what they lack
  (`FsStale.MkdirExact`; with two slots free the first half decides, `FsStale.UnspoiltWhen`; reached:
  `FsReach.StaleMkdirReached`). A block can be stale because a write leaves free blocks zero exactly
  if the blocks it gives up are zero (`FsRun.WriteZeroes`).
* `fsRmdir` frees direct blocks only: a directory of more than twelve blocks leaves the others marked
  and owned by nobody (`FsRemove.RmdirLaw`; reached: `FsTall.TallRmdirReached`).
* Formatting counts eleven reserved inodes and marks ten, so the free-inode counts are one below the
  clear bits; a creation without a free block, or of the last inode, breaks even that
  (`FsInodes.InodeCounts`; reached: `FsReach.InodeCountsReached`).
* `fsFormat` clears neither data blocks nor inodes beyond the first block of the table: formatting a
  disk in use gives right books if and only if none of those inodes lists a block
  (`FsRun.FormatOverBooks`; reached: `FsReach.ReformatReached`).
* Decryption tests one byte: a wrong password is refused exactly if its first character differs
  (`Crypt.WrongPassword`).
* A recalled command that fills the line ends the call at once, so that ups and downs bring the draft
  back exactly if no command on the way fills the line (`LineEditor.UpsAndDowns`,
  `LineEditor.FullRecall`).
* `atoi` overflows on the text of the smallest `int` (`Numbers.RoundTrip`).

## Model

| member | source | states |
|---|---|---|
| `Wire.MsgSend` | src/msg.c:29-58 | refuses exactly an unset id, a bad target or a bad length; otherwise fills the buffer with the encoding of one valid frame |
| `Wire.ComputeChecksum` | src/msg.c:8-14 | the accumulating loop computes the exclusive-or of all bytes |
| `Wire.LengthBytes` | src/msg.c:44-50 | writing a length as two bytes and reading it back are inverse in both directions |
| `Wire.EncodeLayout` | src/msg.c:44-57 | the packet byte by byte: magic bytes, sender, target, length low byte first, payload, check byte |
| `Wire.ChecksumParity` | src/msg.c:8-14 | every bit of the check byte is the parity of that bit over all bytes |
| `Wire.ChecksumDetects` | src/msg.c:8-14 | a change of any one byte changes the check byte |
| `Framing.TakeIsPrefix` | scripts/ioslink-hub.c:117-143 | the scanner takes a frame here if and only if the stream begins with the encoding of that valid frame |
| `Framing.VerdictStable` | scripts/ioslink-hub.c:108-143 | a verdict once reached does not change when more bytes arrive |
| `Framing.SkipIsHopeless` | scripts/ioslink-hub.c:108-143 | a byte is dropped if and only if no continuation whatever lets a frame start there |
| `Framing.Completion` | scripts/ioslink-hub.c:117-139 | a stream the scanner waits on is a proper prefix of some frame, so waiting is never in vain |
| `Framing.ParseCharacterised` | scripts/ioslink-hub.c:105-181 | the scanner's result is the one and only parse that the declarative description allows |
| `Framing.ChunkIndependence` | scripts/ioslink-hub.c:105-181 | parsing a chunk and then its rest with the next chunk gives the frames and the rest of parsing both at once |
| `Framing.RestBound` | scripts/ioslink-hub.c:108-139 | what is left in the buffer is shorter than the longest frame |
| `Framing.ParseOfFrames` | scripts/ioslink-hub.c:105-181 | on encoded frames cut anywhere the parse finds exactly the complete ones and keeps the cut |
| `Receiver.RxRunAppend` | src/msg.c:67-126 | the receiver's state machine composes over any split of its input |
| `Receiver.WholeFrame` | src/msg.c:67-126 | a whole frame brings the receiver from idle to idle and delivers that frame |
| `Receiver.RecognisedBehind` | src/msg.c:67-126 | behind any bytes whatever the receiver recognises a frame if and only if it is idle when they end, and then delivers it |
| `Receiver.RxOfFrames` | src/msg.c:67-126 | on frames cut anywhere it delivers exactly the complete ones and is idle at each boundary |
| `RxPieces.Received` | src/msg.c:67-126 | every byte string is a sequence of pieces (noise, a lone first magic byte, a header with a bad length, a frame with a wrong check byte, a whole frame) and the beginning of one, and whichever way it is cut exactly the whole frames are delivered |
| `RxPieces.DeliveredLie` | src/msg.c:67-126 | for every byte string: the encodings of the frames delivered lie in it, at increasing places that do not overlap |
| `RxPieces.NothingElse` | src/msg.c:112-121 | a string in which no valid frame's encoding lies delivers nothing |
| `RxPieces.CorruptedByte` | src/msg.c:112-121 | a frame with any one byte behind the magic bytes changed, the length bytes excepted, is not delivered |
| `Receiver.MsgReceiver.Receive` | src/msg.c:73-124 | one byte, with in-bounds buffer writes, takes the state where the state machine says |
| `Receiver.MsgReceiver.Poll` | src/msg.c:67-126 | a poll delivers the (sender, payload) pairs of the recognised frames addressed to this node |
| `HubModel.RoutingLaw` | scripts/ioslink-hub.c:145-176 | a frame is handled and then sent once to each recipient: for a broadcast every other live peer, otherwise at most one holder of the target id; never to its sender |
| `HubModel.RouteKeepsTable` | scripts/ioslink-hub.c:145-176 | routing keeps node ids unique, teaches the hub the sender's id and never drops the slot being processed |
| `HubModel.BroadcastLog` | scripts/ioslink-hub.c:159-166 | a broadcast attempts the other live connections in slot order |
| `HubModel.LiveOthersComplete` | scripts/ioslink-hub.c:159-166 | each of them is attempted exactly once |
| `HubModel.ProcessLaw` | scripts/ioslink-hub.c:105-181 | processing a buffer handles exactly the frames of its parse, keeps the unparsed rest and the slot's connection, and terminates with the buffer length as measure |
| `HubModel.ProcessKeepsLog` | scripts/ioslink-hub.c:92-181 | after a failed send a connection gets nothing more, and every frame sent was handled before from another connection |
| `HubModel.AcceptLaw` | scripts/ioslink-hub.c:60-71 | the new connection gets the lowest unused slot, without id and with nothing received, and all other slots are as before; without an unused slot nothing changes |
| `HubModel.ServeCases` | scripts/ioslink-hub.c:278-301 | what a live slot does with each report of `recv`: dropped at the end of the stream or when full, left alone when there is nothing to read, otherwise the bytes that fit are taken in and the complete frames handled |
| `HubModel.SnapshotComplete` | scripts/ioslink-hub.c:245-258 | a round polls every live connection, in slot order, and nothing else |
| `HubModel.ServeLaw` | scripts/ioslink-hub.c:278-301 | serving a slot keeps the table in order and puts no new connection into any slot |
| `HubModel.StillPolled` | scripts/ioslink-hub.c:245-301 | within a round a slot that is still live is the connection that was polled |
| `Hub.HubServer.FindByNode` | scripts/ioslink-hub.c:73-79 | the loop finds the first slot that holds the id |
| `Hub.HubServer.SlotAlloc` | scripts/ioslink-hub.c:60-71 | the table in place changes as accepting does on values (`HubModel.AcceptLaw` says how) |
| `Hub.HubServer.Drop` | scripts/ioslink-hub.c:81-90 | the slot becomes unused and nothing else changes |
| `Hub.HubServer.RouteFrame` | scripts/ioslink-hub.c:145-176 | learning, broadcasting and forwarding in place are those of the value model |
| `Hub.HubServer.ScanMagic` | scripts/ioslink-hub.c:110-116 | the scan stops at the first place where a frame can start |
| `Hub.HubServer.ProcessPeer` | scripts/ioslink-hub.c:105-181 | the loop with its buffer shifts does to table, buffers and log what the value model does |
| `Hub.HubServer.ServeSlot` | scripts/ioslink-hub.c:278-301 | receiving into the buffer and processing it is the value model's turn of that slot |
| `Hub.HubServer.PollRound` | scripts/ioslink-hub.c:245-301 | a round of the main loop is the value model's round |
| `Link.RunOk` | scripts/ioslink-hub.c:191-306 | in every run each buffer is the unparsed rest of all its connection sent, and the frames handled are those of the parse of the whole stream |
| `Link.BufferNeverFull` | scripts/ioslink-hub.c:285-291 | the "buffer full" branch is unreachable |
| `Link.RoundIsRun` | scripts/ioslink-hub.c:245-301 | every round of the main loop is the run of its events: the connection accepted, if any, and one turn for each polled slot that is ready; so the theorems on runs cover it |
| `Link.HandledIsPrefix` | scripts/ioslink-hub.c:105-181 | of a node that sends only packets, exactly those whose last byte has arrived are handled, in order |
| `Link.StreamShape` | scripts/ioslink-hub.c:92-103 | what is put on a connection is whole frames, and a cut one only after a failed send |
| `Link.StreamCut` | scripts/ioslink-hub.c:92-103 | after a failed send the stream ends in as many bytes of its frame as were put on the connection, but not all |
| `Link.EndToEnd` | src/msg.c:67-126 | a node accepts exactly the messages addressed to it among the frames it has read completely, and is idle when nothing is cut |
| `Link.AcceptedWasSent` | scripts/ioslink-hub.c:145-176 | every accepted message was sent by some other node to this id |
| `LinkOrder.RunInGroups` | scripts/ioslink-hub.c:145-176 | in every run the log is a sequence of groups: a frame handled, then sent on at most once per connection and never to its own |
| `LinkServed.RunClaims` | scripts/ioslink-hub.c:145-157 | in every run the id that the table holds for a live connection is the sender of the last frame handled from it, until a frame with that sender comes from another one |
| `LinkServed.ConnectedIsLive` | scripts/ioslink-hub.c:267-278 | at every state of a run a new connection is live once it is accepted if a slot is unused, and otherwise nothing changes |
| `LinkServed.LeavesWhen` | scripts/ioslink-hub.c:278-301 | at every event of a run a live connection leaves the table if and only if its own stream ends or a send on it fails |
| `LinkServed.EveryFrameAttempted` | scripts/ioslink-hub.c:145-176 | in every run, on a connection that is live at some point and still live later, every broadcast in between and every frame for the id it then had was attempted before another frame was handled |
| `LinkOrder.AcceptedInOrder` | src/msg.c:67-126 | the messages a node accepts belong to frames handled from other connections, at increasing places of the log |
| `LinkOrder.AcceptedSelection` | scripts/ioslink-hub.c:145-176 | what a node accepts is, from each other node, an order-preserving and duplicate-free selection of what that one sent |
| `Link.StrayBytes` | src/msg.c:82-90 | behind any bytes among which the second magic byte does not occur the hub finds the next frame always, the receiver if and only if those bytes end in an even number of first magic bytes |
| `PageAlloc.KallocLaw` | src/mm/page_alloc.c:24-52 | first fit and complete: the lowest run of enough free pages is taken and nothing else changes; there is no result only if there is no such run |
| `PageAlloc.ReleaseLaw` | src/mm/page_alloc.c:83-95 | releasing gives back exactly the run that starts at the page; every other bit and count is as before |
| `PageAlloc.KreallocLaw` | src/mm/page_alloc.c:54-81 | the whole state after a resize: size 0 gives back exactly the run; a run that is long enough is cut to the pages asked for; otherwise the new run is recorded, the old one is gone and its pages are free, and nothing else changes; without room nothing changes at all |
| `PageAlloc.KreallocKeepsOk` | src/mm/page_alloc.c:54-81 | resizing any page keeps the bitmap the disjoint union of the recorded runs |
| `PageAlloc.KreallocSize` | src/mm/page_alloc.c:54-81 | the resized block has the pages asked for, exactly outside two cases |
| `PageAlloc.KreallocWraps` | src/mm/page_alloc.c:54-81 | a one-page block resized to 65537 pages stays one page long |
| `PageAlloc.KreallocReleasesItself` | src/mm/page_alloc.c:54-81 | resizing a free page that first fit picks returns a page that is free again |
| `PageAlloc.Conservation` | src/mm/page_alloc.c:9-19 | free pages, run lengths and the reserved page add up to all pages |
| `PageAlloc.EveryRunOk` | src/mm/page_alloc.c:24-95 | both hold after every sequence of calls, with interior and already freed addresses |
| `PageAlloc.EveryCallEffective` | src/mm/page_alloc.c:24-95 | in every run every call takes effect: the lowest fitting run is taken if there is one, the page's run is given back, or the block is cut or moved |
| `PageAlloc.PageAllocator.FindRun` | src/mm/page_alloc.c:30-50 | the loop with start and length of the current run finds the first fit |
| `PageAlloc.PageAllocator.PageAddresses` | src/mm/page_alloc.c:24-95 | every address of the pool belongs to one page, and the address of a page to that page |
| `PageAlloc.PageAllocator.Alloc` | src/mm/page_alloc.c:24-52 | bitmap bytes and counts in place are those of the value model |
| `PageAlloc.PageAllocator.Copy` | src/mm/page_alloc.c:54-81 | the forward byte copy copies every byte that lies before or behind the destination as it was, overlapping or not |
| `PageAlloc.PageAllocator.Resize` | src/mm/page_alloc.c:54-81 | for every address of the pool, aligned or not, bitmap and counts change as in the value model; a block that moves starts with the old bytes from that address to the end of its run, and no other byte changes |
| `PageAlloc.PageAllocator.PageFree` | src/mm/page_alloc.c:83-95 | the same for releasing any address of the pool |
| `SlabModel.AllocLaw` | src/mm/allocator.c:140-159 | keeps lists, stacks and counters consistent, hands out an object not in use and changes no other |
| `SlabModel.FreeLaw` | src/mm/allocator.c:190-216 | keeps them consistent and ends the use of exactly that object |
| `SlabModel.GrowLaw` | src/mm/allocator.c:107-126 | a new slab is entirely free and nothing else changes |
| `SlabModel.LiveInUse` | src/mm/allocator.c:196-200 | a slab with a live object has a positive count |
| `SlabModel.NewCacheOk` | src/mm/allocator.c:231-244 | a new cache is consistent and its objects are large enough |
| `SlabModel.NewCacheLaw` | src/mm/allocator.c:231-244 | its objects are rounded up to 16 bytes, and a slab has as many as fit a page with header and indices, but at least one |
| `SlabModel.ObjAddrLaw` | src/mm/allocator.c:119-147 | where object `i` of a slab lies |
| `SlabModel.SlabMemLaw` | src/mm/allocator.c:101-105 | the bytes asked for a slab |
| `SlabModel.LastInFirstOut` | src/mm/allocator.c:140-216 | of a slab the object given back last is handed out next |
| `HeapModel.CacheAllocGrant` | src/mm/allocator.c:128-159 | an object granted by a cache, grown if need be, was not in use and is the only one added |
| `HeapModel.CacheFreeLaw` | src/mm/allocator.c:190-229 | a release reaches the object's own slab; the guard against a slab without objects in use is unreachable |
| `HeapModel.MallocOk` | src/mm/allocator.c:285-329 | allocation keeps the heap invariant and adds exactly one live range |
| `HeapModel.MallocNull` | src/mm/allocator.c:285-329 | the result is null if and only if the size is 0, or the smallest of the classes 32, 64, ..., 4096 that holds size and header has no slab with a free object and no run of pages fits another one, or the request is larger than all classes and no run of pages fits it |
| `HeapModel.PickLawful` | src/mm/allocator.c:26-35 | the class picked is the smallest that holds the bytes, and there is none exactly beyond 4096 bytes |
| `HeapModel.MallocPlace` | src/mm/allocator.c:285-329 | where the granted block lies: an object of that class, or pages of its own, with the header in front |
| `HeapModel.SelectionLaw` | src/mm/allocator.c:128-159 | a cache serves the first partial slab, else the first free one, else a new one |
| `HeapModel.ReleaseOk` | src/mm/allocator.c:331-348 | releasing a live pointer keeps it and removes exactly that range |
| `HeapModel.LiveApart` | src/mm/allocator.c:285-348 | live ranges with their headers do not overlap |
| `HeapModel.ClearOfSlab` | src/mm/allocator.c:101-126 | live ranges are clear of every slab header and index stack |
| `HeapModel.LiveInPages` | src/mm/allocator.c:285-329 | user pointers are 16-aligned and all their bytes lie in pages marked used |
| `HeapModel.BootOk` | src/mm/allocator.c:254-283 | the heap is in order after initialisation |
| `HeapModel.EveryRunSafe` | src/mm/allocator.c:285-348 | after every run of calls each byte of each live range belongs to nothing else |
| `HeapModel.EveryCallEffective` | src/mm/allocator.c:285-348 | in every run a release ends the life of its pointer, and an allocation adds one range, exactly unless it is refused |
| `HeapExact.EveryRunExact` | src/mm/allocator.c:285-348 | after every run of calls an object off a free-index stack is a live allocation, each cache counts its live objects, and each recorded run of pages is the root record, a slab or a live large block |
| `HeapExact.StackIsComplement` | src/mm/allocator.c:140-216 | so the stack of free indices of every slab is exactly the complement of its live objects |
| `HeapExact.UsedPageKnown` | src/mm/page_alloc.c:9-19 | and every page marked used, but the reserved one, lies in the root record, a slab or a live large block |
| `HeapExact.BootRecordsExact` | src/mm/allocator.c:254-283 | the cache cache holds exactly the eight cache records, in one slab |
| `Lists.Append` | src/mm/allocator.c:69-79 | relinking in place gives the ring with the node at its end |
| `Lists.Remove` | src/mm/allocator.c:80-86 | relinking in place gives the ring without the node, which is left linked to itself |
| `Lists.Move` | src/mm/allocator.c:69-86 | both rings are well formed after a node has moved |
| `SlabCache.ObjectCache.CacheAlloc` | src/mm/allocator.c:128-159 | where a slab has a free object, selection, list moves, counters and the returned address in place are those of the value model; otherwise nothing changes |
| `SlabCache.ObjectCache.CacheGrow` | src/mm/allocator.c:107-126 | linking a new slab in place, with its record laid out, is the value model's growth |
| `SlabCache.ObjectCache.AllocOrGrow` | src/mm/allocator.c:128-159 | selection, growth where no slab has a free object, and the second try in place are the value model's allocation from a cache |
| `SlabCache.ObjectCache.CacheDealloc` | src/mm/allocator.c:190-229 | the search for the slab of an address and the return of its object in place are those of the value model |
| `SlabCache.ObjectCache.FindIn` | src/mm/allocator.c:217-229 | walking a list finds its first slab whose objects contain the address |
| `SlabCache.ObjectCache.constructor` | src/mm/allocator.c:231-244 | a new cache in place |
| `Names.FormatName` | src/fs/fs.c:1161-1207 | the in-place scan accepts exactly dotted names and names of one to eight letters or digits with an extension of up to three, and leaves the canonical key in the first eleven bytes |
| `Names.KeyBytes` | src/fs/fs.c:1161-1207 | a stored key is never mistaken for a slot marker |
| `Names.AcceptedLaw` | src/fs/fs.c:1161-1207 | accepted are exactly names that start with a dot and names of one to eight letters or digits, alone or with a dot and up to three more |
| `Names.StoredLaw` | src/fs/fs.c:1161-1207 | the stored bytes: base and extension in capitals, filled up with spaces; a character beyond the eleventh stays as it is |
| `Names.StoredDots` | src/fs/fs.c:1166-1177 | a name that starts with one or two dots is stored as these and spaces |
| `Names.KeyInjective` | src/fs/fs.c:1161-1207 | two names share a key if and only if base and extension agree after upper-casing the first eleven characters, so up to letter case for names of at most eleven |
| `Names.CaseBlind` | src/fs/fs.c:1153-1207 | for names of at most eleven characters letter case matters neither for storing nor for searching |
| `Names.ReformatLaw` | src/fs/fs.c:530-537 | formatting a key again reports an error and keeps its bytes, exactly unless a twelfth character is in lower case |
| `Names.LookupLaw` | src/fs/fs.c:489-503 | a lookup searches for the stored key exactly if the name has at most eleven characters or is dotted |
| `Names.FullLengthName` | src/fs/fs.c:489-503 | every full-length name that ends in lower case shows both failures |
| `Names.LongNameLeaks` | src/fs/fs.c:1161-1207 | `abcdefgh.txt` is such a name |
| `FsWrite.GrowLaw` | src/fs/fs.c:74-97 | growing takes distinct free data blocks, the lowest ones, and succeeds if and only if enough are free |
| `FsWrite.WriteRollsBack` | src/fs/fs.c:48-97 | the exact condition for success; a failed write leaves the entire disk as it was |
| `FsWrite.WriteLaw` | src/fs/fs.c:21-118 | a successful write keeps ownership and counts, the file then holds `offset` zeros and the buffer in the fewest blocks, at least one; its blocks are kept in their places or given up, every other block is marked as before, and every other file is unchanged |
| `FsWrite.ReadLaw` | src/fs/fs.c:156-190 | a read returns the contents at its offset up to the length asked for, the end of the file or the end of the block, whichever comes first |
| `FsWrite.SameContents` | src/fs/fs.c:156-190 | what leaves an inode and its blocks alone leaves the file's contents alone |
| `FsDir.FindLaw` | src/fs/fs.c:826-900 | a search succeeds exactly on bound names and gives the bound inode |
| `FsDir.EmptyLaw` | src/fs/fs.c:872-879 | the emptiness test finds nothing exactly if only dot entries are bound |
| `FsDir.PlaceLaw` | src/fs/fs.c:957-1000 | placing a new name adds exactly one binding, if and only if there is a freed slot or a terminator |
| `FsDir.PlaceShape` | src/fs/fs.c:957-1000 | when placing succeeds, when the directory grows and when it loses its terminator |
| `FsDir.PlaceWhere` | src/fs/fs.c:957-1000 | which slot is written: the first freed one, else that of the terminator, which moves on by one or to the front of a zeroed block |
| `FsDir.EntryLayout` | src/fs/fs.c:541-568 | the bytes of an entry: inode number low byte first, name, length |
| `FsDir.DeleteLaw` | src/fs/fs.c:301-314 | freeing a slot removes exactly its binding |
| `FsDir.FreeEntryLaw` | src/fs/fs.c:305-314 | a freed slot is all zero but for its marker |
| `FsTree.PutSlotLaw` | src/fs/fs.c:1120-1131 | writing an entry changes one slot of one directory |
| `FsTree.InsertLaw` | src/fs/fs.c:957-1000 | `insertEntry` on the disk is the placement on slots; ownership and counts are kept and no other file changes |
| `FsOps.InsertOk` | src/fs/fs.c:957-1000 | it keeps the invariant of the whole tree |
| `FsOps.DirIsBit` | src/fs/fs.c:264-275 | a directory is told by bit 14 of the mode |
| `FsOps.CreateLaw` | src/fs/fs.c:513-569 | for every name: the exact condition for success; the one binding added, its inode number and recorded length; the new file is empty, no directory and not encrypted, and has one block, the lowest free one; no other block is marked, but one the directory grows by; every other file and directory is unchanged; the invariant is kept if and only if the call does not bind a bound name once more |
| `FsOps.NameLengthLaw` | src/fs/fs.c:505-511 | the recorded length is that up to the first zero or space |
| `FsOps.MkdirLaw` | src/fs/fs.c:331-394 | when the block taken is zero and no name is bound twice: the exact conditions for success and for the new binding, the two entries of the new directory, its mode, size 0, no flags and its one block, the lowest free one, or its cleared inode, and the invariant of the whole tree |
| `FsStale.MkdirExact` | src/fs/fs.c:331-394 | whatever the name and the block taken: the exact conditions for success and for the new binding, what the new directory binds, the exact condition for that being its two dot entries, its mode, size, flags and blocks (a second one exactly if fewer than three slots can be taken), and after a failure the cleared inode and the block without owner; ownership and counts are kept and nothing else changes |
| `FsStale.MkdirSafe` | src/fs/fs.c:331-394 | in a block of zeros the invariant of the tree is kept if and only if the parent gets no entry for a name that it binds already |
| `FsTwice.StrandedReached` | src/fs/fs.c:357-364 | a run reaches a disk with one free block on which `fsMkdir` fails and leaves a name that leads to a cleared inode |
| `FsStale.UnspoiltWhen` | src/fs/fs.c:376-394 | with two free slots the condition is that the stale slots bind nothing but those dot entries; a block of zeros meets it |
| `FsReach.StaleMkdirReached` | src/fs/fs.c:98-111 | a run (create, write two blocks, write one byte) reaches a disk on which `fsMkdir` succeeds and binds more |
| `FsRemove.RemoveLaw` | src/fs/fs.c:264-329 | refuses directories only; removes one binding by freeing its slot, frees and zeroes all blocks of the file, clears its inode, changes nothing else |
| `FsRemove.RmdirLaw` | src/fs/fs.c:192-262 | succeeds exactly on a directory with nothing but dot entries bound; removes one binding, clears the inode, frees and zeroes its direct blocks and changes nothing else; all blocks are freed if and only if there are at most twelve |
| `FsTall.TallRmdirReached` | src/fs/fs.c:217-236 | a run reaches an empty directory of thirteen blocks, whose removal succeeds and leaves a block marked that no inode lists |
| `FsRun.FormatOk` | src/fs/fs.c:458-487 | formatting storage that was never used gives a disk that satisfies the invariant and binds the two dot entries of the root |
| `FsRun.FormatLaw` | src/fs/fs.c:458-746 | every count, bit, inode field and entry that formatting writes, and what it leaves alone |
| `FsRun.FormatOverBooks` | src/fs/fs.c:458-487 | formatting any storage gives right ownership and free-block counts if and only if no inode beyond the first block of the table lists a block |
| `FsReach.ReformatReached` | src/fs/fs.c:458-487 | a run reaches a disk on which formatting again does not |
| `FsRun.WriteOk` | src/fs/fs.c:48-118 | writing to a file keeps the invariant of the tree |
| `FsRun.WriteZeroes` | src/fs/fs.c:98-111 | free blocks stay zero if and only if the blocks given up are zero |
| `FsRun.TargetLaw` | src/fs/fs.c:489-503 | looking a name up gives a live entry whose inode is in use |
| `FsRun.ApplyOk` | src/fs/fs.c:192-394 | every allowed operation keeps the invariant of the tree |
| `FsRun.EveryOpEffective` | src/fs/fs.c:48-394 | what every operation of a run comes to: creating, making and removing as their laws say, writing exactly if the blocks suffice, and nothing if the name is not bound |
| `FsRun.EveryRunSafe` | src/fs/fs.c:48-394 | after every run of allowed operations from a formatted disk, creation of full-length names included: one owner per block, free-block counts equal to clear bits, unique names, no dangling and no shared inode |
| `FsBooks.ResultIsAfter` | src/fs/fs.c:48-394 | the runs of allowed operations are among those of the next row, with the same results |
| `FsBooks.EveryRunBooks` | src/fs/fs.c:48-394 | one owner per block and right free-block counts also after runs with writes to directories and with directories made in blocks that are not zero |
| `FsRun.ContentsKept` | src/fs/fs.c:48-394 | a file keeps its contents through every run that neither writes to it nor removes it |
| `FsRun.ReadYourWrite` | src/fs/fs.c:48-190 | after a write and any such run the file holds `offset` zeros and the buffer |
| `FsRun.ApplyZeroes` | src/fs/fs.c:331-394 | without shrinking writes the block that a new directory takes is zero |
| `FsRun.CreateThenLookup` | src/fs/fs.c:489-569 | a created file with a name of at most eleven characters is found under that name in either letter case |
| `FsRun.CreateThenRemove` | src/fs/fs.c:264-329 | removing a file just created restores bindings, inode bitmap and every other file |
| `FsBooks.CreateBooks` | src/fs/fs.c:541-544 | creation keeps ownership and free-block counts if and only if it is refused before it reserves anything, or an inode is spare, or no block is |
| `FsBooks.MkdirBooks` | src/fs/fs.c:346-349 | so does making a directory, with an acceptable name as the only refusal before |
| `FsReach.CreateBooksReached` | src/fs/fs.c:541-544 | a run uses up the inodes and frees blocks again; creating a file or a directory then spoils the free-block counts |
| `FsInodes.FormatInodes` | src/fs/fs.c:458-487 | on a formatted disk both free-inode counts are one below the number of clear bits |
| `FsInodes.InodeCounts` | src/fs/fs.c:513-569 | an operation keeps the free-inode counts one below the clear bits if and only if it takes no inode, or one that is not the last while a block is free |
| `FsReach.InodeCountsReached` | src/fs/fs.c:541-544 | a run reaches a disk whose free-inode counts are off |
| `FsRun.LostEntry` | src/fs/fs.c:565-568 | a successful creation binds nothing if and only if there is no slot |
| `FsReach.LostEntryReached` | src/fs/fs.c:565-568 | a run reaches a full root directory on a disk with free blocks and inodes; a creation then succeeds and binds nothing |
| `FsRun.SealingInsert` | src/fs/fs.c:981-986 | taking the last slot without a free block leaves no slot |
| `FsRun.SecondCreate` | src/fs/fs.c:530-537 | creating a bound name succeeds if and only if its key changes when formatted again and the changed key is unbound; the name is then bound twice, exactly if there is a slot |
| `FsTwice.DoubleReached` | src/fs/fs.c:530-537 | for every full-length name that ends in lower case, the run that creates it reaches a disk on which creating it again succeeds, binds it twice and breaks the invariant |
| `FileSystems.FirstZero` | src/fs/fs.c:929-955 | the scan over bytes and bits finds the first clear bit of the bitmap |
| `FileSystems.FileSystem.GetFreeBlockNumber` | src/fs/fs.c:929-955 | the lowest clear bit is set and its number returned |
| `FileSystems.FileSystem.GetFreeInodeNumber` | src/fs/fs.c:902-927 | the same for inodes |
| `FileSystems.FileSystem.RollBack` | src/fs/fs.c:76-92 | the descending loop frees exactly the blocks just taken |
| `FileSystems.FileSystem.DropSurplus` | src/fs/fs.c:98-111 | the ascending loop frees exactly the blocks no longer needed |
| `FileSystems.FileSystem.BuildBlock` | src/fs/fs.c:31-43 | the copied range gives the right bytes of every block, for any offset and length |
| `FileSystems.FileSystem.Write` | src/fs/fs.c:48-118 | bitmap, counts, inode table and data in place are those of the value model |
| `FileSystems.FileSystem.Read` | src/fs/fs.c:156-190 | the same for reading |
| `FileSystems.FileSystem.FindEntryAtBlock` | src/fs/fs.c:863-900 | the three outcomes of the scan of a block |
| `FileSystems.FileSystem.LookupEntry` | src/fs/fs.c:826-861 | block after block finds the slot that the search over all slots finds |
| `FileSystems.FileSystem.Lookup` | src/fs/fs.c:489-503 | with the name copied and formatted in a buffer |
| `FileSystems.FileSystem.InsertEntry` | src/fs/fs.c:957-1000 | insertion in place |
| `FileSystems.FileSystem.Create` | src/fs/fs.c:513-569 | creation in place |
| `FileSystems.FileSystem.Mkdir` | src/fs/fs.c:331-394 | making a directory in place |
| `FileSystems.FileSystem.Remove` | src/fs/fs.c:264-329 | removal in place |
| `FileSystems.FileSystem.Rmdir` | src/fs/fs.c:192-262 | removal of a directory in place |
| `FileSystems.FileSystem.Format` | src/fs/fs.c:458-746 | formatting any storage in place writes counts, bitmaps, root block and the first block of the inode table, and leaves all else |
| `Crypt.CryptedTwice` | src/fs/crypto.c:3-15 | the transform is its own inverse |
| `Crypt.CryptXor` | src/fs/crypto.c:3-15 | the loop applies it to the first bytes and leaves the rest |
| `Crypt.CryptedBits` | src/fs/crypto.c:3-15 | the key stream bit by bit: the password over and over and the position times 31 |
| `Crypt.EncryptWhen` | src/fs/shell.c:759-814 | the exact condition for encryption; a refused one changes nothing |
| `Crypt.EncryptLaw` | src/fs/shell.c:759-814 | an encrypted file holds the check byte and its bytes, transformed, and is marked |
| `Crypt.RoundTrip` | src/fs/shell.c:816-875 | decrypting with the same password restores bytes, size, mode and flags, and no other file changes |
| `Crypt.WrongPassword` | src/fs/shell.c:852-855 | after an encryption, decryption is refused exactly if the first characters differ, and then nothing changes |
| `Crypt.OtherPassword` | src/fs/shell.c:816-875 | a decryption with another password gives the file back if and only if the repeated passwords agree at every position |
| `Crypt.DecryptWhen` | src/fs/shell.c:816-875 | the exact condition for a decryption, its result and the mark taken away |
| `Crypt.MarkIsBit` | src/fs/shell.c:736-757 | the mark is bit 11 of the flags, and marking leaves every other bit alone |
| `Crypt.RefusedDecrypt` | src/fs/shell.c:816-875 | a refused decryption leaves the disk unchanged |
| `Crypt.ReadWhole` | src/fs/shell.c:131-147 | block-wise reading puts exactly the contents into the buffer, inside its bounds |
| `Crypt.EncryptFile` | src/fs/shell.c:759-814 | the command in place is the value model's |
| `Crypt.DecryptFile` | src/fs/shell.c:816-875 | the same for decryption |
| `LineEditor.UpsWalk` | src/fs/shell.c:246-287 | for every `k` and history, `k` ups show the `k`-th last command, or the oldest of the last sixteen, if and only if no command on the way there fills the line and that one fits it |
| `LineEditor.TypedText` | src/fs/shell.c:292-304 | typing a text gives that text, cut where the line is full |
| `LineEditor.UpsAndDowns` | src/fs/shell.c:246-287 | for every `k` and history, `k` ups and `k` downs bring the draft back, with the cursor at its end, if and only if no command on the way fills the line |
| `LineEditor.FullRecall` | src/fs/shell.c:184-290 | otherwise the latest command on the way that fills the line is what is submitted |
| `LineEditor.RingAppend` | src/fs/shell.c:309-312 | storing a command keeps the last sixteen in the ring |
| `LineEditor.StepIsMove` | src/fs/shell.c:184-304 | every key but the history keys moves characters across the cursor, drops one beside it or puts one before it |
| `LineEditor.Editor.RedrawTail` | src/fs/shell.c:149-158 | the emitted characters write the tail over the line and return the cursor |
| `LineEditor.Editor.EraseLine` | src/fs/shell.c:160-171 | the emitted characters leave a blank line with the cursor at its start |
| `LineEditor.Editor.PressBack` | src/fs/shell.c:192-202 | the shift of the buffer is the deletion before the cursor, and the terminal follows |
| `LineEditor.Editor.PressInsert` | src/fs/shell.c:292-304 | the shift is the insertion at the cursor, and the terminal follows |
| `LineEditor.Editor.Press` | src/fs/shell.c:184-304 | every key does to the buffer what it does to a sequence with a cursor; the terminal shows the line with its cursor |
| `LineEditor.Editor.ReadLine` | src/fs/shell.c:173-315 | for every key sequence the line returned is that of the sequence editor, the terminal shows it, and the history gains it if it is not empty |
| `Numbers.DigitsDenote` | src/framework/string.c:3-32 | the digits denote the number, are digits of the base and have no leading zero |
| `Numbers.DigitChars` | src/framework/string.c:3-32 | the sixteen digits |
| `Numbers.ValueFront` | src/framework/string.c:3-32 | what digits denote, read from the front: the first counts the highest power of the base |
| `Numbers.UnsignedToStr` | src/framework/string.c:3-71 | for every value and base the two loops produce those digits, and they fit the buffer |
| `Numbers.IntToStr` | src/framework/string.c:34-42 | sign and magnitude for every `int`, the smallest included, and every base: digits of the magnitude for bases 2 to 16, no digits for others |
| `Numbers.Atoi` | src/framework/string.c:207-228 | the loop computes the signed value of the leading digits, or overflows |
| `Numbers.ParseLaw` | src/framework/string.c:207-228 | for every text, cut into white space, sign, digits and rest: the signed value of the digits, or overflow |
| `Numbers.HasPieces` | src/framework/string.c:207-228 | every text has such a cut |
| `Numbers.RoundTrip` | src/framework/string.c:207-228 | parsing the decimal text of an `int` gives it back, for all but the smallest |

## Left out

- Sockets, `poll`, signals and arguments of the hub: connections, chunks and failures are events with any timing; a send fails after any number of bytes. Connection numbers are not reused, so "the same connection" is meaningful.
- UART, keyboard ports, scan codes, `printk`, splash screen, GDT, IDT, interrupt tables, boot code: hardware and tables without state worth a theorem.
- `kmalloc` and `kfree` in place: the object caches, their lists and counters are modelled in place, but the headers before user memory and the choice of a cache are modelled on values, with addresses as numbers.
- `SlabCache.ObjectCache.CacheAlloc`: is the part without growth; `SlabCache.ObjectCache.AllocOrGrow` has all of it.
- `SlabCache.ObjectCache.CacheGrow`: gets the new memory as a laid-out record; its address, which the page allocator returns, is a parameter of `SlabCache.ObjectCache.AllocOrGrow`.
- Sizes beyond the `int` page count of `kalloc` and the 32-bit block count of `fsWrite`: outside the model's bounds.
- Disk sectors, superblock padding and reads through `disksim`: the disk is its typed areas and an array of 1024-byte blocks; one block group, as the constants give.
- Inode fields that no operation reads (owner, times, links): not modelled.
- Names of 256 characters and more in runs: they are cut by the buffer and never acceptable unless dotted; single calls of `FileSystem.Create` and `FileSystem.Mkdir` cover them.
- Removal of inode number 4096, a directory of fifteen blocks that has no freed slot and its terminator in the last one, and names that start with a marker byte or a dot in removals: excluded by the conditions of `FsRun.Allowed`, because the code then indexes outside its structures or destroys a directory.
- Runs in which a file or directory is created while no inode is spare: also excluded by `FsRun.Allowed`; if a block is free the counts go wrong then (`FsBooks.CreateBooks`, `FsBooks.MkdirBooks`), and otherwise the call fails and changes nothing that the invariant speaks of.
- `FsRun.EveryRunSafe`: does not cover what names lead to after a bound name was bound once more, after writes to directories or after a directory was made in a stale block, because the names are then not unique or can be anything; `FsBooks.EveryRunBooks` covers blocks and counts then.
- `FsRun.ApplyOk`: has the same conditions as `FsRun.EveryRunSafe`, for the same reason.
- `FsOps.MkdirLaw`: asks for a zero block and for no bound name, without which the invariant of the tree need not hold; `FsStale.MkdirExact` does without.
- `Link.StrayBytes`: does not cover stray bytes that contain the second magic byte, because whether the hub then finds the frame depends on whether they begin a longer frame; `Receiver.RecognisedBehind` covers the receiver.
- Listing directories, paths, command dispatch and the checks of the shell's adapters: thin; the absence check before `fsMkdir` appears as a condition.
- `LineEditor.Editor.ReadLine`: does not model control characters that a terminal shows in no or several cells, nor wrapping of long lines.
- `Numbers.Atoi`: an `int` overflow is an outcome of its own, because C leaves it undefined.
- `longToStr` and the remaining string routines: they would only repeat what is there.
