# QoreOS in Dafny

A model of the parts of the QoreOS kernel that keep state or do arithmetic over
all inputs, with proofs of what they guarantee. `dafny verify dfyconfig.toml` checks
the whole project.

The parts and their files:

- **Page tables** (`PageTables.dfy`, `Mmu.dfy`, `EntryBits.dfy`, `PagingRuns.dfy`,
  `PagingLimits.dfy`). The four-level walker, the single-page mapper, the 2 MB identity map for the AP trampoline and
  the sweep that sets the user bit. All of them edit the structure the walker reads;
  the results say which translations change, and `EntryBits` what every mask, shift and
  written word is, bit by bit. `PagingRuns` shows that any sequence of
  the three editors acts on translations as a simple abstract machine; `PagingLimits` holds
  the memories at which the code falls short.
- **Frame allocator** (`Bits.dfy`, `FrameAllocator.dfy`, `Provisioning.dfy`). The packed
  bitmap against the set of free frames, and pages that never share a frame.
- **Terminal** (`Canvas.dfy`, `Terminal.dfy`, `Compositor.dfy`). A pixel buffer that is
  painted and scrolled in place, against an unbounded page that never scrolls, down to
  the framebuffer.
- **E1000** (`RxRing.dfy`, `TxRing.dfy`, `ArpCache.dfy`). The receive ring as a protocol
  between NIC and driver, the transmit ring, the ARP table against its history.
- **TCP and HTTP** (`Checksum.dfy`, `Frames.dfy`, `Http.dfy`, `TcpEngine.dfy`, `Clients.dfy`,
  `Server.dfy`). The Internet checksum of RFC 1071, the frame builder and the parser, the
  response, the stateless engine against one that keeps a record per connection, and a
  conversation in which any client gets its page.
- **NVMe** (`Nvme.dfy`). Driver and controller over two 16-slot rings.
- **PS/2 mouse** (`Mouse.dfy`). The packet decoder over an unbounded stream.
- `Arithmetic.dfy`, `Rings.dfy` and `Wrappers.dfy` hold shared facts about division and ring
  slots, and `Option`.

How the kernel's terms are written here:

- Words, bytes and addresses are integers; a mask, shift, `|` or `&` is the division,
  remainder or sum it computes, and wrap-around is written out with `%`. Physical memory
  is a map from addresses to words; an address without a word reads as zero.
- Hardware is a second actor. The receive and transmit rings and the NVMe queues are state
  machines in which NIC or controller steps fall between any two steps of the driver;
  results are about every sequence of steps. Each driver method is proved to make the
  steps of its machine, whatever the hardware does between them.
- The four nested loops of the user-bit sweep are one method that calls itself one level
  down, `Mmu.UnlockTable`; the order of reads and writes is that of the source.
- The font is any function from a character, row and column to a bit. Which byte strings
  are valid UTF-8, the disk's contents, what the controller or the NIC does at each point
  of a driver call and the ARP table at each delivery are parameters. The controller moves data in any pieces and posts a completion after its data.

Findings about the code, each with an input and, where there is one, the exact condition:

- The walker ignores reserved bits and masks a large-page entry with the 4 KiB mask
  (`PagingLimits.WalkerIgnoresReservedBit`, `PagingLimits.WalkerAddsPatBit`); condition:
  `PageTables.WalkMatchesArchitecture`.
- A page-table entry with bit 7 set in the PML4 stops the user-bit sweep but not the
  walker (`PagingLimits.SweepMissesBit7`); condition: `Mmu.UnlockExact`.
- A 1 GB page already at PDPT[0] is left alone (`PagingLimits.IdentityMapSkipped`); low
  memory ends up identity-mapped exactly when that page starts at 0: `Mmu.TrampolineExact`.
- The allocator's counter exceeds the free frames when two descriptors overlap
  (`FrameAllocator.OverlapCountsTwice`); condition: `FrameAllocator.CounterExact`.
- The transmit code never looks for a full ring (`TxRing.EighthPostStalls`); condition:
  `TxRing.PostIsSentIff`.
- The NVMe driver waits for phase bit 1 on every pass, so completions on every second pass
  are posted but never seen (`Nvme.SeventeenthReadUnseen`); condition: `Nvme.VisibleExactly`.
- A canvas between 1 and 43 pixels high loses ink that a scroll should bring into view
  (`Terminals.LowCanvasLosesInk`); condition: `Terminals.ViewportExact`.
- A frame of 65536 bytes or more is cut by its descriptor although its IP length fits:
  `TcpEngine.SentReadableIff`. No stored payload comes near it: `Http.StoredResponseFits`.
- An old request on a port opened again is answered by its own numbers, where an engine
  with records would use the new ones: `Clients.ReusedPortDiverges`.

## Model

| member | source | states |
|---|---|---|
| EntryBits.EntryFlags | src/memory.rs:28-33 | present, user and large-page tests are bits 0, 2 and 7 of the entry |
| EntryBits.EntryAddress | src/memory.rs:31 | the address of an entry is its bits 12 to 51 in place |
| EntryBits.IndexBits | src/memory.rs:18-23 | the index of each level is the nine bits of the address from 39, 30, 21 and 12 up |
| EntryBits.OffsetBits | src/memory.rs:24-38 | the offsets are the low 12, 21 and 30 bits of the address |
| PageTables.WalkMatchesArchitecture | src/memory.rs:26-38 | for every memory, address and processor, the kernel's walk equals the translation of section 4.5 of the Intel SDM volume 3A if and only if it finds nothing, or no entry on its way has a reserved bit set (PML4 bit 7 among them) and a large page it ends in has its PAT bit clear |
| PagingLimits.WalkerIgnoresReservedBit | src/memory.rs:31-33 | a memory whose PML4 entry has bit 7 set: the walker answers, every processor faults |
| PagingLimits.WalkerAddsPatBit | src/memory.rs:31-35 | a 1 GB page at 0 with its PAT bit set: the walker answers 0x1000, the processor 0 |
| PageTables.SlotOwner | src/memory.rs:26-31 | in unaliased tables two walks read the same word only at the same level and under the same address prefix |
| PageTables.EditKeepsUnaliased | src/memory.rs:62-67 | replacing one entry by a leaf, an absent entry or a reference to an unused table keeps every table referenced once |
| PageTables.EditElsewhere | src/memory.rs:62-67 | replacing one entry leaves the translation of every address it does not cover unchanged |
| PageTables.WalkIgnoresUserBit | src/main.rs:506-541 | memories that differ only in bit 2 of words give every address the same walk |
| PageTables.SweepOpensPath | src/main.rs:506-541 | the loop nest covers every walk path, early exits at 1 GB and 2 MB pages included |
| PageTables.SweepStopsAtBit7 | src/main.rs:511-512 | below a PML4 entry with bit 7 set the sweep reaches no entry that a walk of unaliased tables reads |
| EntryBits.SetUserBits | src/main.rs:509-530 | opening an entry sets its bit 2 and changes no other bit |
| Mmu.MapPageTranslation | src/memory.rs:44-67 | a completed call makes every address of its page translate to the frame plus offset and changes no other page |
| Mmu.MapPageExact | src/memory.rs:65-67 | the page reaches the very frame it was given if and only if the frame is 4 KiB-aligned and below 2^52 |
| EntryBits.LeafEntryBits | src/memory.rs:65-66 | the written entry has every bit of the frame, and bits 0 and 1 |
| EntryBits.MapPageWord | src/memory.rs:65-67 | after a completed call every walk of the page ends in an entry with the frame's bits, present and writable; for a frame its low twelve bits are 0b11, so without the user bit |
| Mmu.MapPageRefinesPageMap | src/memory.rs:44-67 | any sequence of calls translates as updates to a page-to-frame map, dropped requests included |
| Mmu.RunKeepsTables | src/memory.rs:44-67 | any sequence of calls keeps the tables unaliased and in place |
| Mmu.InstallEmpty | src/smp.rs:40-55 | hanging an empty static table under a missing entry changes no translation |
| Mmu.TrampolineIdentityMap | src/smp.rs:37-64 | in every missing or present combination, addresses below 2 MB become identity-mapped and all others keep their translation or its absence |
| Mmu.TrampolineExact | src/smp.rs:57-64 | the first 2 MB end up identity-mapped if and only if a 1 GB page at PDPT[0], when there is one, starts at physical 0 |
| EntryBits.InjectedWords | src/smp.rs:40-62 | PML4[0] and PDPT[0] keep a present entry or become the static table plus 3, present and writable, and PD[0] becomes 0x83 |
| PagingLimits.IdentityMapSkipped | src/smp.rs:57-64 | a 1 GB page at PDPT[0] that starts at 1 GB: address 0 still leads there afterwards |
| Mmu.SweepSubtable | src/main.rs:511-533 | an iteration that sweeps a table below, which may be shared or this very table, sets exactly the bits the nest reaches |
| Mmu.UnlockKeepsTranslations | src/main.rs:506-541 | for every shape of tables the sweep leaves every translation unchanged |
| Mmu.UnlockOpensEveryWalk | src/main.rs:506-541 | every address that translates through a PML4 entry with bit 7 clear has the user bit at every level afterwards |
| Mmu.UnlockExact | src/main.rs:506-541 | in unaliased tables a translating address is open to ring 3 afterwards if and only if its PML4 entry has bit 7 clear or the levels below were open before |
| PagingLimits.SweepMissesBit7 | src/main.rs:511-512 | a PML4 entry with bit 7 set: after any sweep the address behind it translates and stays closed to ring 3 |
| Mmu.UnlockIdempotent | src/main.rs:506-541 | a second sweep changes no word |
| Mmu.Mmu.WalkPageTable | src/memory.rs:14-39 | the loop returns the translation of the walk function |
| Mmu.Mmu.MapPage | src/memory.rs:44-67 | memory afterwards is the specified edit, or unchanged when a table is missing or a large page is in the way |
| Mmu.Mmu.InjectIdentityMap | src/smp.rs:37-64 | memory afterwards is the specified sequence of conditional edits |
| Mmu.Mmu.UnlockTable | src/main.rs:506-541 | memory afterwards differs exactly in bit 2 of the present entries that the nest reaches from this table |
| Mmu.Mmu.UnlockForRing3 | src/main.rs:506-541 | every translation is kept and every walk through a proper PML4 entry carries the user bit |
| PagingRuns.RunSimulates | src/memory.rs:44-67 | every run of mapper, injector and sweep refines an abstract machine on translations |
| PagingRuns.RunFromUnaliased | src/main.rs:506-541 | from unaliased tables, each address translates after any run as the abstract machine says and the tables stay unaliased |
| PagingRuns.SharedTableLeaks | src/memory.rs:62-67 | a concrete memory with a shared page table in which mapping one page maps another |
| FrameAllocator.ConventionalMeans | src/frame_allocator.rs:31-42 | a frame counts as conventional if and only if it is below 65536 and inside some descriptor of type 7 |
| FrameAllocator.AscendingIsSorted | src/frame_allocator.rs:67-83 | the k-th frame of the ascending enumeration is a member with exactly k smaller members |
| FrameAllocator.KthAllocation | src/frame_allocator.rs:67-83 | the k-th call returns the k-th smallest free frame or None once they have run out, and the counter's distance to the free frames never changes |
| FrameAllocator.KthFrameAfterInit | src/frame_allocator.rs:31-83 | after init on any memory map, call k returns the conventional frame with exactly k below it, times 4096, or None |
| FrameAllocator.CounterExact | src/frame_allocator.rs:48-50 | init counts at least the free frames, and exactly them if and only if no two type-7 descriptors overlap |
| FrameAllocator.OverlapCountsTwice | src/frame_allocator.rs:48-50 | two descriptors that share a frame: two frames are free and three are counted |
| FrameAllocator.CounterAlwaysExact | src/frame_allocator.rs:67-83 | in every state after init and any number of calls the counter covers the free frames, exactly if and only if the map does not overlap |
| FrameAllocator.SetFrame | src/frame_allocator.rs:43-48 | setting or clearing one bit of the packed bitmap adds or removes exactly that frame |
| FrameAllocator.BitmapAllocator.Init | src/frame_allocator.rs:24-62 | the free set becomes the conventional frames and the high-water mark covers them |
| FrameAllocator.BitmapAllocator.AllocateFrame | src/frame_allocator.rs:67-83 | returns the smallest free frame and removes it, or None when none is free |
| Bits.BitAfter | src/frame_allocator.rs:47-48 | setting or clearing bit i changes bit i and no other |
| Provisioning.FramesNeverShared | src/frame_allocator.rs:67-83 | after any run in which each mapping spends the answer of an allocation of its own, early or late, in any order and with other allocations between, distinct mapped pages translate into distinct physical frames |
| Provisioning.FramesNeverSharedAfterInit | src/frame_allocator.rs:31-83 | the same for the pool that init makes of any memory map |
| Canvases.FillPixelInside | src/compositor.rs:25-29 | a pixel inside the canvas changes exactly the buffer element of its row and column |
| Canvases.FilledPixel | src/compositor.rs:31-37 | pixel (x, y) takes the color if and only if it lies in the fw columns and fh rows from (x0, y0) |
| Canvases.Canvas.FillRect | src/compositor.rs:31-37 | paints exactly the pixels of the rectangle that lie in the canvas |
| Canvases.ScrolledPixel | src/compositor.rs:39-48 | pixel (x, y) becomes pixel (x, y + rows), or background when there is none |
| Canvases.Canvas.ScrollUp | src/compositor.rs:39-48 | every pixel moves up by the shift and background comes in below |
| Terminals.CanvasShowsPage | src/compositor.rs:172-206 | after any text, each canvas pixel (x, y) equals page pixel (x, y + 30 * lines scrolled) and the cursors agree |
| Terminals.ViewportExact | src/compositor.rs:172-206 | a canvas shows the page for every text and font if and only if it is empty or at least 44 pixels high |
| Terminals.LowCanvasLosesInk | src/compositor.rs:39-48 | on every canvas 1 to 43 pixels high one line of text in a solid font loses ink that the scroll should bring into view |
| Terminals.FeedShows | src/compositor.rs:175-184 | a line feed, with or without a scroll, keeps the canvas a viewport onto the page |
| Terminals.GlyphOnPage | src/compositor.rs:187-195 | a character changes, in the 24 x 24 square at the cursor, exactly the 3 x 3 blocks set in its bitmap; a small letter is drawn with the bitmap of its capital, any other character with its own |
| Terminals.CapitalsPrintAlike | src/compositor.rs:186-187 | any text and the same text in capitals leave the same canvas and cursor |
| Terminals.CapitalsReadAlike | src/compositor.rs:186-187 | and the same page |
| Terminals.GlyphPlaces | src/compositor.rs:196-205 | from the start of a line, glyph i of a paragraph stands at (20 + 30 * (i % m), 20 + 30 * (first line + i / m)), with m glyphs to a line |
| Terminals.LinesStart | src/compositor.rs:175-184 | a new page is white with the cursor at (20, 20); a line feed goes to column 20 and 30 pixels down |
| Terminals.CursorInView | src/compositor.rs:178-182 | on at least 50 rows the cursor keeps a whole 30-pixel line above the bottom edge, everything below its glyph is white, and the canvas has scrolled no further than needed |
| Compositors.Compositor.DrawGlyph | src/compositor.rs:187-195 | the 64 cells paint exactly the glyph's ink at the cursor |
| Compositors.Compositor.PutChar | src/compositor.rs:174-205 | one character advances canvas and cursor as specified, wrap and scroll included; a glyph on a layer under 40 columns panics after it is drawn |
| Compositors.Compositor.TerminalPrint | src/compositor.rs:172-209 | it panics if and only if a glyph meets a layer under 40 columns; otherwise the layer holds what printing everything so far, this text in this color last, produces, and the screen holds the layer |
| Compositors.Compositor.BlitCanvas | src/compositor.rs:77-93 | when rows fit the stride, the screen pixel in row j / stride and column j % stride is the layer's if it lies in the layer and on the screen, and keeps its value if not |
| Compositors.BlitShowsLayer | src/compositor.rs:81-92 | the same of the function that the copy loop is proved to compute |
| Compositors.Compositor.RowsAboveKept | src/compositor.rs:82-86 | rows above the layer, such as the title bar, keep their pixels |
| Compositors.Compositor.ScreenShowsPage | src/compositor.rs:172-209 | after printing, screen element (layer.y + cy) * stride + layer.x + cx is pixel (cx, cy) of the page scrolled so that the cursor line fits |
| RxRing.FillGuard | src/e1000.rs:123-124 | the NIC accepts a packet if and only if fewer than 31 buckets are unreleased |
| RxRing.StepInv | src/e1000.rs:156-246 | each step of NIC or driver keeps the ring invariant |
| RxRing.DeliveredInOrder | src/e1000.rs:156-246 | in every interleaving packets are delivered once each in arrival order and at most 31 are pending |
| RxRing.NicNeverClobbers | src/e1000.rs:234-242 | in every interleaving the bucket the NIC writes next is neither undelivered nor in use by the driver |
| RxRing.PollDelivers | src/e1000.rs:156-246 | in every reachable state, a poll during which packets keep arriving delivers the oldest packet waiting at its test, and otherwise leaves all to the arrivals |
| RxRing.Driver.Poll | src/e1000.rs:156-246 | one call, with any packets arriving before each of its sub-steps, is a run of the ring's machine, keeps its invariant and reports whether a packet was waiting |
| TxRing.SentInOrder | src/e1000.rs:215-223 | when fewer than 7 frames are unfetched before each post, frames go out once each in posting order in every interleaving |
| TxRing.PostNeverClobbers | src/e1000.rs:310-318 | under the same pacing a post overwrites no unfetched descriptor |
| TxRing.PostIsSentIff | src/net.rs:209-221 | after a post, fetches can send everything posted if and only if fewer than 7 frames were unfetched before it |
| TxRing.EighthPostStalls | src/net.rs:209-221 | eight posts in a row: no number of fetches sends any of them |
| TxRing.WireIsWhole | src/net.rs:216 | a frame goes out whole if and only if its length fits 16 bits |
| TxRing.PostInterleaved | src/net.rs:209-221 | a post with any fetches inside it puts its frame last in line and keeps the ring in order when fewer than 7 were unfetched |
| TxRing.Driver.PostFrame | src/net.rs:209-221 | one post, with any fetches before each of its writes, is a run of the ring's machine |
| ArpCache.LookupAnswersHistory | src/e1000.rs:23-47 | after any inserts, lookup returns the latest MAC of an address among the first 16 distinct ones and None for any other |
| ArpCache.ActiveEntriesDistinct | src/e1000.rs:23-38 | active entries form a prefix with pairwise distinct addresses |
| ArpCache.Cache.Insert | src/e1000.rs:23-38 | the table afterwards is the specified update of the matching or first free entry |
| ArpCache.Cache.LookupMac | src/e1000.rs:40-47 | returns the MAC of the first active match or None |
| Checksum.FoldOfSum | src/net.rs:186-187 | summing first and folding once equals ones' complement addition with end-around carry, for any range of even or odd length |
| Checksum.OddBytePadded | src/net.rs:200-202 | an odd range is summed as if one zero byte followed |
| Checksum.TcpSumIsCovered | src/net.rs:191-203 | the sum over addresses, protocol, length and segment is the sum over the pseudo-header of section 3.1 of RFC 9293 and the segment |
| Checksum.ChecksumsVerify | src/net.rs:182-207 | afterwards the IP header, and the pseudo-header with the TCP segment, each have the ones' complement sum 0xFFFF, and no byte outside the two fields changes |
| Checksum.FoldCarries | src/net.rs:187 | the fold loop terminates with the folded sum |
| Checksum.AddWords | src/net.rs:197-203 | the loop adds the words, an odd last byte padded, and the accumulator stays below 2^32 |
| Checksum.RecalculateChecksums | src/net.rs:182-207 | for every length IPv4 can carry, the frame afterwards is the specified one |
| Frames.ParsedFields | src/net.rs:42-71 | which byte strings parse, and the byte positions of every field, for every IP header length |
| Frames.PayloadInBounds | src/net.rs:88-96 | for every byte string a payload is passed on if and only if it is non-empty and in bounds, and it runs from the end of both headers to 14 + total length |
| Frames.FinishedRoundTrip | src/net.rs:146-180 | a built frame with any body and any trailing padding parses back to its ports, numbers, flags, lengths and exactly its body |
| Frames.FinishedSpelled | src/net.rs:146-180 | byte by byte: destination MAC, this host's MAC, IPv4 header with don't-fragment and TTL 64, ports, numbers, flags, window 0xFAF0, the 1460-byte segment size option, then the body |
| Frames.HeaderLengthExact | src/net.rs:171 | the header length survives the trip if and only if it is a multiple of four |
| Frames.FinishedSums | src/net.rs:133-140 | a finished frame has the ones' complement sum 0xFFFF in its IP header and in its segment with pseudo-header, and otherwise equals what was built |
| Frames.CraftBaseTcpFrame | src/net.rs:146-180 | the bytes written in place are the frame, field by field |
| Frames.FinishFrame | src/net.rs:130-140 | appending the body, restating the length and checksumming gives the finished frame |
| Http.ResponseReadsBack | src/net.rs:121-128 | for every content, the header ends at the first blank line, the rest is the content and the stated length is its byte count |
| Http.ResponseLines | src/net.rs:124-128 | the header lines are the status 200 OK, text/plain, the length in decimal and connection close |
| Http.DecimalRoundTrip | src/net.rs:124-128 | reading the decimal digits gives the number back |
| Http.StoredResponseFits | src/main.rs:340-357 | every payload that boot can store gives an IP packet below 1500 bytes |
| Http.StoredExactly | src/main.rs:324-357 | nothing without a drive, the two errors, or "FILE CONTENT: " and the text up to NUL, line feed or 512 when it is valid |
| Http.ExtractLength | src/main.rs:340-341 | the loop stops at the first NUL or line feed or at 512 |
| TcpEngine.StatelessActsStateful | src/net.rs:72-108 | over every run of conforming clients with duplication, reordering and any other traffic between, the replies equal those of an engine that stores each connection |
| TcpEngine.RepliesOnTheWire | src/net.rs:114-131 | what the transmit descriptor lets out of every reply of every run, ports reused or not, reads as a SYN-ACK of the client's ISN + 1, or as a response at 0xCAFEBABE + 1 that acknowledges exactly the client's bytes and carries the content, addressed from this host to the station that the ARP table names |
| TcpEngine.StatelessExact | src/net.rs:98-105 | a request is answered as the stateful engine would if and only if it carries the numbers its handshake set |
| TcpEngine.DemandExactly | src/net.rs:48-96 | for every byte string, it is a handshake if and only if it is TCP for 10.0.2.15 port 80 with SYN, and a request if and only if it has PSH, no SYN and a payload that starts with GET |
| TcpEngine.AnswersOnlyItsOwn | src/net.rs:42-131 | exactly those are answered, to the sender's address and port, with flags, sequence and acknowledgement numbers given in terms of the packet's bytes |
| TcpEngine.ReplyAddressedByHistory | src/net.rs:84-86 | as sent and padded, bytes 0 to 5 of every reply are the MAC last claimed for the sender if its address got a slot and broadcast otherwise, and bytes 6 to 11 this host's |
| TcpEngine.ReplyFits | src/net.rs:114-131 | every reply is a frame that the builder can state and a descriptor can send whole |
| TcpEngine.SentReadableIff | src/net.rs:216 | a frame whose IP length fits can be read by its receiver if and only if its own length fits the 16-bit descriptor too |
| TcpEngine.StoredIsServable | src/main.rs:340-357 | whatever boot stores, the engine can serve it |
| Clients.ClientFramesAreGood | src/net.rs:42-97 | every client with a request of any length IPv4 can carry has a SYN and a request frame that the engine recognises |
| Clients.ReusedPortDiverges | src/net.rs:98-105 | when a port is opened again, a request of the earlier connection is answered as the recording engine would if and only if both opened with the same number |
| Clients.ClientIsServed | src/net.rs:72-108 | every such client, accepting only frames to its own MAC or to all, completes its handshake in a conforming run and receives a response it reads as its page |
| Server.HandleIncomingPacket | src/net.rs:42-112 | a packet posts exactly the engine's checksummed reply on the transmit ring, the NIC fetching meanwhile, or nothing |
| Server.ReplyInLine | src/net.rs:209-221 | a posted reply comes last in line, whole, and keeps the ring in order while the NIC keeps pace |
| Nvme.TailEqualsHead | src/nvme.rs:152-187 | in every run submission tail and completion head are equal between reads |
| Nvme.SeenMeansComplete | src/nvme.rs:170-177 | with at most 14 earlier commands unfinished, leaving the wait by the status bit means this command's completion was posted and its block is in its buffer, across any number of wraps |
| Nvme.VisibleExactly | src/nvme.rs:173 | a waiting driver sees its completion if and only if it was posted and the pass over the queue is even |
| Nvme.SeventeenthReadUnseen | src/nvme.rs:173 | the seventeenth read in a row: completion posted, block in place, status bit still 0 |
| Nvme.StepInv | src/nvme.rs:152-187 | each step of driver or controller keeps the queue invariant |
| Nvme.SubmittedCommand | src/nvme.rs:160-164 | the command reads one block of namespace 1, is numbered by its slot and carries the LBA in two 32-bit halves |
| Nvme.Drive.Wait | src/nvme.rs:170-177 | the loop ends at the first test that finds the status bit, or after 20,000,001 tests that did not |
| Nvme.Drive.ReadSector | src/nvme.rs:152-187 | whatever the controller's schedule, the completion is seen if and only if the pass is even and it is posted by the last test; posted by then on either pass, the requested block is returned; in any read the sector is the buffer as copied, each byte the block's or zero |
| Mouse.StreamDecodes | src/mouse.rs:56-97 | any stream of encoded movements with stray bytes between packets ends at the start plus the sum of dx, minus the sum of dy, modulo 2^32, with the last buttons |
| Mouse.ItemDecodes | src/mouse.rs:74-90 | one encoded packet moves the pointer by exactly its 9-bit deltas |
| Mouse.PacketMoves | src/mouse.rs:74-93 | any three bytes at a packet boundary move the pointer by their 9-bit values, y reversed, and set the buttons to bits 0 and 1 |
| Mouse.CycleStaysInRange | src/mouse.rs:58-96 | whatever bytes arrive, the machine stays in its three states |
| Mouse.Handler.ProcessPacketByte | src/mouse.rs:56-97 | one byte changes cycle, packet, position and buttons as the specified step |

## Left out

- AP trampoline machine code and per-core stacks: the bytes load eax with 0 before the `lock xadd`, so tickets never advance.
- CR0, CR3, `invlpg`, TLB flushes, MSRs, `iretq`, `syscall` entry, GDT, IDT and APIC: processor effects; physical addresses are read directly.
- PCIe and ACPI discovery, HDA audio, port I/O and the UEFI bootloader: device plumbing.
- The FAT32 arithmetic and the directory scan: the payload's first cluster and sector are inputs.
- Window drawing, dragging, hit tests, the font bitmaps and `vga.rs`: user interface.
- The ARP branch of `poll`, including its reply frame: it only moves fixed fields, and it indexes short frames without a length check.
- `udp_broadcast` and connection teardown: constant bytes whose lengths do not match the frame, and no FIN is ever sent.
- The command bits of a transmit descriptor, and the completion queue's head doorbell: constants written to hardware.
- The text served before boot has stored a payload: the content is any byte string.
- The heap: buffers are fresh and disjoint; re-entrant `terminal_print` from interrupts is not modelled.
- A zero-width canvas: a canvas here has at least one column.
- Arithmetic overflow of `usize` in the canvas, the memory map and the framebuffer offsets: these are unbounded here.
- What the kernel does after a panic, such as the one on a layer under 40 columns.
- Mmu.TrampolineIdentityMap: assumes the static tables are empty and not yet in use, so it describes the one call at boot.
- Nvme.SeenMeansComplete: assumes at most 14 unfinished earlier commands; the rings do not hold more, and the driver does not check.
- TcpEngine.StatelessActsStateful: assumes that no port is reused with another initial sequence number; Clients.ReusedPortDiverges shows why, and TcpEngine.RepliesOnTheWire needs no such assumption.
- TxRing.SentInOrder: assumes that the NIC keeps pace, because the driver never checks; TxRing.PostIsSentIff gives the exact bound for each post.
