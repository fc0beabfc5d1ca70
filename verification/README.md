# Verified models of grid middleware components

This project models the algorithmic parts of a grid middleware distribution and proves what they
are relied on for. `dafny verify dfyconfig.toml` checks all of it.

**SSH channels.** The largest part is the SSH-2 channel layer of the bundled OpenSSH. `Buffer.dfy`
is the growable FIFO buffer. `ChannelSpec.dfy` says what one channel end does with data, stderr,
window adjustments, EOF and CLOSE, as functions on its state; `Channel.dfy` holds the channel record
itself, whose handlers update three buffers and are proved to compute those functions;
`ChannelMemory.dfy` follows the blocks behind the buffers, which decide when an append is fatal.
`ChannelSystem.dfy` joins two ends by ordered links and defines runs: any interleaving of reads,
partial or failed writes, polls, window checks, collections and deliveries, up to an append that a
buffer cannot take. `ChannelLinks.dfy` gives the invariant of one direction, `ChannelSafety.dfy` shows
that every step keeps it, and `ChannelTheorems.dfy` states what follows for every state of every run.
`ChannelRuns.dfy` builds runs step by step, and `ChannelFailures.dfy` uses them to show where conforming peers
fail, and exactly when. `ChannelProgress.dfy` and `ChannelClosing.dfy` are about what runs can always still
do: polling alone sends all that was read, and from every state in which no end has failed or was closed, and
whose buffers hold the windows, all of it can still reach the other side and both ends be freed.
`ChannelDiagrams.dfy` holds the state diagrams of the close protocol (nchan2.ms), as the code has them; every
step follows them.

**SOCKS.** `Socks.dfy` and `SocksChannel.dfy` are the decoder of dynamic port forwarding, which is
called again and again on a growing input. `SocksDecisions.dfy` says by their bytes alone which inputs leave
it waiting and which it rejects.

**Authentication.** `AuthLists.dfy`, `Auth.dfy` and `AuthContext.dfy` are the method lists that a
connection has to complete. Progress is kept per connection. `AuthRuns.dfy` says of whole connections, by
their steps alone, when they succeed, how many tries they have used up and which step ends them.

**BSON.** `Bson.dfy` is the encoding, `BsonFormat.dfy` the layout of its bytes, `BsonBuilder.dfy` the builder
with its stack of lengths to fill in, `BsonIterator.dfy` the iterator, `BsonRoundTrip.dfy` whole documents.

**Lists and paths of libltdl.** `SListSpec.dfy` and `SList.dfy` are the merge sort that relinks a
list; `ArgzSpec.dfy` and `Argz.dfy` the vectors of strings; `SearchPathSpec.dfy` and `SearchPath.dfy`
the canonical form of search paths and the walk over their directories.

**Ciphers, wire format, addresses, statistics.** `CipherBlocks.dfy`, `Cbc.dfy` and `Ctr.dfy` are the
block modes over an abstract block cipher; `WireSpec.dfy`, `WireMeaning.dfy` and `Wire.dfy` the integers,
strings and big numbers of SSH messages; `AddrSpec.dfy` and `AddrMatch.dfy` CIDR matching; `Calipers.dfy` the
streaming statistics over exact reals.

## What the proofs turned up

- Stderr data that arrives when it is not written out locally is dropped without being charged to
  the window (channels.c:2902-2907), so that much credit is never returned: `DroppedStderrStalls` is a
  run, for every window, in which it is used up that way for good.
- A failed local write throws the output away without crediting it (nchan.c:514-532,
  channels.c:2017-2020). The comment at channels.c:2742-2748 wants no deadlock for a closed output, but
  `FailedWriteStalls` is a run, for every window that a buffer can hold, in which there is one;
  `LostStallsExactly` says that it takes such a window.
- When writing stderr out fails, its descriptor is closed and what waits for it is kept
  (channels.c:2064-2068): it is never written nor credited (`JamKeepsCredit`), and
  `JammedStderrStalls` is a run, for every window that a buffer can hold, in which nothing else is
  left of the window.
- `StallCauses` says that there are no other stalls, and `OpenReceiverRefills` when a sender is refilled.
- A conforming sender can end the receiver's process by filling the window: data that a buffer cannot
  take is fatal. `WindowSafeExactly` gives the windows and packet limits under which this cannot
  happen; where it can, a run leads to the fatal append through the blocks that the buffer really has.
  Dynamic growth leads there from every first window of two bytes to less than 64 MiB
  (`GrowthOutrunsBuffer`): it announces 64 MiB and more, and a buffer holds less.
- An EOW closes the open input at once and no EOF follows it (nchan.c:341-351), where the diagram of the
  input (nchan2.ms) has it drain first. `DiagramsFollowed` states the moves of the code.
- The buffer check compares with a limit of 10 MiB where the append compares with 64 MiB; the check
  is the stricter one, so its promise holds (`Buffer.CheckAlloc`).
- The SOCKS version byte is looked at anew after the version 5 negotiation, so a version 4 request
  may follow it. The length check on a 4A name can never fail, because the scan is shorter.
- A result that no stored method list starts with ends the connection; partial successes count as
  failures towards the limit of tries.
- `canonicalize_path` promises no doubled or trailing separators, but leaves one behind an element
  of slashes alone that follows another element ("a:/:b"); `CanonicalExactly` says exactly when it
  keeps its promise. For the walk over the directories the doubled colon does no harm
  (`DoubledColonIsHarmless`).
- The walk over a search path reads in front of its block (ltdl.c:715) when a base name is given and no
  element of the path is left after the empty ones, or the last one consists of slashes, as for the root
  directory alone (`RootIsOutOfBounds`): the canonical path is then empty or ends with a colon, and an
  empty name is left in the vector. `OutOfBoundsExactly` says exactly when the walk gets there.
- `argz_stringify` never replaces a NUL at the very front. Its assertion accepts vectors of less than
  two bytes, but its unsigned counter then passes zero and it starts behind the block: `Stringify`
  reports `overrun` exactly there.
- A counter mode call that ends inside a block drops the rest of its key stream (`PartsInsideBlock`);
  `JoinableExactly` says which calls can be joined.
- The builder of BSON documents does not check its stack of 32 places (bson.c:585-610): the 33rd open
  object is written behind it, and ending an object that was not begun reads in front of it.
  `BuildDocument` runs over it exactly on the trees nested too deep. The message "trying to append to
  finished buffer" (bson.c:417-418) never comes while there is a buffer, since its condition is true
  then; what is appended lies behind the document and is not read with it (`BehindTheEnd`).
- The version 1 number format cuts its bit count to 16 bits: `ReadsBack` holds below 65536 bits
  only. The size check of its reader can never fail.
- The recorded maximum of a caliper starts at zero (`MaximumExactly`); the mean of the gaps is taken
  over the count of the rates, which is the same number.

## Model

| member | source | states |
|---|---|---|
| `ChannelTheorems.WindowConserved` | gsi_openssh/source/channels.c:2757-2767 | in every state of every run, the sender's window, the data on its way and the credit on its way back add up to the receiver's window (RFC 4254 section 5.2), short only of stderr bytes that were dropped unaccounted; no counter wraps, and the largest window stays within its first value or 96 MiB |
| `ChannelTheorems.LocalCreditConserved` | gsi_openssh/source/channels.c:2749-2767 | in every run, the open window, the bytes consumed but not credited, the bytes waiting to be written and the bytes lost to a failed write add up to the largest window |
| `ChannelTheorems.ConformingPeers` | gsi_openssh/source/channels.c:2735-2767 | no packet of a conforming peer is larger than the receiver's window or packet limit, and none takes a branch that ends the connection |
| `ChannelTheorems.StreamsIntact` | gsi_openssh/source/channels.c:2665-2671 | what was written out is always a prefix of what was read in, for data and stderr; while the output is open, nothing is missing between reading and writing |
| `ChannelTheorems.EofMeansComplete` | gsi_openssh/source/nchan.c:353-359 | a receiver that saw EOF, has drained and had no failed write has written all that was ever read |
| `ChannelTheorems.NothingAfterClose` | gsi_openssh/source/nchan.c:468-510 | nothing reaches an end after its peer's CLOSE or after it was freed, and CLOSE is the last packet on a link |
| `ChannelTheorems.EofMeansStderrComplete` | gsi_openssh/source/channels.c:2677-2686 | a receiver that saw EOF from a peer that was neither drained by force nor closed has taken all stderr that was ever read, short of what it dropped itself |
| `ChannelTheorems.OpenReceiverRefills` | gsi_openssh/source/channels.c:2103-2124 | in terms of what the code can see: a receiver that has written out everything and not closed its output refills an exhausted sender, unless the window is a single byte, where the sender sends no stderr or the receiver writes it out |
| `ChannelTheorems.StallCauses` | gsi_openssh/source/channels.c:2103-2124 | every stall of a window of two bytes or more has a closed output, bytes waiting that can no longer be written, or stderr that is not written out behind it |
| `ChannelTheorems.RefillExactly` | gsi_openssh/source/channels.c:2103-2124 | exactly when an exhausted sender is refilled by a receiver that has written out all it can, in terms of the bytes waiting, dropped and lost |
| `ChannelTheorems.RefillAmount` | gsi_openssh/source/channels.c:2110-2124 | with nothing dropped, lost or waiting, the refill is the whole window and its growth, and never zero |
| `ChannelFailures.FailedWriteStalls` | gsi_openssh/source/channels.c:2742-2755 | for every window that a buffer can hold, and every packet limit, a run in which, after a failed write, the sender has no window, nothing is on its way, and the open receiver will not refill it |
| `ChannelFailures.LostStallsExactly` | gsi_openssh/source/channels.c:2742-2755 | a failed write alone can stall exactly the windows below 64 MiB |
| `ChannelFailures.DroppedStderrStalls` | gsi_openssh/source/channels.c:2902-2907 | for every window and packet limit, a run that ends in such a stall because all of the window was used up by stderr that the receiver does not write out |
| `ChannelFailures.JammedStderrStalls` | gsi_openssh/source/channels.c:2064-2068 | for every window that a buffer can hold, a run that ends in such a stall with nothing dropped or lost: the receiver keeps stderr whose descriptor was closed by a failed write |
| `ChannelFailures.JammedStallsExactly` | gsi_openssh/source/channels.c:2064-2068 | such stderr alone can stall exactly the windows below 64 MiB |
| `ChannelTheorems.JammedExactly` | gsi_openssh/source/channels.c:2057-2072 | waiting stderr is stuck exactly when its descriptor is closed |
| `ChannelTheorems.JamKeepsCredit` | gsi_openssh/source/channels.c:2064-2068 | stuck stderr stays for the rest of the run, and so much of the window is never granted again |
| `ChannelRuns.WindowFills` | gsi_openssh/source/channels.c:2718-2773 | any part of any window that a buffer can hold is held unwritten by the receiver in some run, with the block it then has |
| `ChannelFailures.WindowSafeExactly` | gsi_openssh/source/channels.c:2769-2772 | no delivery ends the process of an end with this window and packet limit, in any run, exactly when the window, behind a chunk that is never compacted, ends below the smallest block that cannot grow by a packet; where it does not, a run leads to an append that is fatal |
| `ChannelTheorems.GrowsOnce` | gsi_openssh/source/channels.c:2110-2115 | between any two states of a run with the socket buffer fixed, the largest window of an end changes at most once |
| `ChannelTheorems.TcpWindowFits` | gsi_openssh/source/channels.c:898-916 | the socket buffer size that growth aims at never exceeds 64 MiB, in any run |
| `ChannelTheorems.DeliveryNeverFatal` | gsi_openssh/source/channels.c:2769-2772 | under that condition, the packet at the head of a link is taken by the block that the buffer has in that run |
| `ChannelTheorems.LocalReadsFit` | gsi_openssh/source/channels.c:929-933 | what is read locally because window and memory check ask for it never ends the process |
| `ChannelFailures.GrowthOutrunsBuffer` | gsi_openssh/source/channels.c:2110-2115 | from every first window of two bytes to less than 64 MiB, a run in which the window grows to 64 MiB or more and the delivery of a conforming sender's next byte ends the process |
| `ChannelProgress.PollsDrain` | gsi_openssh/source/channels.c:2539-2708 | from every state of every run, for either end: with all that was read and not sent inside the window, polls of that end alone put exactly these data and stderr bytes on its link, and behind them exactly one EOF if the input has ended and no more stderr can come |
| `ChannelProgress.EverythingArrives` | gsi_openssh/source/channels.c:2744-2747 | from every state of every run in which neither end is closed, the receiver has not failed and takes the stderr it is sent, and its buffers hold its window: a run of deliveries, writes, window checks and polls leads to where all that was read has been written out on the other side |
| `ChannelClosing.EveryChannelCloses` | gsi_openssh/source/nchan.c:468-510 | from every such state of two ends whose inputs can end: a run leads to where all that was read on either side is written out on the other, both CLOSEs have passed, both ends are freed and nothing is on its way |
| `ChannelClosing.NewChannelCloses` | gsi_openssh/source/channels.c:3017-3045 | a confirmed channel with stderr is in such a state, for every window of two bytes or more that its buffers hold |
| `ChannelDiagrams.DiagramsFollowed` | gsi_openssh/source/nchan2.ms:30-82 | every step of an end moves its input and output sides, sends EOF, EOW and CLOSE, and shuts its descriptors down exactly as the state diagrams have it; EOW closes the input where the diagram has it drain |
| `ChannelTheorems.GrowthExactly` | gsi_openssh/source/channels.c:2110-2115 | a window that grows goes beyond the socket buffer by half of what it was short of it, and only with the option and below that buffer |
| `ChannelFailures.DefaultsAreSafe` | gsi_openssh/source/channels.c:2769-2772 | with packets of 32 KiB exactly the windows below 63 MiB are safe, so the default of 128 KiB is |
| `ChannelSafety.RunInv` | gsi_openssh/source/channels.c:2509-2711 | every state of every run keeps the invariant of both directions |
| `ChannelSafety.ActStored` | gsi_openssh/source/channels.c:2130-2138 | a step that appends no more than a block can take keeps the three blocks in step with their buffers |
| `ChannelMemory.CheckedReadFits` | gsi_openssh/source/buffer.c:144-158 | a read of at most what the memory check was asked about fits |
| `ChannelSafety.NextInv` | gsi_openssh/source/channels.c:2130-2138 | one step of either end, or the delivery of one packet, keeps the invariant of both directions |
| `ChannelSafety.DeliverGood` | gsi_openssh/source/channels.c:2718-2873 | delivering the packet at the head of a link keeps the invariant |
| `ChannelSystem.InitInv` | gsi_openssh/source/channels.c:3017-3045 | a confirmed channel starts with both windows agreeing |
| `ChannelSystem.TopUpExact` | gsi_openssh/source/channels.c:2110-2124 | topping up a window whose bytes are all accounted for cannot wrap around 32 bits |
| `ChannelSystem.CheckWindowViews` | gsi_openssh/source/channels.c:2101-2127 | a check either sends exactly one adjust and opens the window by as much, or does nothing |
| `ChannelLinks.DirSend` | gsi_openssh/source/channels.c:2665-2671 | putting a packet on a link keeps order, limits, streams and credit of its direction |
| `ChannelLinks.DirReceive` | gsi_openssh/source/channels.c:2757-2772 | taking a packet off a link keeps them, whether it is kept, charged or ignored |
| `ChannelLinks.DirNews` | gsi_openssh/source/channels.c:3100-3121 | taking credit from the link that leads back keeps them |
| `ChannelObject.Channel.OutputPoll` | gsi_openssh/source/channels.c:2509-2711 | sends what window and packet limit allow, data before stderr, or EOF once drained, as ChannelSpec.OutputPoll |
| `ChannelObject.Channel.PollInput` | gsi_openssh/source/channels.c:2539-2687 | the data half of a poll, on the three buffers in place |
| `ChannelObject.Channel.PollExtended` | gsi_openssh/source/channels.c:2688-2708 | the stderr half of a poll |
| `ChannelObject.Channel.InputData` | gsi_openssh/source/channels.c:2718-2873 | accepts data within the window, charges and credits it on a closed output, and drops what exceeds the window |
| `ChannelObject.Channel.InputExtendedData` | gsi_openssh/source/channels.c:2877-2920 | accepts stderr within the window only where it is written out; ends the connection after EOF |
| `ChannelObject.Channel.CheckWindow` | gsi_openssh/source/channels.c:2101-2127 | window replenishment and dynamic growth, in wrapping 32-bit arithmetic |
| `ChannelObject.Channel.InputWindowAdjust` | gsi_openssh/source/channels.c:3100-3121 | adds credit to the remote window |
| `ChannelObject.Channel.InputOpenConfirmation` | gsi_openssh/source/channels.c:3017-3045 | opens the channel with the peer's window and packet limit |
| `ChannelObject.Channel.SetFds` | gsi_openssh/source/channels.c:846-860 | activates a larval session and announces its first window |
| `ChannelObject.Channel.PreOpen` | gsi_openssh/source/channels.c:919-959 | reads locally exactly with an open input, less buffered than the window and twice the socket buffer, and a buffer that can take 16 KiB; takes over the socket buffer the first time or with the option |
| `ChannelObject.Channel.HandleRfd` | gsi_openssh/source/channels.c:1757-1874 | a read of the local side, or its failure |
| `ChannelObject.Channel.HandleWfd` | gsi_openssh/source/channels.c:1878-2046 | a write to the local side, whole, partial, failed or put off |
| `ChannelObject.Channel.HandleEfd` | gsi_openssh/source/channels.c:2049-2098 | writing received stderr or reading local stderr |
| `ChannelObject.Channel.InputEof` | gsi_openssh/source/channels.c:2924-2944 | the peer's EOF, and a forced drain |
| `ChannelObject.Channel.RcvdClose` | gsi_openssh/source/nchan.c:304-339 | the peer's CLOSE in every state of both directions |
| `ChannelObject.Channel.RcvdEof` | gsi_openssh/source/nchan.c:353-359 | EOF starts the draining of the output, or waits for stderr |
| `ChannelObject.Channel.RcvdEow` | gsi_openssh/source/nchan.c:342-351 | the peer takes no more: the local side is no longer read |
| `ChannelObject.Channel.ReadFailed` | gsi_openssh/source/nchan.c:164-177 | a failed read starts the draining of the input |
| `ChannelObject.Channel.WriteFailed` | gsi_openssh/source/nchan.c:361-377 | a failed write closes the output and tells the peer of a session, if it is one that knows |
| `ChannelObject.Channel.SendEow` | gsi_openssh/source/nchan.c:412-429 | EOW is sent only to a peer that takes it |
| `ChannelObject.Channel.IbufEmpty` | gsi_openssh/source/nchan.c:179-203 | a drained input sends EOF once |
| `ChannelObject.Channel.ObufEmpty` | gsi_openssh/source/nchan.c:243-263 | a drained output is closed |
| `ChannelObject.Channel.Collect` | gsi_openssh/source/nchan.c:468-510 | an end closed in both directions sends CLOSE once |
| `FifoBuffer.Buffer.constructor` | gsi_openssh/source/buffer.c:34-43 | an empty buffer of 4096 bytes |
| `FifoBuffer.Buffer.AppendSpace` | gsi_openssh/source/buffer.c:103-137 | opens exactly `len` bytes behind the contents, which stay as they are, after at most one compaction and one growth; fatal exactly as the shape says |
| `FifoBuffer.Buffer.Append` | gsi_openssh/source/buffer.c:72-77 | appends to the contents, or is fatal and leaves them |
| `FifoBuffer.Buffer.Compact` | gsi_openssh/source/buffer.c:80-94 | moves the data to the front and keeps it |
| `FifoBuffer.Buffer.CheckAlloc` | gsi_openssh/source/buffer.c:144-158 | the exact answer for every length; for at most a chunk a positive one guarantees that the append is not fatal |
| `FifoBuffer.Buffer.GetRet` | gsi_openssh/source/buffer.c:171-181 | takes bytes off the front, or fails and takes none |
| `FifoBuffer.Buffer.ConsumeRet` | gsi_openssh/source/buffer.c:193-201 | drops bytes at the front |
| `FifoBuffer.Buffer.ConsumeEndRet` | gsi_openssh/source/buffer.c:213-219 | drops bytes at the end |
| `FifoBuffer.AppendKeepsLive` | gsi_openssh/source/buffer.c:103-137 | a live buffer stays live, with `end` strictly below `alloc` and a block of 4096 bytes or a multiple of 32 KiB, and grows by exactly `len` |
| `FifoBuffer.AppendMonotone` | gsi_openssh/source/buffer.c:144-158 | where a length can be appended, so can any smaller one |
| `FifoBuffer.AppendSafeExactly` | gsi_openssh/source/buffer.c:103-137 | exactly the fill levels at which an append of a given size is not fatal in any block of a size that buffers have |
| `FifoBuffer.RoomInBytes` | gsi_openssh/source/buffer.c:103-137 | the same fill levels in numbers of bytes |
| `FifoBuffer.AppendFatalAbove` | gsi_openssh/source/buffer.c:120-128 | a fill level from which every append is fatal |
| `FifoBuffer.CheckMeansAppend` | gsi_openssh/source/buffer.c:144-158 | for at most a chunk, the check's wrapping arithmetic is that of the append |
| `Socks.FragmentationInsensitive` | gsi_openssh/source/channels.c:1398-1437 | however a stream is cut and whenever the decoder is called in between, the outcome is that of the whole stream at once |
| `Socks.HandshakeAccepted` | gsi_openssh/source/channels.c:1128-1236 | every well-formed handshake of version 4, 4A or 5 is accepted with its host, port, replies and leftover input (RFC 1928 sections 3 to 6 for version 5) |
| `Socks.AcceptedIsHandshake` | gsi_openssh/source/channels.c:1398-1437 | nothing else is accepted |
| `Socks.Encoded4Accepted` | gsi_openssh/source/channels.c:1128-1236 | decoding undoes encoding, version 4 and 4A |
| `Socks.Encoded5Accepted` | gsi_openssh/source/channels.c:1249-1370 | decoding undoes encoding, version 5 |
| `Socks.AcceptedEncodes` | gsi_openssh/source/channels.c:1249-1370 | what one call accepts is the encoding of the request it reports |
| `Socks.PollStable` | gsi_openssh/source/channels.c:1398-1437 | once a verdict is reached, more input changes nothing but the leftover |
| `Socks.QuiesceIsStable` | gsi_openssh/source/channels.c:1398-1437 | a quiescent decoder has nothing more to do |
| `Socks.HandshakeIsLaid` | gsi_openssh/source/channels.c:1128-1370 | the bytes of a handshake: versions, commands, port with its more significant byte first, address, strings and their terminators |
| `SocksDecisions.UndecidedExactly` | gsi_openssh/source/channels.c:1398-1437 | the decoder waits for more exactly while the bytes so far are the beginning of a greeting or request with nothing wrong in it |
| `SocksDecisions.RejectedExactly` | gsi_openssh/source/channels.c:1398-1437 | it rejects exactly the streams that are neither such a beginning nor begin with a handshake |
| `SocksDecisions.PendingIsShort` | gsi_openssh/source/channels.c:1150-1176 | a stream of more than 1282 bytes is always decided |
| `SocksChannel.DynamicChannel.PreDynamic` | gsi_openssh/source/channels.c:1398-1437 | one call on the channel's buffers, as Socks.Poll |
| `SocksChannel.DynamicChannel.DecodeSocks4` | gsi_openssh/source/channels.c:1128-1236 | version 4 and 4A, scanning and consuming in place |
| `SocksChannel.DynamicChannel.ScanForStrings` | gsi_openssh/source/channels.c:1150-1176 | finds the terminators of one or two strings, or garbage of more than 1024 bytes |
| `SocksChannel.DynamicChannel.DecodeSocks5` | gsi_openssh/source/channels.c:1249-1370 | version 5: negotiation, then the request |
| `SocksChannel.DynamicChannel.DecodeGreeting5` | gsi_openssh/source/channels.c:1268-1297 | accepts a greeting that offers no authentication |
| `SocksChannel.DynamicChannel.DecodeRequest5` | gsi_openssh/source/channels.c:1299-1369 | reads a connect request to an address or a name |
| `AuthRuns.SuccessExactly` | gsi_openssh/source/auth2.c:393-435 | with lists configured, a connection has succeeded exactly when one enabled list was completed, element by element and in order, by those of its steps that authenticated |
| `AuthRuns.UnlistedSuccessExactly` | gsi_openssh/source/auth2.c:384-435 | without lists, a connection has succeeded exactly when one of its steps authenticated the user, and not root against its configuration |
| `AuthRuns.SuccessIsGranted` | gsi_openssh/source/auth2.c:423-435 | with or without lists, the last step of a connection that succeeded authenticated |
| `AuthRuns.HistoryIsGranted` | gsi_openssh/source/auth2.c:384-400 | the results a connection goes by are exactly those of its steps that authenticated |
| `AuthRuns.TriesExactly` | gsi_openssh/source/auth2.c:436-449 | the failures are the finished tries that were not postponed, nor the server's fault, nor an initial "none"; a connection that goes on has fewer than it may |
| `AuthRuns.EndsExactly` | gsi_openssh/source/auth2.c:372-449 | exactly which next attempt ends a connection: an impossible one, a result that no list awaits, an account that may not log in, or a try that reaches the limit |
| `Auth.StoredAreRemainders` | gsi_openssh/source/auth2.c:675-697 | every list still stored is a configured one without its first elements, and those were satisfied in order |
| `Auth.RunInvariant` | gsi_openssh/source/auth2.c:372-458 | what is stored, and whether the connection succeeded, follow from its history |
| `Auth.UpdateAdvances` | gsi_openssh/source/auth2.c:675-697 | updating the strings is advancing every list of elements by one result |
| `Auth.FoundExactly` | gsi_openssh/source/auth2.c:675-697 | a result is accounted for exactly when some stored list starts with it |
| `Auth.AllowedExactly` | gsi_openssh/source/auth2.c:466-483 | a method is offered exactly when the next element of a stored list names it, with or without a device, or no lists are configured |
| `Auth.ValidExactly` | gsi_openssh/source/auth2.c:537-576 | a list is valid exactly when it is not empty and every element names a method of the table, alone or with a device, that may be used |
| `Auth.EnabledListsAreValid` | gsi_openssh/source/auth2.c:586-614 | exactly the configured lists whose methods are all enabled are kept |
| `AuthLists.StartsWithMeaning` | gsi_openssh/source/auth2.c:617-641 | the string test compares with the first element of the list |
| `AuthLists.RemoveAdvances` | gsi_openssh/source/auth2.c:649-666 | removing a method from the string is dropping the first element |
| `AuthLists.RemovedWereSatisfied` | gsi_openssh/source/auth2.c:649-666 | every element removed so far was satisfied by a result of its own, in order |
| `AuthLists.GreedyKeepsUp` | gsi_openssh/source/auth2.c:649-666 | any way to complete a list in order is matched by the greedy one |
| `AuthLists.UsedUpMeansCompleted` | gsi_openssh/source/auth2.c:675-697 | a list is used up exactly when it was completed in order |
| `AuthLists.JoinPieces` | gsi_openssh/source/auth2.c:550-576 | splitting at commas and joining gives the list back |
| `AuthContext.Authctxt.UserauthFinish` | gsi_openssh/source/auth2.c:372-458 | the end of one attempt, as Auth.UserauthFinish; AuthRuns says what a connection of such ends comes to |
| `AuthContext.Authctxt.UpdateMethodsLists` | gsi_openssh/source/auth2.c:675-697 | prunes the lists in place, and stops at the first that becomes empty |
| `AuthContext.Authctxt.MethodsValid` | gsi_openssh/source/auth2.c:537-576 | a list is valid when it is not empty and all its methods are known and enabled |
| `AuthContext.Authctxt.SetupMethodsLists` | gsi_openssh/source/auth2.c:586-614 | stores the valid lists, and fails if there are none |
| `AuthContext.Authctxt.MethodAllowed` | gsi_openssh/source/auth2.c:466-483 | whether some stored list starts with the method |
| `AuthContext.Authctxt.RemoveMethodAt` | gsi_openssh/source/auth2.c:649-666 | cuts one method off one list, if the list starts with it |
| `BsonRoundTrip.BuildDocument` | calipers/src/bson.c:585-610 | for every well-formed tree: if building succeeds, the tree has at most 32 open objects, its encoding was produced, and reading that back gives the tree; it runs over its stack only on deeper trees, and out of `int` only beyond some 700 MB |
| `BsonFormat.DocIsLaid` | calipers/src/bson.c:395-600 | an encoded document is laid out as the format has it: little-endian lengths that count everything, the type codes of bson.h, keys and strings with terminators, and a zero at the end |
| `BsonFormat.SimpleElemIsLaid` | calipers/src/bson.c:466-540 | so is one appended element of each simple type |
| `BsonReading.OtherTypes` | calipers/src/bson.c:199-242 | the iterator stays at the end, steps over time stamps and database references, and gives up on unknown types |
| `BsonRoundTrip.BehindTheEnd` | calipers/src/bson.c:412-432 | what is appended to a finished buffer lies behind the document and is not read with it |
| `BsonRoundTrip.AppendElem` | calipers/src/bson.c:466-553 | appending one element, of any type, extends the open level by it, and runs over the stack exactly when the element is nested too deep |
| `BsonRoundTrip.ObjectBuilt` | calipers/src/bson.c:585-610 | an object opened, filled and closed is that object appended |
| `BsonBuilding.FilledCloses` | calipers/src/bson.c:599-610 | writing the distance over the four reserved bytes closes the innermost object |
| `BsonBuilding.EncClosed` | calipers/src/bson.c:599-610 | a closed object's length is its exact span |
| `BsonBuilding.BsonBuffer.AppendFinishObject` | calipers/src/bson.c:599-610 | writes the length of the innermost object in little-endian bytes over its place, wherever the block has moved since, and changes no other byte; with none open it looks in front of its stack |
| `BsonBuilding.BsonBuffer.AppendStart` | calipers/src/bson.c:585-597 | opens an object or array and remembers where its length goes, or writes behind its stack on the 33rd open one |
| `BsonBuilding.BsonBuffer.EnsureSpace` | calipers/src/bson.c:412-432 | makes room without losing a byte, on a finished buffer too, unless the new size is beyond `int` |
| `BsonBuilding.BsonBuffer.AppendEstart` | calipers/src/bson.c:453-460 | writes type and name with room for the value |
| `BsonBuilding.BsonBuffer.Finish` | calipers/src/bson.c:434-444 | the finished bytes encode the elements and begin with their number, least significant byte first; finishing again gives them again |
| `BsonBuilding.BsonBuffer.AppendInt` | calipers/src/bson.c:466-470 | never writes past the block, adds exactly the bytes of this element, and extends the open level by it unless the buffer is finished |
| `BsonBuilding.BsonBuffer.AppendLong` | calipers/src/bson.c:471-475 | never writes past the block, adds exactly the bytes of this element, and extends the open level by it unless the buffer is finished |
| `BsonBuilding.BsonBuffer.AppendDouble` | calipers/src/bson.c:476-480 | never writes past the block, adds exactly the bytes of this element, and extends the open level by it unless the buffer is finished |
| `BsonBuilding.BsonBuffer.AppendBool` | calipers/src/bson.c:481-485 | never writes past the block, adds exactly the bytes of this element, and extends the open level by it unless the buffer is finished |
| `BsonBuilding.BsonBuffer.AppendNull` | calipers/src/bson.c:486-489 | never writes past the block, adds exactly the bytes of this element, and extends the open level by it unless the buffer is finished |
| `BsonBuilding.BsonBuffer.AppendUndefined` | calipers/src/bson.c:490-493 | never writes past the block, adds exactly the bytes of this element, and extends the open level by it unless the buffer is finished |
| `BsonBuilding.BsonBuffer.AppendStringBase` | calipers/src/bson.c:494-500 | never writes past the block, adds exactly the bytes of this element, and extends the open level by it unless the buffer is finished |
| `BsonBuilding.BsonBuffer.AppendBinary` | calipers/src/bson.c:522-528 | never writes past the block, adds exactly the bytes of this element, and extends the open level by it unless the buffer is finished |
| `BsonBuilding.BsonBuffer.AppendOid` | calipers/src/bson.c:529-533 | never writes past the block, adds exactly the bytes of this element, and extends the open level by it unless the buffer is finished |
| `BsonBuilding.BsonBuffer.AppendRegex` | calipers/src/bson.c:540-547 | never writes past the block, adds exactly the bytes of this element, and extends the open level by it unless the buffer is finished |
| `BsonBuilding.BsonBuffer.AppendDate` | calipers/src/bson.c:575-579 | never writes past the block, adds exactly the bytes of this element, and extends the open level by it unless the buffer is finished |
| `BsonBuilding.BsonBuffer.AppendCodeWScope` | calipers/src/bson.c:511-520 | copies a document by the size it states, or looks behind its end; with the document of some elements the open level is extended by exactly this element |
| `BsonBuilding.BsonBuffer.AppendBson` | calipers/src/bson.c:549-553 | copies a document by the size it states, or looks behind its end; with the document of some elements the open level is extended by exactly this element |
| `BsonReading.ReadsBack` | calipers/src/bson.c:195-256 | reading an encoded document gives its elements back, recursively |
| `BsonReading.ValueReads` | calipers/src/bson.c:195-244 | every encoded value is stepped over by exactly its size and read back |
| `BsonReading.Iterator.Next` | calipers/src/bson.c:195-244 | one step on any data: to the next element, staying at the end, fatal on an unknown type, or outside of the data |
| `BsonReading.Elements` | calipers/src/bson.c:195-256 | going through an encoded document yields exactly its elements, in order, and then the end |
| `Bson.Le32RoundTrip` | calipers/src/bson.c:260-264 | a four-byte integer, least significant byte first, is read back, negative ones included |
| `SListSort.Sort` | libltdl/slist.c:307-336 | terminates and relinks the same nodes into the stably sorted chain, for any acyclic list |
| `SListSort.SortMerge` | libltdl/slist.c:273-297 | relinks two chains into their merge, leaving no node out |
| `SListSort.Cut` | libltdl/slist.c:316-330 | cuts a list of two or more nodes into two chains of half its length |
| `SListSpec.SortIsStable` | libltdl/slist.c:307-336 | for any total preorder: the same nodes, in order, equal ones in their old order |
| `SListSpec.MergeSorts` | libltdl/slist.c:273-297 | merging ordered lists gives an ordered list |
| `SListSpec.MergeStable` | libltdl/slist.c:273-297 | among equal nodes those of the left list come first |
| `SListSpec.MergePermutes` | libltdl/slist.c:273-297 | merging keeps exactly the nodes of both lists |
| `ArgzSpec.InsertedInOrder` | libltdl/ltdl.c:1744-1762 | any series of insertions leaves exactly the distinct names, in alphabetic order, and the bytes decode to them |
| `ArgzSpec.InsertKeepsOrder` | libltdl/ltdl.c:1744-1762 | one insertion keeps the names strictly increasing and adds just that name |
| `ArgzVector.Argz.InsertInOrder` | libltdl/ltdl.c:1744-1762 | inserts a name into the bytes in order, or leaves them on a duplicate or without memory |
| `ArgzVector.Argz.Insert` | libltdl/argz.c:132-174 | opens a gap before the entry that the position lies in and writes the entry there |
| `ArgzVector.Argz.Append` | libltdl/argz.c:49-76 | appends to the vector, or leaves it without memory |
| `ArgzVector.Argz.Next` | libltdl/argz.c:178-208 | the position behind the terminator of an entry, or the end |
| `ArgzVector.NextVisits` | libltdl/argz.c:178-208 | going from entry to entry visits all strings of the vector, in order |
| `ArgzVector.Argz.CreateSep` | libltdl/argz.c:80-128 | copies text with NULs for its delimiters, runs of them folded |
| `ArgzVector.Argz.Stringify` | libltdl/argz.c:212-225 | puts separators between the entries; with less than two bytes it starts behind the block |
| `ArgzSpec.SeparatedMeaning` | libltdl/argz.c:80-128 | the vector holds exactly the non-empty pieces, and one empty string more for empty text or text that ends with a delimiter |
| `ArgzSpec.SplitAndStringify` | libltdl/argz.c:212-225 | for text without empty pieces, stringifying the split restores it |
| `ArgzSpec.EntriesOfEncode` | libltdl/argz.c:178-208 | an argz vector determines its strings |
| `ArgzSpec.StrcmpOrder` | libltdl/ltdl.c:1755-1758 | the comparison is antisymmetric, and zero only for equal strings |
| `ArgzSpec.StrcmpMeaning` | libltdl/ltdl.c:1755-1758 | it is negative exactly when the first text is a proper beginning of the second, or has the smaller byte where they first differ |
| `SearchPathSpec.CanonicalExactly` | libltdl/ltdl.c:580-638 | the result is canonical, and canonicalizing is idempotent, exactly when no element of slashes alone follows an element that names something; the result then lists the cleaned elements |
| `SearchPathSpec.CanonFixes` | libltdl/ltdl.c:580-638 | exactly the canonical paths are left as they are |
| `SearchPathSpec.UnsoundExample` | libltdl/ltdl.c:599-605 | a path whose result has a doubled colon |
| `SearchPathSpec.DirectoriesOfPath` | libltdl/ltdl.c:640-669 | for every path the vector holds just its cleaned directories, and behind them one empty name unless the last element that is not empty names something |
| `SearchPathSpec.StringifiedPath` | libltdl/ltdl.c:640-669 | for a sound path, stringifying that vector gives the canonical path back |
| `SearchPath.CanonicalizePath` | libltdl/ltdl.c:580-638 | the copying loop, within its block |
| `SearchPath.ForeachDirInPath` | libltdl/ltdl.c:671-733 | for every path: the callback gets the directories in order, each joined to the base name by one slash, and the walk ends as PathWalk says |
| `SearchPath.WalkMeaning` | libltdl/ltdl.c:671-733 | the names tried are those of the directories in order, up to the first answered; if none is, an empty name is left over exactly when the last non-empty element names nothing |
| `SearchPath.OutOfBoundsExactly` | libltdl/ltdl.c:712-716 | the walk reads in front of its block exactly with a base name, a last non-empty element that names nothing, and no name answered |
| `SearchPath.RootIsOutOfBounds` | libltdl/ltdl.c:712-716 | a search path of the root directory alone does so, for every base name |
| `SearchPath.DoubledColonIsHarmless` | libltdl/ltdl.c:671-733 | the path with the doubled colon is walked as its two directories |
| `SearchPath.ForeachEntry` | libltdl/ltdl.c:695-725 | the loop over the entries of any vector |
| `SearchPath.MakeRoom` | libltdl/ltdl.c:701-707 | the block is replaced exactly when it may be too small, and then large enough |
| `SearchPath.Compose` | libltdl/ltdl.c:710-718 | the block holds the directory, one slash and the base name, or the directory alone; an empty directory with a base name makes it read in front of the block |
| `SearchPath.WalkJoins` | libltdl/ltdl.c:710-724 | every name of a walk is one of the directories, in their order, joined so |
| `Cbc.RijndaelCbc.Crypt` | gsi_openssh/source/cipher-aes.c:71-114 | encrypts or decrypts whole blocks, also onto its own input, and chains on the last ciphertext block; other lengths are fatal |
| `Cbc.RijndaelCbc.EncryptForward` | gsi_openssh/source/cipher-aes.c:88-99 | the forward loop computes CBC encryption (NIST SP 800-38A section 6.2) |
| `Cbc.RijndaelCbc.DecryptBackward` | gsi_openssh/source/cipher-aes.c:100-112 | the backward loop computes CBC decryption |
| `Cbc.DecryptsEncrypted` | gsi_openssh/source/cipher-aes.c:71-114 | decrypting what was encrypted gives it back |
| `Cbc.SessionRoundTrip` | gsi_openssh/source/cipher-aes.c:71-114 | two contexts that start alike stay in step over any series of packets |
| `Cbc.EncryptsInParts` | gsi_openssh/source/cipher-aes.c:88-99 | two calls encrypt as one call on both texts |
| `Cbc.DecryptsInParts` | gsi_openssh/source/cipher-aes.c:100-112 | two calls decrypt as one call on both ciphertexts |
| `Cbc.EncryptsBlocks` | gsi_openssh/source/cipher-aes.c:88-99 | block by block: each is encrypted after the ciphertext block before it was added (NIST SP 800-38A section 6.2) |
| `Cbc.DecryptsBlocks` | gsi_openssh/source/cipher-aes.c:100-112 | block by block: each is decrypted before the ciphertext block before it is added |
| `Ctr.CtrInc` | gsi_openssh/source/cipher-ctr.c:49-56 | the carry loop increments the counter in place |
| `Ctr.IncAddsOne` | gsi_openssh/source/cipher-ctr.c:49-56 | incrementing adds one modulo 256 to the length, most significant byte first |
| `Ctr.IncCarries` | gsi_openssh/source/cipher-ctr.c:49-56 | the octets of 255 at the end become zero, the one in front of them goes up by one, all others stay |
| `Ctr.CryptsOctets` | gsi_openssh/source/cipher-ctr.c:59-80 | octet by octet: each is added to its octet of the encrypted counter that many blocks behind the first (RFC 4344 section 4) |
| `Ctr.AfterAdds` | gsi_openssh/source/cipher-ctr.c:49-56 | the k-th counter is the first plus k, modulo 256^16 |
| `Ctr.CountersDiffer` | gsi_openssh/source/cipher-ctr.c:66-77 | no two of 256^16 successive blocks are made from the same counter |
| `Ctr.AesCtr.Process` | gsi_openssh/source/cipher-ctr.c:59-80 | adds the key stream octet by octet and leaves the counter behind the blocks it used, for any length (RFC 4344 section 4) |
| `Ctr.OwnInverse` | gsi_openssh/source/cipher-ctr.c:59-80 | decrypting is encrypting from the same counter |
| `Ctr.CryptsInParts` | gsi_openssh/source/cipher-ctr.c:59-80 | calls that end at a block boundary can be joined |
| `Ctr.PartsInsideBlock` | gsi_openssh/source/cipher-ctr.c:59-80 | for every counter, every first text that ends inside a block and every second text, some invertible cipher tells two calls from one |
| `Ctr.JoinableExactly` | gsi_openssh/source/cipher-ctr.c:59-80 | two calls can be joined under every invertible cipher exactly when the first text ends at a block boundary or the second is empty |
| `WireSpec.ReadsBack` | gsi_openssh/source/bufbn.c:142-216 | for every item, the matching get returns it and leaves the rest exactly when it fits: strings of 256 KiB, numbers of 8192 bytes, version 1 numbers below 65536 bits |
| `WireSpec.SeriesReadsBack` | gsi_openssh/source/bufaux.c:58-305 | any series of puts is read back by the matching gets |
| `WireSpec.ShortestAccepted` | gsi_openssh/source/bufbn.c:188-216 | every accepted encoding of a number is the one that is sent, with zeros in front (RFC 4251 section 5) |
| `WireSpec.DigitsOfBits` | gsi_openssh/source/bufbn.c:61-75 | the bytes of a number are as many as its bits call for, so that the length check never fails |
| `WireSpec.Bignum1ReadsBack` | gsi_openssh/source/bufbn.c:59-130 | the 16-bit count cuts numbers of 65536 bits and more, which then leave bytes behind |
| `WireMeaning.EncIsLaid` | gsi_openssh/source/bufaux.c:58-316 | the bytes of every item: most significant byte first, lengths in four bytes, bit counts in two, numbers without leading zeros but for a clear sign bit |
| `WireMeaning.BitsMeaning` | gsi_openssh/source/bufbn.c:61-61 | the bit count is the least number of bits that hold the number |
| `WireMeaning.NumberExactly` | gsi_openssh/source/bufaux.c:59-113 | a number is got exactly from its bytes, and nothing is taken when there are too few |
| `WireMeaning.StringExactly` | gsi_openssh/source/bufaux.c:165-193 | a string is got exactly when its length comes first and is at most 256 KiB; a failure takes the length |
| `WireMeaning.CStringExactly` | gsi_openssh/source/bufaux.c:206-226 | a C string is got exactly when it has no NUL in front of its last byte |
| `WireMeaning.Bignum1Exactly` | gsi_openssh/source/bufbn.c:99-130 | a version 1 number: exactly as many bytes as its bit count calls for, at most 8192 |
| `WireMeaning.MpintExactly` | gsi_openssh/source/bufbn.c:188-216 | a version 2 number is got exactly from a string of at most 8192 bytes with a clear sign bit |
| `Wire.PutString` | gsi_openssh/source/bufaux.c:271-275 | appends length and bytes |
| `Wire.GetString` | gsi_openssh/source/bufaux.c:165-193 | a string within 256 KiB and the buffer, or failure behind its length |
| `Wire.GetCString` | gsi_openssh/source/bufaux.c:206-226 | refuses a NUL that is not the last byte |
| `Wire.PutNumber` | gsi_openssh/source/bufaux.c:130-154 | appends an integer, most significant byte first |
| `Wire.GetNumber` | gsi_openssh/source/bufaux.c:59-113 | takes an integer, or fails and takes nothing |
| `Wire.PutChar` | gsi_openssh/source/bufaux.c:311-316 | appends one byte |
| `Wire.GetChar` | gsi_openssh/source/bufaux.c:288-295 | takes one byte |
| `Wire.PutBignum` | gsi_openssh/source/bufbn.c:59-86 | appends bit count and bytes |
| `Wire.GetBignum` | gsi_openssh/source/bufbn.c:99-130 | takes them, within 8192 bytes |
| `Wire.PutBignum2` | gsi_openssh/source/bufbn.c:143-178 | appends a number with a clear sign bit, fatal exactly when one of its appends is; refuses negative ones and puts nothing |
| `Wire.GetBignum2` | gsi_openssh/source/bufbn.c:188-216 | takes a number; refuses negative ones and more than 8192 bytes |
| `AddrMatch.Netmatch` | gsi_openssh/source/addrmatch.c:351-363 | 0 exactly when host and network are of one family and scope, agree on their first bits, and the network has no host bits set (RFC 4632 section 3.1) |
| `AddrMatch.Netmask` | gsi_openssh/source/addrmatch.c:118-144 | a mask of exactly `masklen` leading ones |
| `AddrMatch.Hostmask` | gsi_openssh/source/addrmatch.c:261-266 | ones exactly behind them |
| `AddrMatch.HostIsAllZeros` | gsi_openssh/source/addrmatch.c:297-307 | whether all bits behind `masklen` are zero |
| `AddrMatch.AddrAnd` | gsi_openssh/source/addrmatch.c:151-171 | keeps the bits set in both, and the scope |
| `AddrMatch.AddrCmp` | gsi_openssh/source/addrmatch.c:178-200 | orders by family, number and scope |
| `AddrMatch.OrderMeaning` | gsi_openssh/source/addrmatch.c:178-200 | IPv4 first, then the first bit in which two addresses differ, then their scope |
| `AddrMatch.OrderIsStrict` | gsi_openssh/source/addrmatch.c:178-200 | 0 only for equal addresses, and antisymmetric |
| `AddrMatch.IsAllZeros` | gsi_openssh/source/addrmatch.c:273-288 | whether no bit is set |
| `AddrMatch.PtonCidr` | gsi_openssh/source/addrmatch.c:314-348 | a network, or -1 for what is none, or -2 for a mask that does not fit |
| `AddrMatch.MatchEntry` | gsi_openssh/source/addrmatch.c:391-421 | -2 exactly for an empty entry or one whose address and prefix length do not go together, -1 exactly for one with "!" in front of a network or pattern of the address, 1 exactly for a network or pattern of the address |
| `AddrMatch.MatchList` | gsi_openssh/source/addrmatch.c:378-426 | on the text between the commas: -2 or -1 exactly when the first entry that is invalid or denies the address does so, otherwise 1 exactly when some entry accepts it; 0 for an address that cannot be read |
| `AddrSpec.MaskedEquals` | gsi_openssh/source/addrmatch.c:351-363 | comparing the masked host with the network decides membership |
| `AddrSpec.OutcomeMeaning` | gsi_openssh/source/addrmatch.c:378-426 | -2 or -1 exactly at the first entry that is invalid or denies; otherwise 1 exactly when some entry matches |
| `AddrSpec.ListMeaning` | gsi_openssh/source/addrmatch.c:378-426 | what a list answers, by the networks and patterns that its entries name |
| `AddrSpec.JudgeMeaning` | gsi_openssh/source/addrmatch.c:392-420 | what one entry answers, by its text |
| `AddrSpec.ParseMeaning` | gsi_openssh/source/addrmatch.c:314-348 | text is a network exactly if it is an address, alone or with a prefix length behind a slash, with no bit set behind that prefix |
| `Calipers.UpdateIsExact` | calipers/src/nl_calipers.h:126-139 | one more sample keeps the running mean and sum of squared deviations exact |
| `Calipers.Summary.Add` | calipers/src/nl_calipers.h:126-146 | after any samples: exact sum with zero compensation, exact mean and deviation, extremes |
| `Calipers.Summary.Calc` | calipers/src/nl_calipers.c:213-224 | the mean agrees with the running mean; the deviation is that of the sample, or -1 for too few |
| `Calipers.Caliper.End` | calipers/src/nl_calipers.h:216-251 | an ended event is added to values and, if it has value and duration, to rates and gaps; without a begin nothing changes |
| `Calipers.Caliper.Begin` | calipers/src/nl_calipers.h:199-205 | records the time, and the first time since a clear |
| `Calipers.RateMeaning` | calipers/src/nl_calipers.h:228-230 | an event with a value and a duration has the rate that, over its nanoseconds, gives its value, and the gap that is one over it |
| `Calipers.Caliper.Calc` | calipers/src/nl_calipers.c:213-227 | the results are those of all events since the last clear; calling it again has no effect |
| `Calipers.Caliper.Clear` | calipers/src/nl_calipers.c:189-211 | forgets all events |
| `Calipers.DeviationShifts` | calipers/src/nl_calipers.h:126-139 | squared deviations from another centre |
| `Calipers.DeviationNonnegative` | calipers/src/nl_calipers.c:98-99 | the square root is taken of nothing negative |
| `Calipers.MaximumExactly` | calipers/src/nl_calipers.c:199-199 | the kept maximum, which starts at zero, is a sample exactly when some sample is not negative |
| `Calipers.MinimumExactly` | calipers/src/nl_calipers.c:198-198 | the kept minimum is the least sample |

## Left out

- Sockets, select and its descriptor sets, terminals, name resolution, processes, PAM, GSSAPI and OpenSSL: what they answer is a parameter.
- Datagram channels, input and output filters, X11 cookies, mux clients, simulated echo, the audit hooks and protocol versions 1.3 and 1.5: other paths around the same buffers.
- The opening request and its failure, and the reuse of channel numbers: a run starts when the request was accepted and its confirmation is on its way.
- Re-keying, and the workaround for peers that send stderr after EOF.
- A read that a terminal forces when its session is detached is modelled as a read that ignores the window.
- ChannelObject.Channel: the three buffers are separate objects of the record; the record's list of channels is left out, since channels do not touch each other.
- SocksChannel.DynamicChannel: holds its buffers as byte sequences; `FifoBuffer.Buffer` shows that buffers behave so.
- AuthContext.Authctxt: the lists are a sequence of strings; the message that lists the methods left is not modelled.
- BsonReading.Iterator.Next: stops where the source goes on to read outside of damaged data.
- BsonBuilding.BsonBuffer.EnsureSpace: `overflow` stands for arithmetic beyond `int`, for which C gives no meaning; memory never runs out, which would end the process.
- BsonBuilding.BsonBuffer.AppendStart: stops where the source goes on with what it wrote behind its stack, as AppendFinishObject does with what it read in front of it.
- BSON elements copied under another name, database references, the generation of object identifiers and printing; doubles, dates and long integers are eight bytes.
- Removing, finding, reversing and boxing list nodes in slist.c: one loop each, with no property beyond it.
- ArgzVector.Argz: memory is a yes or no given with each call.
- SearchPath.ForeachDirInPath: stops at the read in front of the block; memory never runs out there.
- ArgzVector.Argz.Stringify: stops at the first access behind the block.
- ChannelFailures.WindowSafeExactly: for packet limits up to what a packet can carry. The packet layer is left out: it refuses packets of more than 256 KiB (packet.c:89, 1301-1330), which a sender may build when it is told a larger limit, as for agent channels (clientloop.c:1966-1968), and the connection ends there.
- ChannelSystem.Stored: the buffers of the channel only; those of the connection, which its channels share, are left out.
- The loading of libraries, archive files, and the listing of directories in ltdl.c.
- CipherBlocks.Cipher: the block cipher is any function on blocks, with an inverse where decryption is meant; keys and missing contexts are left out.
- Wire.PutBignum2: the conversion between big numbers and bytes is that of mathematics, and never fails.
- The getters that end the process on failure, those that return a pointer into the buffer, and the conversion of strings on Windows.
- AddrSpec.Addr: only the two families that can be parsed; words and bytes are in network order.
- AddrSpec.Resolver: numeric addresses, decimal numbers and wildcard patterns are given functions. The stricter list walk for certificates is left out.
- Calipers.Summary: over reals, with at least two samples for a deviation; the mean of no samples is none. The square root is a given function.
- Histograms, log messages and the clock of the calipers.
