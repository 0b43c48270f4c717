# Turn-server libraries: verified models of buffers, codec, reflection and load-balancer client

The repository is a C++ turn server built on a set of small libraries. This project models the
libraries whose behaviour is hardest to see from one function at a time, and proves what they promise.

* **Reference-counted scattered buffers** (`Memory`, `SliceOps`, `Slices`, `Flat`, `Span`, `Proxy`).
  `Memory` and `SliceOps` give blocks, slices and every slice operation as steps on values; `Slices`
  has the objects, updated in place, each method tied to its step; `Span` is the class
  `MemSliceSpan` with its four slots; `Flat` holds what its operations mean for one flat byte string;
  `Proxy` reads and writes typed fields laid out in a span.
* **Wire codec and framing** (`Bytes`, `VarInt`, `Values`, `Wire`, `Packing`, `Packers`, `Unpackers`,
  `Stream`). `Wire` is the format as functions, `Packers.Packer` and `Unpackers.Unpacker` are the
  objects that write and read it, `Stream` cuts packets out of a TCP byte stream.
* **Compile-time counter, sequences, attributes** (`Counter`, `Reflect`), as recursive functions.
* **Load-balancer client** (`Session`, `Timers`, `LbsClient`): one connection's handshake as a state
  machine and as an object, timers that hand their events over by swapping, and the client that
  reconciles its connections with a list of addresses.
* **Socket addresses** (`Addresses`): the unrolled struct orders and the tagged union.

A block that no slice holds is idle. Every operation on slices, spans and proxies states what happens
to the set of idle blocks: it stays the same, except that making a raw block adds it and handing one
to a slice removes it. As every count equals the number of holders, this says that nothing leaks.

Integers are unbounded; where the program computes in 32 bits the model says so (`U32`, `uint32`).
Byte order is little-endian. Clocks, name resolution and the network appear as parameters or events.

## What the proofs found

Where a promise does not hold of the code as written, the code is kept, the exact condition is proved
and a concrete input is given.

* `MemSliceSpan::AdjustBeginPointer` never advances its compaction index. `Flat.StuckCompaction` gives
  the exact condition under which the result is still right, `Flat.StuckLosesBytes` the smallest span
  that comes out wrong, `Span.MemSliceSpan.AdjustBegin` the literal method,
  `Span.MemSliceSpan.AdjustBeginIntended` the loop with the index advanced, right for every span.
* A slice made from a raw block is cut at 65536 bytes by a default argument, while the span that is
  made from it counts the whole block. `Span.MemSliceSpan.FromBuf` and
  `Span.MemSliceSpan.ToSingleBlock` keep the size invariant exactly up to that limit;
  `Span.SpanOfLargeBlock` makes the smallest span that breaks it. A created proxy of more bytes is cut
  (`Proxy.CreatedMemProxy.ToSlice`).
* `MemSlice::Reset` and assignment from a raw block free the block first: handed the block that the
  slice alone holds, they touch freed memory, and only then (`SliceOps.StepKeeps`, `SliceOps.RunKeeps`;
  the input is `SliceOps.ResetToOwnBlock`).
* `MemSlice::UpdateBegin` adds in 32 bits; `SliceOps.UpdateBeginExact` says when it answers true
  although the window grew to the left, `SliceOps.UpdateBeginWraps` gives the smallest such call.
* A variable-length integer keeps 23 bits (`VarInt.VarRoundTrip`, `VarInt.TwoTo23IsLost`); the decoder
  also accepts a three-byte code of a small number (`VarInt.VarCanonical`), and with such a code the
  framing code's peek can leave a six-byte packet (`Stream.PeekInside`, `Stream.PeekLeavesPacket`).
* A proxy that merges its span frees the blocks nobody else holds, and with them the addresses that
  earlier calls of `Layer` returned: `Proxy.BorrowedMemProxy.Layer` says exactly which survive.
* The counter's 256th increment cannot be read back and the 257th redefines an overload
  (`Counter.SourceLimits`); hence `HAS_ATTRIBUTE` misses a 256th attribute (`Reflect.HasAttributeExact`,
  `Reflect.LastAttributeIsMissed`).
* `TcpClient::OnTimer` closes an idle connection without telling its owner, so `joined_` survives into
  the next session and a ping can precede the join. The comment at the top of the TCP client calls
  this close one of the ways a connection ends; the load-balancer connection does not see it.
  `Session.PingBeforeJoin` is such a run; `Session.PingsFollowJoin` says exactly which runs break the
  order, and `Session.ReportedLossesKeepOrder` that no run does in which losses are reported.

## Model

| member | source | states |
|---|---|---|
| Bytes.FromToLE | turnserver/base/packer.h:154-187 | the memcpy of a fixed-width integer into a buffer is undone by reading it back; a negative integer comes back as its two's complement |
| Bytes.ToLEByte | turnserver/base/packer.h:154-187 | byte k of a stored integer is its digit of weight 256^k: the least significant byte comes first, at every width |
| Bytes.ToFromLE | turnserver/base/unpacker.h:97-137 | any bytes read as an integer and written again are the same bytes |
| Bytes.FromLEByte | turnserver/base/unpacker.h:97-137 | byte k of what is read is the digit of weight 256^k of the integer |
| Bytes.MemCopy | turnserver/base/packer.h:213-220 | memcpy replaces exactly the bytes it covers |
| VarInt.VarRoundTrip | turnserver/base/packer.h:233-255 | any 32-bit length, encoded anywhere, is read back modulo 2^23 with the cursor right behind its code; it survives exactly when below 2^23 |
| VarInt.VarCodeBytes | turnserver/base/packer.h:233-255 | the stored bytes, written out: two below 2^15; else three, with the flag in the second, the fifteen low bits in front and eight more behind |
| VarInt.DecodeVarMeans | turnserver/base/unpacker.h:78-95 | the integer read from any bytes, as a sum of these bytes |
| VarInt.TwoTo23IsLost | turnserver/base/packer.h:233-255 | the code of 2^23 is read back as 0 |
| VarInt.VarRead | turnserver/base/unpacker.h:78-95 | in front of any suffix the decoder consumes exactly the code of a length below 2^23 |
| VarInt.VarPrefixFree | turnserver/base/packer.h:222-255 | codes are prefix-free: equal bytes in front give equal lengths and equal rests |
| VarInt.VarCanonical | turnserver/base/unpacker.h:78-95 | what the decoder reads is what the encoder would write, unless a three-byte code holds a number below 2^15 |
| Values.CompareLaws | turnserver/base/declare_struct.h:395-405 | the element order is antisymmetric and only equal values are incomparable |
| Values.CompareTrans | turnserver/base/declare_struct.h:395-405 | the element order is transitive, for arbitrarily nested values |
| Values.CompareMeans | turnserver/base/declare_struct.h:395-405 | which of two values is smaller: false before true, integers by size, strings by the first differing byte or by the shorter one, containers and structs by the first differing element |
| Values.IntegerRanges | turnserver/base/unpacker.h:182-334 | the integer types in figures, signed and unsigned, of one to eight bytes |
| Values.BuildOfSorted | turnserver/base/unpacker.h:261-334 | inserting the elements of a set or map in iteration order, or appending those of a vector, rebuilds that container |
| Values.BuildSound | turnserver/base/unpacker.h:296-334 | whatever elements arrive in whatever order, an ordered container is strictly sorted and holds only arrivals |
| Values.BuildFinds | turnserver/base/unpacker.h:296-334 | a key looked up in the finished container gives the first arrival with it, and nothing exactly when none had it |
| Values.MapHoldsFirstArrivals | turnserver/base/unpacker.h:307-318 | in terms of the first halves of the pairs: a map has ascending and hence different first halves, one for each that arrived, each with the second half it arrived with first |
| Values.SetHoldsAll | turnserver/base/unpacker.h:296-305 | a set is ascending without repetition and holds exactly what arrived |
| Values.BuildCollects | turnserver/base/unpacker.h:261-334 | the same for each kind of container; lists and vectors hold all arrivals in order |
| Values.BuildOfAscending | turnserver/base/unpacker.h:296-334 | elements inserted by any order in which they ascend rebuild their container |
| Values.BuildIsBuildBy | turnserver/base/unpacker.h:296-334 | the standard containers are the case in which that order is the one of the format |
| Wire.EncodeNonEmpty | turnserver/base/packer.h:336-484 | every value takes at least one byte |
| Wire.EncodeMeans | turnserver/base/packer.h:336-484 | the bytes of each type, written out: 1 for true, the digits of an integer, a length and the bytes of a string, a count and the elements of a container, the members of a struct |
| Wire.EncodeAllConcat | turnserver/base/packer.h:414-425 | the elements of a container lie one behind the other, first to last |
| Wire.SmallIsCountable | turnserver/base/packer.h:336-484 | below 2^23 bytes in all, every nested element count and string length fits its 23-bit code |
| Wire.RoundTrip | turnserver/base/unpacker.h:182-334 | for every well-typed, arbitrarily nested value: decoding wherever its encoding stands yields the value and stops right behind it |
| Wire.RoundTripBy | turnserver/base/unpacker.h:296-334 | a set or map whose keys have any order of their own, doubles and addresses included, is rebuilt from its encoding |
| Wire.RoundTripAll | turnserver/base/unpacker.h:261-334 | the same for the elements of a container, one after the other |
| Wire.RoundTripFields | turnserver/base/declare_struct.h:668-680 | the same for the members of a pair or packable struct |
| Wire.PrefixFree | turnserver/base/packer.h:336-484 | the encoding of a type is uniquely decodable |
| Wire.DecodeSound | turnserver/base/unpacker.h:182-334 | from any bytes, a decode that stays in the buffer moves forward and yields a well-typed value: integers in range, sets and maps strictly sorted, lengths encodable |
| Packing.PackedLengthSolves | turnserver/base/packer.h:113-132 | the stored length equals the size of its own code plus the body, is never 0x8000, fits the code, and BodySize recovers the body from it |
| Packing.PackedLengthIs | turnserver/base/packer.h:113-132 | in figures: bodies up to 8387579 bytes, and two bytes of header up to a body of 0x7FFD, three from there on |
| Packing.PackedLengthLeast | turnserver/base/packer.h:113-132 | it is the least such length and the only one, except that a body of 0x7FFD bytes would also allow 0x8000 |
| Packing.FrameAnnouncesItself | turnserver/base/packer.h:113-132 | in front of any bytes a packet announces its own size and its body starts right behind the header |
| Packers.Packer.constructor | turnserver/base/packer.h:106-111 | an empty packet with four bytes reserved, whatever the initial capacity |
| Packers.Packer.CheckSize | turnserver/base/packer.h:302-315 | room is made, old bytes are kept; initial capacity plus all bytes ever copied stays at most the capacity, and the capacity at most the larger of the initial one and twice the largest demand |
| Packers.Packer.Reset | turnserver/base/packer.h:134-137 | nothing of earlier packets shows any more |
| Packers.Packer.PushBinary | turnserver/base/packer.h:213-220 | appends exactly the given bytes, also across a reallocation |
| Packers.Packer.PushVariableUint32 | turnserver/base/packer.h:233-255 | appends exactly the code of the length and returns its predicted size |
| Packers.Packer.WriteFixed | turnserver/base/packer.h:139-147 | a back-patch changes exactly its own bytes of what was written, also where it reaches past either end; each of them is its digit of the integer |
| Packers.Packer.PushFixed | turnserver/base/packer.h:149-187 | appends the bytes of an integer: byte k is the digit of weight 256^k, what was written before stays |
| Packers.Packer.PushBytes | turnserver/base/packer.h:189-211 | appends the length code and the bytes of a string |
| Packers.Packer.PushValue | turnserver/base/packer.h:336-484 | operator<< appends exactly the encoding of a value, for every nesting |
| Packers.Packer.PushAll | turnserver/base/packer.h:414-425 | the container loop appends the encodings of the elements in order |
| Packers.Packer.PushFields | turnserver/base/declare_struct.h:668-680 | a struct's operator<< appends its members in order |
| Packers.Packer.Pack | turnserver/base/packer.h:113-132 | the header abuts the body that was pushed, and the body is untouched |
| Packers.Packer.Data | turnserver/base/packer.h:263-265 | the emitted bytes are a function of the pushes alone: header and body |
| Packers.Packer.Body | turnserver/base/packer.h:267-300 | Body, Body2 and BodySize all recover the body |
| Packers.Packer.TakeBuffer | turnserver/base/packer.h:329-334 | the slice holds exactly the packet, of any size below the limit; the count goes from 0 to 1 |
| Unpackers.Unpacker.constructor | turnserver/base/unpacker.cpp:14-39 | the length in front is consumed |
| Unpackers.Unpacker.Rewind | turnserver/base/unpacker.h:58-63 | back to the first value, wherever the cursor was |
| Unpackers.Unpacker.PopVariableUint32 | turnserver/base/unpacker.h:78-95 | reads what the length format says and leaves the cursor behind it |
| Unpackers.Unpacker.PopFixed | turnserver/base/unpacker.h:97-137 | reads an integer of a width and signedness as the format says: it is in range and byte k of the buffer is its digit of weight 256^k |
| Unpackers.Unpacker.PopBytes | turnserver/base/unpacker.h:139-180 | reads a length and that many bytes |
| Unpackers.Unpacker.PopValue | turnserver/base/unpacker.h:182-334 | operator>> agrees with the format for every nesting; wherever the format decodes, no read leaves the buffer |
| Unpackers.Unpacker.PopContainer | turnserver/base/unpacker.h:261-334 | the loop of push_back or insert builds the container of the decoded elements: all of them in order, or the set of them, or the map of the first arrivals by their first halves |
| Unpackers.Unpacker.PopFields | turnserver/base/declare_struct.h:668-680 | a struct's operator>> reads its members in order |
| Stream.DeframeExtends | turnserver/network/tcp_connection.cpp:200-268 | looking at a stream again when more has arrived changes nothing already decided |
| Stream.DeframeMeans | turnserver/network/tcp_connection.cpp:200-268 | packets and unread bytes are the stream in order; each packet is as long as it declares, six bytes or more; cutting ends exactly when fewer bytes are left than a packet needs, or at a declared length below six, which is the error |
| Stream.DeframeResumes | turnserver/network/tcp_connection.cpp:200-268 | going on with the unread bytes and the next arrival gives what the whole stream gives |
| Stream.PiecesDoNotMatter | turnserver/network/tcp_connection.cpp:200-268 | however the network cuts the stream, the same packets come out, the same bytes stay unread, and the same error is met |
| Stream.DeliveryIsMonotone | turnserver/network/tcp_connection.cpp:200-268 | packets delivered so far are a prefix of those delivered later |
| Stream.FramesComeOut | turnserver/network/tcp_connection.cpp:200-268 | a stream of packed packets is cut back into exactly these packets |
| Stream.PeekInside | turnserver/network/tcp_connection.cpp:245-249 | the peek at the two header fields stays in the packet, except for a six-byte packet with a three-byte header |
| Stream.PeekLeavesPacket | turnserver/network/tcp_connection.cpp:245-249 | a six-byte packet that is framed and whose peek reads outside it |
| Stream.FrameReadsBack | turnserver/base/packet.h:66-77 | a receiver peeks the sender's type and uri, rewinds, and unmarshalls every member, if there are any, up to the end of the packet |
| Stream.BarePacket | turnserver/base/packet.h:66-77 | a packet without members of its own is covered, and is exactly the six bytes of the shortest packet the connection accepts |
| Stream.EndToEnd | turnserver/network/tcp_connection.cpp:182-268 | any messages, sent and cut up in any way: the receiver gets these packets in order, with the right header fields, and each unmarshalls to what was sent |
| Stream.SendPacket | turnserver/network/tcp_connection.cpp:182-191 | what goes to the socket is one packet of the message |
| Stream.TcpConnection.OnData | turnserver/network/tcp_connection.cpp:200-268 | an arrival delivers the complete packets, keeps the rest, reports an impossible length once, and is closed by that exactly when its callback closes it |
| Stream.TcpConnection.OnDataReady | turnserver/network/tcp_connection.cpp:200-268 | the loop delivers exactly the packets the stream holds, in order, and reports an impossible length once |
| Stream.TcpConnection.ReadLength | turnserver/network/tcp_connection.cpp:214-224 | the connection's own reading of the length agrees with the unpacker's |
| Stream.TcpConnection.Deliver | turnserver/network/tcp_connection.cpp:245-253 | the callback gets the peeked fields, the packet, and a cursor that stands behind the length again |
| Memory.DropKeeps | turnserver/memory/mem_buf.h:71-77 | letting go keeps every count equal to the number of holders and frees a block exactly when its last holder goes |
| Memory.TakeKeeps | turnserver/memory/mem_buf.h:67-69 | taking a block keeps every count, also for a block with count 0 |
| Memory.RetargetSafe | turnserver/memory/mem_slice.h:120-138 | release-then-take touches a freed block exactly when the new block was held by this slice alone |
| Memory.RetargetKeeps | turnserver/memory/mem_slice.h:120-138 | otherwise every count stays exact |
| Memory.DropIdle | turnserver/memory/mem_buf.h:71-77 | letting go of a held block leaves no block behind that nobody holds |
| SliceOps.StepKeeps | turnserver/memory/mem_slice.h:72-146 | every slice operation keeps all counts equal to the number of slices, frees exactly the blocks that lose their last slice, leaves no block idle that was held, and touches a freed block exactly when handed an improper raw block |
| SliceOps.RunKeeps | turnserver/memory/mem_slice.h:72-146 | over any run: nothing touches a freed block if and only if every raw block handed in is proper; counts are exact at the end and freed blocks stay freed |
| SliceOps.RunFrees | turnserver/memory/mem_buf.h:67-77 | over any run, a block that some slice held at any point is allocated at the end if and only if some slice still holds it |
| SliceOps.RunLeavesNothing | turnserver/memory/mem_buf.h:67-77 | over any run, a block that nobody holds at the end was idle at the start or made on the way |
| SliceOps.StepIdle | turnserver/memory/mem_slice.h:72-146 | only making a raw block adds an idle block and only handing it to a slice removes one |
| SliceOps.ResetToOwnBlock | turnserver/memory/mem_slice.cpp:59-65 | a one-slice world in which Reset is handed the slice's own block and touches freed memory |
| SliceOps.WindowsStay | turnserver/memory/mem_slice.cpp:23-57 | begin <= end <= capacity after every setter, for all positions and offsets, also when a sum wraps around 32 bits |
| SliceOps.UpdateBeginExact | turnserver/memory/mem_slice.h:148-154 | true skips that many bytes, false changes nothing, and exactly when a wrapped sum is accepted |
| SliceOps.UpdateBeginWraps | turnserver/memory/mem_slice.h:148-154 | a moved window told to skip 2^32 minus its begin answers true and starts at 0 |
| Slices.Space.CreateRaw | turnserver/memory/mem_buf.cpp:15-19 | a new block of that capacity with count 0 |
| Slices.Space.CreateCopy | turnserver/memory/mem_buf.cpp:21-48 | a new block that starts with the given bytes, up to its capacity |
| Slices.Space.AddRef | turnserver/memory/mem_buf.h:67-69 | one more holder, and nothing else changes |
| Slices.Space.Release | turnserver/memory/mem_buf.h:71-77 | one fewer holder, or the block is freed when the count was at most one; nothing else changes |
| Slices.Space.Construct | turnserver/memory/mem_slice.h:72-78 | a slice of the block, cut at the given size |
| Slices.Space.CopyConstruct | turnserver/memory/mem_slice.h:80-85 | the same window on the same block, one more holder |
| Slices.Space.MoveConstruct | turnserver/memory/mem_slice.h:87-100 | the new slice has the very window and bytes of the source, the source shows nothing, other slices and all idle blocks are as before |
| Slices.Space.Destroy | turnserver/memory/mem_slice.h:114-118 | lets go of the block |
| Slices.Space.Assign | turnserver/memory/mem_slice.h:120-138 | takes over the window, also from itself and from a slice on the same block |
| Slices.Space.MoveAssign | turnserver/memory/mem_slice.h:140-146 | swaps the two slices |
| Slices.Space.Reset | turnserver/memory/mem_slice.cpp:14-65 | the slice shows the whole of a proper raw block, or nothing |
| Slices.Space.AdjustBegin | turnserver/memory/mem_slice.cpp:45-50 | moves the begin by an offset added in 32 bits and clamped |
| Slices.Space.SetBegin | turnserver/memory/mem_slice.cpp:23-30 | the begin is the position, clamped to the end |
| Slices.Space.SetEnd | turnserver/memory/mem_slice.cpp:32-43 | the end is the position, clamped between begin and capacity |
| Slices.Space.AdjustEnd | turnserver/memory/mem_slice.cpp:52-57 | moves the end by an offset added in 32 bits and clamped |
| Slices.Space.UpdateBegin | turnserver/memory/mem_slice.h:148-154 | skips bytes or refuses, with the sum formed in 32 bits |
| Slices.Space.Clone | turnserver/memory/mem_slice.cpp:67-74 | the same window on a new copy of the whole block |
| Flat.SurvivorsAreSuffix | turnserver/memory/mem_slice_span.cpp:203-224 | what is left after dropping used-up blocks and trimming the next is the flat string from the offset on |
| Flat.DroppedExactly | turnserver/memory/mem_slice_span.cpp:203-224 | exactly how many blocks are used up: the skipped bytes reach to their end and not behind the next one, and an empty first block goes even when nothing is skipped |
| Flat.RotatedExactly | turnserver/memory/mem_slice_span.cpp:226-228 | where the slots go when the index does not advance: the last live one comes to the front, the others move up by one |
| Flat.StuckCompaction | turnserver/memory/mem_slice_span.cpp:226-228 | with the index that never advances the span shows the surviving bytes if and only if the case is harmless: nothing dropped, one survivor, or blocks whose loss does not show |
| Flat.StuckWithoutEmptyBlocks | turnserver/memory/mem_slice_span.cpp:226-228 | without empty blocks: wrong exactly when a block is dropped and two or more survive |
| Flat.StuckLosesBytes | turnserver/memory/mem_slice_span.cpp:196-229 | a three-block span whose literal adjustment loses a byte |
| Span.MemSliceSpan.Empty | turnserver/memory/mem_slice_span.cpp:15-26 | no bytes, four empty slots |
| Span.MemSliceSpan.FromBuf | turnserver/memory/mem_slice_span.cpp:15-26 | one block holding the buffer's bytes; the size invariant holds exactly up to 65536 bytes; a raw block is no longer idle |
| Span.SpanOfLargeBlock | turnserver/memory/mem_slice_span.cpp:15-26 | a span of a 65537-byte block claims 65537 bytes and shows 65536 |
| Span.MemSliceSpan.FromSlice | turnserver/memory/mem_slice_span.cpp:28-38 | the bytes of the slice |
| Span.MemSliceSpan.FromList | turnserver/memory/mem_slice_span.cpp:40-51 | the bytes of the first four slices of a list, in order; the slices stay as they are |
| Span.MemSliceSpan.FromBytes | turnserver/memory/mem_slice_span.cpp:53-58 | one new block with the bytes, of which the slice shows at most 65536; the size invariant holds exactly up to that size |
| Span.MemSliceSpan.Copy | turnserver/memory/mem_slice_span.h:77-84 | the same blocks, the source unchanged |
| Span.MemSliceSpan.Move | turnserver/memory/mem_slice_span.h:86-96 | the same blocks, the source left empty and valid |
| Span.MemSliceSpan.AssignCopy | turnserver/memory/mem_slice_span.cpp:60-79 | the bytes of the other span, which keeps them; surplus slots let go, and blocks whose last slice went are freed |
| Span.MemSliceSpan.AssignMove | turnserver/memory/mem_slice_span.cpp:81-102 | the bytes of the other span, which is left empty and valid; surplus slots let go, and blocks whose last slice went are freed |
| Span.MemSliceSpan.AssignSlice | turnserver/memory/mem_slice_span.cpp:104-113 | the bytes of the slice, and no others; surplus slots let go, and blocks whose last slice went are freed |
| Span.MemSliceSpan.AssignBuf | turnserver/memory/mem_slice_span.cpp:115-117 | the first 65536 bytes of the block, or an empty slice; always a valid span |
| Span.MemSliceSpan.DestroySlots | turnserver/memory/mem_slice_span.h:98-99 | all four slots let go, stale ones included, and blocks whose last slice went are freed |
| Span.MemSliceSpan.PushBack | turnserver/memory/mem_slice_span.cpp:119-127 | appends the slice's bytes, or answers false at four blocks and changes nothing |
| Span.MemSliceSpan.Reset | turnserver/memory/mem_slice_span.cpp:129-138 | the bytes of the given slice, no block at all when it is empty; surplus slots let go, and blocks whose last slice went are freed |
| Span.MemSliceSpan.CloneSpannedMem | turnserver/memory/mem_slice_span.cpp:164-176 | a new block with the flat bytes, the only one that becomes idle |
| Span.MemSliceSpan.ToRawBuffer | turnserver/memory/mem_slice_span.cpp:178-194 | a byte vector with exactly the flat bytes |
| Span.MemSliceSpan.ToSingleBlock | turnserver/memory/mem_slice_span.cpp:154-162 | a copy of a span of at most one block; otherwise one new block holding the flat bytes, of which the slice shows at most 65536: the result is a valid span exactly up to that size |
| Span.MemSliceSpan.Clone | turnserver/memory/mem_slice_span.cpp:140-152 | equal blocks, none shared with the source |
| Span.MemSliceSpan.TrimFront | turnserver/memory/mem_slice_span.cpp:203-224 | the scan finds how many blocks are used up and trims the next one |
| Span.MemSliceSpan.AdjustBegin | turnserver/memory/mem_slice_span.cpp:196-229 | the code as written: size and slots afterwards, and the bytes are those from the offset on if and only if the case is harmless |
| Span.MemSliceSpan.AdjustBeginIntended | turnserver/memory/mem_slice_span.cpp:196-229 | with the compaction index advanced: the bytes from the offset on, and the size invariant, for every span |
| Proxy.LayoutTiles | turnserver/memory/mem_proxy.h:48-62 | prefix, field and suffix sizes tile the layout without gap or overlap |
| Proxy.FieldsInOrder | turnserver/memory/mem_proxy.h:48-62 | the fields, put one after the other as declared, are the bytes of the layout |
| Proxy.LocateFindsField | turnserver/memory/mem_proxy.h:84-99 | where the scan finds a field in one block, its bytes are those of the flat string |
| Proxy.LocateExactly | turnserver/memory/mem_proxy.h:84-99 | exactly when that is: the first block that reaches the field must reach to its end |
| Proxy.ValidBacks | turnserver/memory/mem_proxy.h:67-69 | a valid span offers a proxy its bytes |
| Proxy.WholeBlockBacks | turnserver/memory/mem_proxy.h:67-69 | a span made from a raw block offers a proxy the whole block, also beyond 65536 bytes |
| Proxy.BorrowedMemProxy.constructor | turnserver/memory/mem_proxy.h:67-69 | whenever size_ suffices for the fields, the proxy stands for the bytes that size_ promises, also where the window of the only block is shorter |
| Proxy.BorrowedMemProxy.Layer | turnserver/memory/mem_proxy.h:71-105 | the address returned holds the bytes of field N, however the span is fragmented; the span is merged exactly when the field cannot be read in place, and a merged proxy never again; an earlier address survives exactly when there is no merge or another slice holds its block |
| Proxy.BorrowedMemProxy.Merge | turnserver/memory/mem_proxy.h:92-96 | merging leaves the bytes the proxy stands for unchanged and one block; of the blocks held before exactly those stay that another slice holds |
| Proxy.OutsidersStay | turnserver/memory/mem_buf.h:71-77 | when the live slots are replaced by a new block, a block stays exactly when some other slice holds it |
| Proxy.WithFieldExact | turnserver/memory/mem_proxy.h:132-138 | a store through one field's pointer is read back there and disturbs no other field |
| Proxy.FieldsDecide | turnserver/memory/mem_proxy.h:121-138 | once all fields are stored, they decide every byte of the message |
| Proxy.CreatedMemProxy.constructor | turnserver/memory/mem_proxy.h:122-125 | owns a new block of the full size that no slice holds, the only one that becomes idle |
| Proxy.CreatedMemProxy.Store | turnserver/memory/mem_proxy.h:132-138 | overwrites exactly the bytes of field N; every other block stays as it is |
| Proxy.CreatedMemProxy.ToSlice | turnserver/memory/mem_proxy.h:127-130 | hands over the block: a slice with the message, cut at 65536 bytes, as the only holder |
| Counter.KeySplits | turnserver/base/compile_time_utility.h:174-182 | the two key expressions are the lowest set bit of n + 1 and the rest |
| Counter.KeyMeans | turnserver/base/compile_time_utility.h:174-182 | the key of a number whose successor is an odd multiple of 2^j: rank 2^j and the ranks above it |
| Counter.CrumbIsGreedy | turnserver/base/compile_time_utility.h:143-157 | at each rank the overload found adds the rank exactly when that does not pass the count |
| Counter.DescentReaches | turnserver/base/compile_time_utility.h:158-172 | the descent from any rank ends at the count, or at the largest number below it that the ranks can spell |
| Counter.ReadCounts | turnserver/base/compile_time_utility.h:158-172 | a read gives the number of increments below 2^k |
| Counter.CounterCounts | turnserver/base/compile_time_utility.h:143-182 | for any number of ranks k: n increments compile if and only if n <= 2^k, each registers a fresh overload, and a read then gives n below 2^k |
| Counter.SourceLimits | turnserver/base/compile_time_utility.h:158-182 | with the eight ranks of the code the 256th increment is not seen and the 257th does not compile |
| Reflect.GenSequence | turnserver/base/compile_time_utility.h:25-48 | the halving recursion ends and yields 0 .. N-1 for every N |
| Reflect.StringEqualExact | turnserver/base/const_utility.h:14-20 | exactly which pairs of terminated strings compare equal |
| Reflect.LiteralEqualExact | turnserver/base/const_utility.h:67-70 | literals compare equal if and only if they are equal and hold no NUL |
| Reflect.GetIdIsFirst | turnserver/base/reflection.hpp:763-778 | GetId is the index of the first member with the name, or -1 exactly when there is none or the name holds a NUL |
| Reflect.AttachStores | turnserver/base/reflection.hpp:801-811 | the i-th attribute is stored at counter value i; up to 256 compile and no more |
| Reflect.HasAttributeExact | turnserver/base/reflection.hpp:812-828 | true exactly for the attributes attached so far, among the first 255 |
| Reflect.LastAttributeIsMissed | turnserver/base/reflection.hpp:801-828 | a 256th attribute that differs from the others is attached and not found |
| Session.StepOrder | turnserver/lbs/uni_lbs_connection.cpp:74-240 | one event breaks the order of a session exactly when it makes a connected client with a carried-over joined_ send a ping or delta; and exactly which events leave joined_ wrong |
| Session.SessionsStartWithJoin | turnserver/lbs/uni_lbs_connection.cpp:74-93 | in any run every session starts with the only join request it sends, and nothing is sent outside a session |
| Session.SilentPeerIsReplaced | turnserver/network/tcp_client.cpp:351-369 | after any run that left a connection open, a tick that finds the peer silent closes it, joined or not; a retry that is due, starts and succeeds opens a new session of exactly one join request |
| Session.HeardPeerIsKept | turnserver/network/tcp_client.cpp:351-369 | an open connection ends with one event exactly when that is a connect, an error, or a tick that finds the peer silent |
| Session.AttemptsStart | turnserver/network/tcp_client.cpp:195-369 | a lost connection is retried exactly by a connect or a due tick whose attempt starts |
| Session.AttemptsEnd | turnserver/network/tcp_client.cpp:258-300 | an attempt in progress ends with its own callback alone, up or down as that says |
| Session.CarriedMeans | turnserver/network/tcp_client.cpp:351-369 | joined_ is wrong exactly when a joined session was silently lost and nothing has settled it since |
| Session.PingsFollowJoin | turnserver/lbs/uni_lbs_connection.cpp:133-240 | over any run, every ping and delta follows a full channel list of its own session if and only if no event triggers one while joined_ is stale |
| Session.ReportedLossesKeepOrder | turnserver/lbs/uni_lbs_connection.cpp:133-240 | the order holds in every run in which no joined session is lost silently |
| Session.PingBeforeJoin | turnserver/network/tcp_client.cpp:351-369 | a run in which a session consists of a join request and a ping |
| Session.OrderlyMeans | turnserver/lbs/uni_lbs_connection.cpp:133-240 | in an orderly session each ping or delta has a full list at an earlier position |
| Session.ViewIsCurrent | turnserver/lbs/uni_lbs_connection.cpp:164-240 | once a session is joined, its full list and deltas always add up to the channels that are open |
| Session.DeltasFollowOperations | turnserver/lbs/uni_lbs_connection.cpp:222-240 | a connection that stays joined sends exactly the deltas of the channel operations, in order, in one session |
| Session.UniLbsConnection.SendPacket | turnserver/lbs/uni_lbs_connection.cpp:66-72 | sent exactly when connected, dropped otherwise |
| Session.UniLbsConnection.Connect | turnserver/network/tcp_client.cpp:195-256 | an attempt in progress is left alone, an open connection is dropped without a callback, an attempt that is refused at once is reported before the call returns; field by field |
| Session.UniLbsConnection.OnConnect | turnserver/lbs/uni_lbs_connection.cpp:74-93 | a new session opens with a join request, or joined_ is cleared; field by field |
| Session.UniLbsConnection.OnSocketError | turnserver/lbs/uni_lbs_connection.cpp:157-162 | closed and no longer joined, and nothing is sent |
| Session.UniLbsConnection.OnTimer | turnserver/network/tcp_client.cpp:351-369 | closes an idle connection whatever joined_ is and without clearing it, pings a live one exactly when joined, retries a lost one when due; field by field |
| Session.UniLbsConnection.OnJoinReplied | turnserver/lbs/uni_lbs_connection.cpp:164-220 | an OK reply sets joined_ and sends the full list, any other changes nothing |
| Session.UniLbsConnection.DoChannelCreate | turnserver/lbs/uni_lbs_connection.cpp:222-230 | one step: a delta exactly when joined_ is set and the client is connected |
| Session.UniLbsConnection.DoChannelDestroy | turnserver/lbs/uni_lbs_connection.cpp:232-240 | the same for a removed channel |
| Timers.StepKeeps | turnserver/base/timer.cpp:17-69 | no operation touches a freed event or callback; each registered event keeps exactly one owner whose live callback is its context |
| Timers.RunKeeps | turnserver/base/timer.cpp:17-69 | the same after any run of constructions, moves, assignments, clears, destructions and ticks |
| Timers.NothingLeft | turnserver/base/timer.cpp:21-23 | when the last timer is gone no event is registered and no callback leaks |
| Timers.ClearedExactly | turnserver/base/timer.cpp:62-69 | Clear removes the timer's own event and nothing else |
| Timers.EventLoop.Arm | turnserver/base/timer.h:85-91 | a new callback and a new event that belong to this timer |
| Timers.EventLoop.Move | turnserver/base/timer.cpp:25-30 | event and callback change owner; the source owns nothing |
| Timers.EventLoop.Assign | turnserver/base/timer.cpp:32-37 | the two timers trade what they own |
| Timers.EventLoop.Clear | turnserver/base/timer.cpp:62-69 | frees the event; the callback stays |
| Timers.EventLoop.Destroy | turnserver/base/timer.cpp:21-23 | frees event and callback |
| Timers.EventLoop.Fire | turnserver/base/timer.cpp:39-46 | a due event runs the live callback of the timer that owns it |
| LbsClient.AbsentPush | turnserver/lbs/uni_lbs_client.cpp:191-210 | entry by entry: Connect is called for an unknown ip and not for a known one, in the order of the list |
| LbsClient.AbsentNone | turnserver/lbs/uni_lbs_client.cpp:191-210 | a reload calls Connect for nothing exactly when every ip was known |
| LbsClient.ReplacedExactly | turnserver/base/timer.cpp:25-69 | `timer_ = RepeatedTimer(...)` frees the event and callback the timer had, hands it those of the temporary, and touches nothing else |
| LbsClient.ReplacedRuns | turnserver/base/timer.cpp:25-69 | after it, an event runs something exactly when it did before and was not the replaced one |
| LbsClient.OthersKeepTheirs | turnserver/lbs/uni_lbs_client.cpp:100-119 | another client of the same loop keeps the reload timer it has |
| LbsClient.UniLbsClient.ReloadLbsAddresses | turnserver/lbs/uni_lbs_client.cpp:191-210 | the keys become the ips of the list; a retained ip keeps its very object, untouched; a new ip gets a new connection, for its last entry and told to connect; Connect is called once for each entry whose ip was absent, in order; no entry is null |
| LbsClient.UniLbsClient.ReloadingAgain | turnserver/lbs/uni_lbs_client.cpp:191-210 | reloading the same ips connects nothing and changes nothing |
| LbsClient.UniLbsClient.ReloadLbsHosts | turnserver/lbs/uni_lbs_client.cpp:177-189 | the keys become the resolved ips, or the loopback address when there are none; every new connection has its ip and the port the client was given; Connect is called in the order of the resolved list |
| LbsClient.UniLbsClient.UpdateLbsAddresses | turnserver/lbs/uni_lbs_client.cpp:100-107 | no event of the loop reloads this client any more; other events run what they ran and other timers own what they owned; the list is reloaded exactly when a service id is set |
| LbsClient.UniLbsClient.SetServiceInformation | turnserver/lbs/uni_lbs_client.cpp:109-119 | exactly one event of the loop reloads this client afterwards; other events run what they ran and other timers own what they owned; ips, ports and the order of Connect are as for ReloadLbsHosts |
| LbsClient.UniLbsClient.Tick | turnserver/lbs/uni_lbs_client.cpp:109-119 | a due event reloads exactly when it is the one that the timer of the client owns; ips, ports and the order of Connect are as for ReloadLbsHosts |
| LbsClient.UniLbsClient.RunLoop | turnserver/lbs/uni_lbs_client.cpp:100-119 | over any number of ticks the address set of a client without an armed timer stays what it was |
| LbsClient.UniLbsClient.DoChannelCreate | turnserver/lbs/uni_lbs_client.cpp:121-132 | every connection takes the step for a created channel exactly once |
| LbsClient.UniLbsClient.DoChannelDestroy | turnserver/lbs/uni_lbs_client.cpp:134-145 | every connection takes the step for a destroyed channel exactly once |
| LbsClient.RunsByItself | turnserver/lbs/uni_lbs_client.cpp:121-210 | over any run of a client, a retained connection goes through exactly the events that reach it |
| LbsClient.SameOperations | turnserver/lbs/uni_lbs_client.cpp:121-145 | the fan-out asks every connection for the same deltas, in the same order |
| LbsClient.JoinedTogether | turnserver/lbs/uni_lbs_client.cpp:121-145 | over any run, any two connections that are retained and stay joined send the same deltas in the same order, through reloads and whatever else happens to each |
| LbsClient.AllShowOpenChannels | turnserver/lbs/uni_lbs_client.cpp:121-210 | in any run of a client, through reloads, losses and rejoins, every load balancer whose session is joined holds exactly the channels the client has open, also on a connection made after some were opened |
| Addresses.UnrolledIsLexicographic | turnserver/base/declare_struct.h:377-653 | the unrolled < and == of n members are the recursive lexicographic order, for every n |
| Addresses.EqualIsSame | turnserver/network/address_types.h:426-444 | operator== is equality of the addresses, with IPv6 compared as two 64-bit words |
| Addresses.LessIsLexicographic | turnserver/network/address_types.cpp:346-367 | the order is the lexicographic one: first the kind, then the members in the order in which the operators of that kind take them |
| Addresses.OrderMeans | turnserver/network/address_types.cpp:346-367 | in words of the addresses: IPv4 before IPv6 before Unix; IPv4 as the number ip * 2^16 + port; IPv6 by its halves, then port, then scope; paths by their first different byte |
| Addresses.OrderIsTotal | turnserver/network/address_types.cpp:346-367 | the order is strict, and two addresses it cannot tell apart are exactly the equal ones |
| Addresses.OrderIsTransitive | turnserver/network/address_types.cpp:346-367 | the order is transitive across and within the three kinds |
| Addresses.HashedIsExact | turnserver/network/address_types.cpp:320-344 | equal addresses give the hash function the same input, and only they do: the IPv4 key is injective and the 22 bytes of an IPv6 address leave nothing out |
| Addresses.HashedMeans | turnserver/network/address_types.cpp:320-344 | what the hash function is given: the ip above the port, the 22 bytes of address, scope and port, or the path |
| Addresses.PayloadEncodes | turnserver/network/address_types.inl:54-57 | IPv4 addresses and ports go out most significant byte first, IPv6 bytes as they are |
| Addresses.GeneralBytes | turnserver/network/address_types.cpp:214-233 | the bytes on the wire one by one, tag included |
| Addresses.GeneralRoundTrip | turnserver/network/address_types.cpp:214-318 | any address that was written is read back, whatever surrounds it |
| Addresses.GeneralSocketAddress.Copy | turnserver/network/address_types.h:402-420 | the same address; tag and live member agree |
| Addresses.GeneralSocketAddress.Destroy | turnserver/network/address_types.h:535-551 | the destructor the tag selects is that of the member that is alive |
| Addresses.GeneralSocketAddress.Assign | turnserver/network/address_types.cpp:235-276 | takes over the other address, also from itself; tag and live member agree throughout |
| Addresses.GeneralSocketAddress.SerializeTo | turnserver/network/address_types.cpp:214-233 | appends the tag and the member it names |
| Addresses.GeneralSocketAddress.SerializeFrom | turnserver/network/address_types.cpp:278-318 | becomes the address that is read; an unknown tag changes nothing but the cursor |

## Left out

- Slices.Space: slices, and the four slots of a span, are objects of one address space, named by their index, not separate heap objects; pointers to a `MemSlice` are these indices, so every aliasing between slices is there, but the objects' own storage is never reused.
- Packers.Packer.TakeBuffer: the hand-over of the packer's block is modelled as a block of the address space with the same bytes and as the packer's pointer becoming null.
- Packers.Packer.PushBytes: sizes of 2^31 and above are excluded; they are past the packet limit, where the program only asserts.
- Packers.Packer.Pack: bodies at or above the packet limit are excluded, as the assertion in the code does.
- Unpackers.Unpacker.constructor: the buffer is a value, so the aliasing of an unpacker made with `copy` false is not modelled.
- Unpackers.Unpacker.PopValue: reads outside the buffer, which the program does not check, have no result here; a caller must know that the format decodes.
- Wire.RoundTrip: `std::unordered_map`, `std::unordered_set` and `std::array` operators are not modelled; a double is eight opaque bytes. Sets and maps that lie inside other values are ordered as Values.Compare says; one whose keys have an order of their own is covered by Wire.RoundTripBy where it stands by itself.
- Span.MemSliceSpan.FromBuf: buffers above 65536 bytes are covered, but the result is then not `Valid`.
- Span.MemSliceSpan.Clone: the assertions of the code that exclude spans of four blocks are not carried over, neither here nor in Span.MemSliceSpan.ToSingleBlock, Span.MemSliceSpan.CloneSpannedMem, Span.MemSliceSpan.ToRawBuffer and Proxy.BorrowedMemProxy.Layer; four blocks are covered in all of them.
- Span.MemSliceSpan.FromBytes: a length of 2^32 and more, which the code would cut to 32 bits in one place and not in another, is not modelled.
- Span.MemSliceSpan.FromList: the assertion that a list has at most three slices is not carried over; the loop takes four.
- Span.MemSliceSpan.AdjustBeginIntended: this is not the code of the repository but the same loop with its index advanced.
- Proxy.BorrowedMemProxy.Layer: layouts of 2^32 bytes and more are excluded, and fields have at least one byte, as every C++ type does; a span of several blocks whose size_ exceeds what they show is excluded; access by type instead of by index is not modelled.
- Proxy.CreatedMemProxy.constructor: the destruction of a proxy that was never turned into a slice is not modelled.
- Stream.TcpConnection.OnDataReady: a callback that closes the connection or throws while it handles a packet, and a connection without a callback, are not modelled; what the callback does about an impossible length is a constant of the connection.
- Reflect.HasAttributeExact: the query is evaluated where it is written; `HasAttribute` is a template that is instantiated once for a field, so a compiler may answer a later query with the counter of an earlier one, which is not modelled. Nor are the macro tables that expand to declarations, and overload resolution beyond the exact match on tag, rank and accumulator.
- Session.UniLbsConnection.Connect: an attempt that is refused at once is modelled as the comment in the code describes it, with the callback before the return; an event library that delays that callback is not modelled.
- Session.UniLbsConnection.OnTimer: the back-off between retries is a parameter that says whether a retry is due.
- Session.UniLbsConnection.OnJoinReplied: the contents of join, ping and pong messages other than the reply code and the channel list, and the port, name and version a join request carries, are not modelled.
- LbsClient.UniLbsClient.ReloadLbsAddresses: the destruction of connections that fall out of the map, and the client's own callbacks, are not modelled.
- Timers.EventLoop.Arm: intervals and the one-shot timer are not modelled; an event may come due at any time while it is registered.
- Addresses.HashedIsExact: the hash functions themselves are not modelled, only what they are given; conversion to and from the system's socket structures is not modelled.
- Addresses.GeneralSocketAddress.SerializeFrom: for an unknown tag the assertion of a debug build is not modelled.
- Counts of blocks are updated without concurrency, as the header of the buffer class says.
- `MemSlice::CloneSlicedMem`, debug output, logging, system information, DNS and the server's main program are left out: they add only easy members or need libraries that are not part of the repository.
