# Verification models of nopOS

Dafny models of the parts of nopOS whose correctness is hard to see from the
code: the FastLZ codec that packs and unpacks the kernel, the Xen grant table and
its lock-free protocol with the hypervisor, the Xen event channels, page-table
mapping, and the printing and parsing of integers. Each model follows the code
branch by branch. Code that updates memory in place is modelled by methods over
arrays and class fields, each proved against a specification function or a state
machine; the laws are proved about those.

`dafny verify dfyconfig.toml` checks the whole project.

## The models

**FastLZ.** `FastLzFormat` defines the byte stream without reference to the code:
a list of instructions, the text it stands for (`Expand`) and its bytes
(`EncodeAll`). `FastLzDecoder` gives the decoder as a function and proves that it
inverts the format; `FastLzBounds` says when it stays within its output, given
that addresses wrap around. `FastLzDecompressor` and `FastLzCompressor` are the two
loops over arrays, for both levels. The compressor keeps the invariant `Open`: the bytes
written so far are a finished stream for the text consumed, followed by one open
literal run. `FastLzGreedy` says which matches are taken, apart from how they are found
and written: one decision at every position the scan reaches, each determined by
those before it and the hash of the bytes there, and followed to its first mismatch or the
bound. So there is one output for an input, and equal bytes pack into one match. `FastLz`
holds the entry points, the round trip, and the inputs that are too large for it.

**Grant table.** `GrantList` is the free list threaded through an array, with
growth, private sublists and batch splices. `GrantProtocol` is the protocol on the
shared entries as a state machine in which guest and Xen interleave at single
accesses; its results are about all runs. `GrantAccess` is the guest's code with
its compare-and-swap loops, proved to be runs of that machine whatever Xen does
between any two accesses. `Grants` puts the two together: the public calls keep the
free list and the shared entries in step.

**Event channels.** `EventBindings` specifies the binding tables, the invariant
that makes them mutually inverse, and all sequences of operations;
`EventChannels` is the code over arrays and packed words. `EventDelivery` is the
pending/mask/selector protocol between senders, `unmask_evtchn` and one upcall per
CPU; `EventUpcall` is the upcall loop itself.

**Page tables.** `PageTable` proves that `map` on a radix tree in memory is an
update of one page in the map of addresses, and keeps the memory a tree.

**Numbers.** `NumberDigits`, `NumberPrint` (print.c), `NumberParse` (cruntime.c),
`NumberRoundTrip` (one reads back what the other prints) and `NumberPrintf`
(printf.c, and where the two printers agree).

## Where a promise holds only under a condition

- What FastLZ has packed comes back exactly if the packed length fits an `int`, as
  which it is returned and passed on (`RoundTrip`). For inputs of up to 2082408384
  bytes it always does. From there on an input without a match, though of a legal
  length, packs into 2^31 bytes or more, gets a negative length, and decompresses to
  nothing: `CounterText` is such an input of every size (`CounterTextIsLost`).
- The compressor reads within its input but for one byte: the second hash behind a
  match takes the byte after the input exactly if level 2 found a far match at the
  last possible place, and that repeats up to the last byte (`TakeMatch`).
- `fastlz/fastlz.h:44-45` promises memory safety on any input. The decoder does not
  compare the operands of a match with the length of the input. It reads only
  memory it may read, on all inputs, exactly if what lies behind the input is a
  `Cushion` (`SafeExactlyWithCushion`): a byte that is not 255, one more, and another
  two if that one is 255.
- The same lines promise that no more than `maxout` bytes are written. The tests for
  that are on addresses, and the address behind a match of up to 2^32 bytes can
  wrap around. They are right for all inputs exactly if the place of the output is
  `Spacious` (`StaysExactlyIfSpacious`). On 64-bit addresses that leaves out only
  outputs in the bottom 73726 bytes, or that end within 2^32 + 2 of the top; on
  32-bit addresses, for which the decompressor is built to unpack the kernel, it is
  never so (`WhereItIsSpacious`), and `StraysAbove` gives the input. There it holds
  for inputs with 255 addresses above the start of the output for every byte, less
  501, where bytes of 255 that follow the input count as well (`StaysInOutput`). For
  that call this is exact: up to 16834786 bytes (`LoaderStaysExactly`).
- Events of ports that do not fit the upcall's locals are lost. The selector and the
  pending words are unsigned longs and ports are numbered by their width, but
  `xen/evtchn.cc:219` holds both in unsigned ints. A port never loses an event, in any
  run, exactly if it is `Seen` (`NeverLostExactlyIfSeen`): below 2048, and its number
  modulo 64 below 32. Port 32 is the first that is lost (`SeenPorts`).
- The upcall ends exactly if every due port is mapped to an IRQ; an unmapped one
  makes it spin (`EvtchnDoUpcall`).
- Allocating no references (`gnttab_alloc_grant_references` with 0) takes one off
  the free list without counting it, so the count is right afterwards exactly if
  at least one was asked for; if the list is empty the code writes to
  gnttab_entry(0xFFFFFFFF), which is `WildWrite` in the model (`GetFreeEntries`).
- A batch end whose first reference is still in use, while another one is not,
  drops the old free list: it is conserved exactly if none was ended, the first
  one was, or the list was empty (`Grants.EndForeignAccessReferences`).
- A granted frame, an unsigned long, is stored in 32 bits. What is visible and mapped
  is the frame asked for exactly if that is below 2^32 (`VisibleGrantIsTheLatest`);
  a grant of frame 2^32 + 5 gives frame 5 away (`LargeFrameIsCut`).
- The result 0 of `gnttab_end_foreign_transfer_ref` means that nothing was transferred
  unless Xen has written frame 0, which its interface does not rule out
  (`TransferResult`, `EndForeignTransferRef`).
- In every run of binds and unbinds the binding tables are inverse to each other in
  all states exactly if no unbind drops the last reference to a caller port 0
  (`InverseExactlyIfNoLeak`): such a binding stays behind without a reference. The
  per-CPU tables, the delivery masks and all other ports are not affected.
- Binding needs a free dynamic IRQ exactly for what is not bound yet. Where there is
  none, the code reads past irq_bindcount, which is `RunsOff` in the model.
- `strtol` and `strtoul` set the end pointer where section 7.20.1.4 of ISO/IEC
  9899:1999 has it exactly if the number is not a lone "0" in base 0
  (`EndIsStandard`, `LoneZeroInput`).
- The two printers give the same field for a signed number unless zeros are to be
  put between its minus sign and its digits (`SignedFieldsAgree`), and `tfp_format`
  only for numbers that fit its 12 characters: below 10^11 in decimal, 2^44 in
  hexadecimal, above -10^10 (`FormatUnsigned`, `FormatSigned`).

## Model

| member | source | states |
|---|---|---|
| FastLzFormat.CopyOutAt | fastlz/fastlz.cc:460-507 | a copy from `d` back leaves what was there and makes every further byte equal to the one `d` before it, overlapping or not |
| FastLzFormat.CopyOutUnique | fastlz/fastlz.cc:460-507 | that description determines the result, so all copy loops that meet it agree |
| FastLzFormat.CopyOutSplit | fastlz/fastlz.cc:331-338 | a match cut into pieces at one distance is the whole match |
| FastLzFormat.CopyRebuilds | fastlz/fastlz.cc:243-271 | if the text repeats at a distance, copying from there rebuilds it |
| FastLzFormat.Layouts | fastlz/fastlz.cc:289-351 | the layout in concrete bytes: literals, short and long, near and far matches at both levels |
| FastLzDecoder.OperandsReadBack | fastlz/fastlz.cc:289-351 | the decoder recovers length and distance of every encodable match: biased fields, 255-byte chains, the (31, 255) escape never taken for a near match |
| FastLzDecoder.StepInstr | fastlz/fastlz.cc:411-527 | one turn of the decoder on the bytes of an instruction consumes exactly them and applies it |
| FastLzDecoder.DecodeEncoded | fastlz/fastlz.cc:402-531 | decoding the bytes of any well-formed stream, at either level, with or without level marker, gives its text in any buffer that can hold it |
| FastLzDecoder.DecodeAppends | fastlz/fastlz.cc:411-530 | for any bytes, output once produced is never changed |
| FastLzDecoder.DecodeAny | fastlz/fastlz.cc:122-134 | for any bytes, anywhere, accepted output is not empty and not longer than `maxout` |
| FastLzDecoder.DecodePrefix | fastlz/fastlz.cc:402-531 | an input that begins with a well-formed stream decodes to its text at the end of it, whatever follows |
| FastLzDecoder.NegativeLength | fastlz/fastlz.cc:515-516 | with a negative length every input is corrupt |
| FastLzDecoder.DecodeStaysInMemory | fastlz/fastlz.cc:424-445 | with a cushion behind the input no operand read leaves memory, from any state of the loop |
| FastLzDecoder.SafeExactlyWithCushion | fastlz/fastlz.h:44-45 | the decoder stays in memory on all inputs if and only if what lies behind the input is a cushion |
| FastLzDecoder.ReadsPastCushion | fastlz/fastlz.cc:429-445 | the concrete three-byte input on which it does not, for every other memory |
| FastLzBounds.TestsAreExact | fastlz/fastlz.cc:447-453 | with enough addresses above and below the output, a match that passes the address tests fits the output |
| FastLzBounds.MatchSize | fastlz/fastlz.cc:424-445 | how much a match can cover, for the bytes it takes and for those left within reach |
| FastLzBounds.StaysInOutput | fastlz/fastlz.cc:447-517 | with 255 addresses above the start of the output for every byte within reach, less 501, no copy leaves the output |
| FastLzBounds.LoaderStrays | fastlz/lzloader.cc:24-29 | an input of three bytes, with a chain behind it up to a reach of 16834787, that leaves the loader's buffer |
| FastLzBounds.LoaderStaysExactly | fastlz/lzloader.cc:24-29 | in the call that unpacks the kernel no input of a given reach, its bytes and the 255s behind it, leaves the buffer if and only if that is at most 16834786 |
| FastLzBounds.EndsInVerdict | fastlz/fastlz.h:37-45 | with both conditions every input ends as accepted, with at most `maxout` bytes, or as corrupt |
| FastLzBounds.TooSmallIsCorrupt | fastlz/fastlz.h:38-40 | a well-formed stream whose text is longer than `maxout` is reported as corrupt, wherever the tests are exact for its matches |
| FastLzBounds.CutRunIsCorrupt | fastlz/fastlz.cc:510-517 | a stream followed by a literal run that the input does not hold is corrupt |
| FastLzBounds.UnproducedIsCorrupt | fastlz/fastlz.cc:451-452 | so is one followed by a match of text never produced, unless its source lies before address 0 |
| FastLzBounds.UnknownLevelIsCorrupt | fastlz/fastlz.cc:122-134 | so is any input whose first byte is 64 or more |
| FastLzBounds.StraysAbove | fastlz/fastlz.cc:448-449 | otherwise the input, of a legal size, whose last match wraps past the end test and leaves the output |
| FastLzBounds.StraysBelow | fastlz/fastlz.cc:451-452 | the input whose last match starts before address 0 and passes the start test |
| FastLzBounds.StaysExactlyIfSpacious | fastlz/fastlz.h:44-45 | for every place and size of the output: no input leaves it if and only if the place is spacious |
| FastLzBounds.WhereItIsSpacious | fastlz/fastlz.h:44-45 | which places are, on 32-bit and 64-bit addresses |
| FastLzDecompressor.FillRun | fastlz/fastlz.cc:460-469 | the run fill is the copy at distance 1 and changes nothing behind its end |
| FastLzDecompressor.CopyBytes | fastlz/fastlz.cc:476-507 | the byte loop is the copy at any distance |
| FastLzDecompressor.CopyWords | fastlz/fastlz.cc:476-502 | the 16-bit loop, odd byte first and four moves a round, is the same copy at distance 2 and up |
| FastLzDecompressor.ReadMatch | fastlz/fastlz.cc:413-445 | the operand loop computes the operands of the specification, 32-bit accumulator included |
| FastLzDecompressor.Execute | fastlz/fastlz.cc:411-527 | one turn in place, address tests included, is one step of the specification; an early return leaves the output as it was |
| FastLzDecompressor.Decompress | fastlz/fastlz.cc:402-531 | the loop fills the buffer with the decoded data and returns its size, or 0; it leaves the buffer exactly where the specification strays, and before that never writes at or beyond `maxout` |
| FastLzGreedy.HashExample | fastlz/fastlz.cc:84 | the hash of concrete words |
| FastLzGreedy.FollowedUnique | fastlz/fastlz.cc:247-271 | where a match ends is determined by the input |
| FastLzGreedy.ChosenUnique | fastlz/fastlz.cc:186-241 | so is whether a match is taken at a position, and at which distance, given the decisions before |
| FastLzGreedy.ScanUnique | fastlz/fastlz.cc:188-373 | there is one sequence of decisions for an input |
| FastLzGreedy.ConstantScan | fastlz/fastlz.cc:199-271 | equal bytes are one match, from the third byte to the last but three, at distance 1 at level 2 and 2 at level 1 |
| FastLzGreedy.ConstantSize | fastlz/fastlz.cc:289-351 | L of them, from 15 on, pack into 10 + (L - 14) / 255 bytes at level 2, and at level 1 into 9 + 3 * ((L - 8) / 262), and one more unless (L - 8) % 262 < 6 |
| FastLzCompressor.DocumentedBufferIsEnough | fastlz/fastlz.h:25-26 | a buffer 5% larger and of at least 66 bytes has room for everything the compressor writes |
| FastLzCompressor.PutLiteral | fastlz/fastlz.cc:364-372 | one literal byte extends the open run, with a fresh header when it is full, and keeps the loop invariant |
| FastLzCompressor.Close | fastlz/fastlz.cc:273-282 | patching the header, or retracting it from an empty run, leaves a finished stream for all text so far: the instructions before, and the run if there is one |
| FastLzCompressor.PutMatch1 | fastlz/fastlz.cc:340-350 | a level 1 match is written as the format has it, in no more bytes than it covers less one |
| FastLzCompressor.PutChain | fastlz/fastlz.cc:300-302 | the length chain |
| FastLzCompressor.PutMatch2 | fastlz/fastlz.cc:290-328 | a level 2 match, near or far, short or chained, is written as the format has it |
| FastLzCompressor.EmitMatch | fastlz/fastlz.cc:288-351 | a match of any length, whole or cut into level 1 pieces, extends the finished stream by the text it covers |
| FastLzCompressor.FindMatch | fastlz/fastlz.cc:199-241 | a run is found at distance 1; otherwise a match is found exactly if the position in the slot of the real hash pays, and the slot then holds the anchor |
| FastLzCompressor.ExtendRun | fastlz/fastlz.cc:249-255 | the match ends at the first byte that differs, or at the bound if none does |
| FastLzCompressor.ExtendCopy | fastlz/fastlz.cc:257-271 | the same at any distance, where the first eight comparisons go on past the bound |
| FastLzCompressor.FinishedIsCompressed | fastlz/fastlz.cc:388-399 | a finished stream with its marker decodes, by the level in its first byte, to the whole input |
| FastLzCompressor.StoreShort | fastlz/fastlz.cc:161-175 | inputs below four bytes are one literal run that decodes to them |
| FastLzCompressor.TakeMatch | fastlz/fastlz.cc:240-362 | the match is followed to its end, written after the open run, its last two positions entered in the table, and the next run opened; the byte after the input is read if and only if a far match at the last place repeats up to the last byte |
| FastLzCompressor.Scan | fastlz/fastlz.cc:177-373 | at every position it reaches a match that pays is taken, the last position entered with the same hash being tried, and followed to its end; otherwise there is a literal; the stream is exactly that of these decisions; without a match that pays, every byte is a literal |
| FastLzCompressor.LeftOver | fastlz/fastlz.cc:375-386 | the last bytes become literals in runs of 32 |
| FastLzCompressor.OutputIsDetermined | fastlz/fastlz.cc:148-400 | two outputs of the same input are equal byte for byte |
| FastLzCompressor.PackedLengthFits | fastlz/fastlz.cc:399 | up to 2082408384 bytes, and no further, the longest packed length fits an `int` |
| FastLzCompressor.Compress | fastlz/fastlz.cc:148-400 | the output is the marked stream of the greedy decisions; it decodes to the input, names its level, fits in length + length/32 + 1 bytes, and is never written beyond a buffer of that size; its length is returned as an `int`, and is exact for input without a match and for equal bytes; for a negative length one header byte is written and length + 1 returned |
| FastLz.FastlzCompress | fastlz/fastlz.cc:112-120 | level 1 below 65536 bytes, level 2 from there on; the output is that of the greedy scan and decodes to the input, its length comes back as an `int`; for equal bytes it is the size above |
| FastLz.FastlzCompressLevel | fastlz/fastlz.cc:136-144 | the same at the level asked for; any other level writes nothing and returns 0 |
| FastLz.FastlzDecompress | fastlz/fastlz.cc:122-134 | decodes by the level in the first byte, for an output at any place and a length of either sign; an unknown level is an error |
| FastLz.RoundTrip | fastlz/fastlz.h:34-48 | for every input of at least one byte, either entry point, either level, either copy loop and any place of the output: decompression returns exactly the input if and only if the packed length fits an `int`, which it does up to 2082408384 bytes, and does not for longer inputs without a match |
| FastLz.CounterTextIsIncompressible | fastlz/fastlz.cc:199-241 | a text of counters, of any size, in which no match pays at either level |
| FastLz.CounterTextIsLost | fastlz/fastlz.cc:399-408 | from 2082408385 bytes on it packs without an error and decompresses to nothing |
| GrantList.ChainUnique | xen/gnttab.cc:59-84 | the list that hangs on a head is determined by the links |
| GrantList.EndedMembers | xen/gnttab.cc:214-232 | the list a batch collects holds exactly its ended references, each once, and ends in the first one if that was ended |
| GrantList.GrantTable.constructor | xen/gnttab.cc:642-675 | set-up leaves one frame whose unreserved references are all free, in order |
| GrantList.GrantTable.PutFreeEntry | xen/gnttab.cc:114-124 | the reference becomes the first free one, counted, and is no longer handed out |
| GrantList.GrantTable.GetFreeEntries | xen/gnttab.cc:62-84 | ENOSPC exactly if the frames needed are more than the limit, ENOMEM exactly if they are not but memory is out, then changing nothing; a write outside the table exactly if none is asked for and none is free; else hands out the first references as a private list, grown frames first; the list stays valid if and only if one was asked for |
| GrantList.GrantTable.FreeGrantReferences | xen/gnttab.cc:315-335 | a whole private list goes in front of the free one, in order, and is counted |
| GrantList.GrantTable.ClaimGrantReference | xen/gnttab.cc:357-366 | takes the first reference off a private list; what is left is one too |
| GrantList.GrantTable.ReleaseGrantReference | xen/gnttab.cc:368-374 | puts a reference in front of a private list, without touching the free one |
| GrantList.GrantTable.GrowGnttabList | xen/gnttab.cc:411-446 | the references of the new frames go in front of the free ones, none twice, or nothing changes |
| GrantList.GrantTable.Expand | xen/gnttab.cc:613-630 | the exact outcome for every limit, and the least number of frames that hold the request |
| GrantList.GrantTable.SpliceBatch | xen/gnttab.cc:234-240 | what linking the last entry of the batch does to the free list, and when the list stays valid |
| GrantList.Conservation | xen/gnttab.cc:668-675 | in every valid state the count and the references handed out add up to all unreserved entries |
| GrantList.CountIsWrong | xen/gnttab.cc:74-79 | where the count disagrees, no reading of the links repairs it |
| GrantProtocol.GuestKeepsInv | xen/gnttab.cc:130-297 | every guest access keeps the protocol invariant |
| GrantProtocol.XenKeepsInv | xen/interface/grant_table.h:92-150 | so does every move of Xen |
| GrantProtocol.Reachable | xen/interface/grant_table.h:36-84 | the invariant, and the agreement with the history of offers and frames, hold in every state of every run |
| GrantProtocol.NoUseAfterEnd | xen/gnttab.cc:190-205 | in every run, a reference that is free or may be freed or reused is mapped by nobody and out of Xen's reach |
| GrantProtocol.EndReturnsOneOnlyIfUnused | xen/gnttab.cc:173-188 | 1 is returned only at an atomic step at which neither use bit was set and nobody used the grant |
| GrantProtocol.VisibleGrantIsTheLatest | xen/gnttab.cc:141-160 | whenever permit_access is visible, domain and read-only bit are those of the latest grant, the frame is its frame as stored, and every mapping respects them; the frame is the one asked for if and only if it is below 2^32 |
| GrantProtocol.TransferResult | xen/gnttab.cc:269-297 | withdrawn only if the entry was cleared before Xen committed; else the frame Xen last wrote before it set completed, so 0 only if Xen wrote 0 |
| GrantProtocol.GuestKeepsOffCommitted | xen/interface/grant_table.h:70-74 | the guest changes no entry between committed and completed |
| GrantAccess.RunKeepsInv | xen/gnttab.cc:130-297 | the invariant along any sequence of moves on one entry |
| GrantAccess.MappedFrame | xen/interface/grant_table.h:92-102 | the run in which a grant is mapped gives the domain the frame as stored |
| GrantAccess.LargeFrameIsCut | xen/interface/grant_table.h:97-101 | for frame 2^32 + 5 that is frame 5 |
| GrantAccess.SharedEntry.GrantRef | xen/gnttab.cc:152-161 | whatever Xen does between the stores, the call is a run of the protocol and leaves exactly the entry asked for, the frame cut to 32 bits |
| GrantAccess.SharedEntry.EndForeignAccessRef | xen/gnttab.cc:173-188 | for every schedule of Xen the loop ends and is a run; success means a cleared entry used by nobody, failure that a use bit was seen during the call and the grant still stands |
| GrantAccess.SharedEntry.EndForeignTransferRef | xen/gnttab.cc:269-297 | a run for every schedule; withdrawn before commitment, or the frame Xen wrote; it waits only while Xen is committed and not done |
| GrantAccess.SharedEntry.Drop | xen/gnttab.cc:190-205 | a reference returned to the free list is used by nobody |
| Grants.FreeIsUnused | xen/gnttab.cc:190-205 | while list and entries are in step, nothing on the free list is mapped by a foreign domain or can be touched by Xen |
| Grants.XenBetweenCalls | xen/interface/grant_table.h:86-102 | whatever Xen does between two calls, list and entries stay in step |
| Grants.GetOne | xen/gnttab.cc:62-84 | the first free reference, or the first of a new frame; ENOSPC exactly if none is free and the frame limit is reached, ENOMEM exactly if only memory is missing |
| Grants.Grant | xen/gnttab.cc:130-150 | fails exactly if no reference is free and the table cannot grow, with the error named and nothing changed; else hands out the first free reference, or the first of a new frame, with the offer as stored published in its entry and no other entry touched; list and entries stay in step |
| Grants.EndForeignAccess | xen/gnttab.cc:190-205 | the reference goes back on the free list, unused, or the grant stands and its entry was seen in use during the call, under any schedule of Xen |
| Grants.EndForeignTransfer | xen/gnttab.cc:299-306 | the same for a transfer, with the frame; 0 means withdrawn, or that Xen wrote frame 0; it is still waiting only while Xen is committed and not done |
| Grants.EndForeignAccessReferences | xen/gnttab.cc:207-241 | the free list after a batch of compare-and-swaps under any schedules; ended references are unused, the others were in use during the call and keep their grants; list and entries stay in step if and only if none was ended, the first was, or no reference was free |
| EventBindings.ApplyKeeps | xen/evtchn.cc:288-472 | every bind and unbind keeps the binding invariant |
| EventBindings.ApplyStaysClean | xen/evtchn.cc:288-472 | and but for the unbind that drops the last reference to port 0 it leaves no IRQ without references in the tables |
| EventBindings.DetachKeeps | xen/evtchn.cc:447-469 | taking down a binding of any type, on any CPU, keeps it |
| EventBindings.Reachable | xen/evtchn.cc:1086-1111 | the invariant holds in every state of every run from boot |
| EventBindings.TablesAreInverse | xen/evtchn.cc:288-472 | where no such unbind has happened an IRQ has references if and only if the port in its word maps back to it, and no two share a port |
| EventBindings.PairedBesidesZero | xen/evtchn.cc:288-472 | in every state of every run a port other than 0 maps to an IRQ if and only if that has references and the port in its word |
| EventBindings.InverseExactlyIfNoLeak | xen/evtchn.cc:288-472 | in every run all states have inverse tables if and only if the last reference to port 0 is never dropped |
| EventBindings.SlotsAgree | xen/evtchn.cc:369-435 | in every state of every run a per-CPU VIRQ or IPI slot holds an IRQ if and only if that is bound to the slot's type and index and its port delivered to that CPU |
| EventBindings.OneCpuPerPort | xen/evtchn.cc:166-186 | in every state of every run a port is in the delivery mask of its own CPU and no other, and an unmapped one is with CPU 0 |
| EventBindings.UnbindClears | xen/evtchn.cc:438-472 | in every state the last unbind of a valid port clears its slot, its port and its word, puts the port back on CPU 0 and changes nothing else |
| EventBindings.UnbindUndoesBind | xen/evtchn.cc:288-472 | in every state, unbinding a fresh binding of any type restores all tables if and only if it is not that of port 0 and its IRQ had been left clean |
| EventBindings.UnbindUndoesShare | xen/evtchn.cc:288-472 | in every state, unbinding a shared bind of any type restores all tables |
| EventBindings.CountsUsers | xen/evtchn.cc:288-472 | in every state of every run the count of an IRQ is the number of binds that returned it less the unbinds of it |
| EventBindings.BindEnters | xen/evtchn.cc:288-435 | what a fresh bind enters: the first free IRQ, with one user, the kind, index and port asked for and the CPU the events go to; nothing else changes |
| EventChannels.UnpackMk | xen/evtchn.cc:107-141 | the fields of a packed word are read back as they went in, and fit 32 bits |
| EventChannels.PackedExample | xen/evtchn.cc:107-141 | where the fields lie in the word |
| EventChannels.EventChannels.constructor | xen/evtchn.cc:1086-1111 | start-up gives the empty tables |
| EventChannels.EventChannels.FindUnboundIrq | xen/evtchn.cc:271-286 | the first dynamic IRQ without bindings; `None`, where the code runs past its table, exactly if there is none |
| EventChannels.EventChannels.BindEvtchnToCpu | xen/evtchn.cc:174-179 | moves a port to another CPU's mask |
| EventChannels.EventChannels.BindCallerPortToIrq | xen/evtchn.cc:288-309 | for every port the specified transition of all tables, and the IRQ the port then has; it runs off its table if and only if the port is new and no IRQ is free |
| EventChannels.EventChannels.BindLocalPortToIrq | xen/evtchn.cc:311-336 | the same for a fresh local port; it runs off if and only if no IRQ is free |
| EventChannels.EventChannels.BindToCpuIrq | xen/evtchn.cc:369-435 | the same for VIRQs and IPIs, shared or fresh; a shared one reports port 0 |
| EventChannels.EventChannels.UnbindFromIrq | xen/evtchn.cc:438-472 | the specified transition, slot and CPU taken from the packed word and the port |
| EventDelivery.StepKeeps | xen/evtchn.cc:216-256 | every single access of a sender, an unmask or an upcall, which reads pending and mask in either order, keeps the delivery invariant |
| EventDelivery.Reachable | xen/evtchn.cc:966-1001 | it holds in every state of every interleaving |
| EventDelivery.PendingIsCovered | xen/evtchn.cc:989-1000 | a pending unmasked port that is seen has its selector bit set, or is covered by a send or unmask under way or by an upcall that holds its word |
| EventDelivery.SelectorIsAnnounced | xen/evtchn.cc:229-234 | a set selector bit has the upcall flag set, about to be set, or an upcall about to take it |
| EventDelivery.NoEventIsLost | xen/evtchn.cc:989-1000 | at rest, every event not yet handled is pending, and with selector and flag set unless masked or not seen |
| EventDelivery.OnlySeenAreHandled | xen/evtchn.cc:219-256 | in no run does an upcall mask, clear or handle a port that its locals do not hold |
| EventDelivery.HandlersRunAcknowledged | xen/evtchn.cc:243-250 | in every run, while the handlers of a port run it is masked, unless it has been unmasked since, and not pending, unless it has been sent to since |
| EventDelivery.LosingRun | xen/evtchn.cc:219-256 | for every such port the run from start-up that unmasks it, sends to it and loses the event |
| EventDelivery.NeverLostExactlyIfSeen | xen/evtchn.cc:219-256 | a port loses no event in any run if and only if it is seen |
| EventDelivery.SeenPorts | xen/evtchn.cc:219 | with 64-bit longs and 32-bit ints: below 2048 and modulo 64 below 32; not port 32 |
| EventUpcall.EvtchnDoUpcall | xen/evtchn.cc:216-256 | an undisturbed upcall ends if and only if every due port is mapped; it then has handled exactly the due ports, once each in ascending order, masked and cleared them, and touched no other |
| EventUpcall.DrainWord | xen/evtchn.cc:238-254 | re-reading the word until it is empty delivers its due ports; it ends if all of them are mapped |
| EventUpcall.HandledExactly | xen/evtchn.cc:229-254 | written out, a completed upcall handles, once each, the ports that were pending, unmasked, this CPU's, selected, and seen; it masks and clears those and no others |
| EventUpcall.UnseenStay | xen/evtchn.cc:219-238 | ports whose bits do not fit the locals, 32 the first, come out pending and unhandled |
| EventUpcall.SharedInfo.UnmaskEvtchn | xen/evtchn.cc:973-1001 | unmasks the port, and if it is of this CPU and pending sets the selector bit and, if that was clear, the upcall flag; for another CPU asks Xen and leaves both alone |
| EventUpcall.UnmaskThenUpcall | xen/evtchn.cc:989-1000 | the upcall after an unmask ends if and only if all that is due then is mapped; an event that came in while its port was masked is then handled if and only if the port is seen; else it stays pending with selector and flag clear |
| PageTable.SamePage | pagetable.hh:422-429 | two addresses lie in one page if and only if their four indices agree |
| PageTable.OnePath | pagetable.hh:446-479 | in a tree, addresses that meet in a table agree on all indices above it |
| PageTable.TouchKeeps | pagetable.cc:43-66 | making a present entry writable keeps the tree and every translation |
| PageTable.GrowKeeps | pagetable.cc:44-64 | hooking in a zeroed table keeps the tree |
| PageTable.GrowLeaf | pagetable.cc:44-64 | ... and the leaf entry of every address, all its bits |
| PageTable.SetPageLeaf | pagetable.cc:65-68 | the last write makes the leaf entry of the page present and writable with the frame given, and changes no other leaf |
| PageTable.AllStayWritable | pagetable.cc:43-68 | no step makes an address read-only that could be written to |
| PageTable.Mmu.AllocPage | memory.cc:12-17 | the next page down, zeroed |
| PageTable.Mmu.Map | pagetable.cc:41-69 | every address of the page then translates to the frame given and is present and writable on all four levels, the other bits of its entry as they were; every other address keeps its leaf entry, and stays writable if it was; the memory stays a tree, and exactly the missing tables are allocated |
| PageTable.Mmu.IsMapped | pagetable.cc:22-39 | true if and only if the four-level walk succeeds |
| NumberDigits.DigitsDenote | print.c:180-219 | the digits of a number are digits of the base and denote it |
| NumberDigits.DigitsAreCanonical | print.c:186-200 | no leading zero but for zero itself |
| NumberParse.StrtoxPrelim | cruntime.c:43-82 | sign, base and start of the digits, "0x" without a digit behind it included |
| NumberParse.StrtoxMain | cruntime.c:202-232 | takes every digit; the true value up to the limit, beyond it the error value with ERANGE and a plus sign; the accumulator never passes the limit |
| NumberParse.Saturation | cruntime.c:210 | the comparison with quotient and remainder of the limit is exact |
| NumberParse.StrtolC | cruntime.c:234-250 | the number in the string clamped to LONG_MIN and LONG_MAX, ERANGE exactly if it was clamped, and the end pointer |
| NumberParse.StrtoulC | cruntime.c:286-306 | the same for unsigned numbers, negated modulo 2^64 after a minus sign |
| NumberParse.EndIsStandard | cruntime.c:51-82 | the end pointer is where the C standard puts it if and only if the number is not a lone "0" in base 0 |
| NumberParse.LoneZeroInput | cruntime.c:68-71 | the input on which it is not |
| NumberRoundTrip.WhiteSpaceIsSkipped | cruntime.c:46 | any run of the six white space characters in front changes no result |
| NumberRoundTrip.StrtoulNegates | cruntime.c:286-306 | strtoul of a minus sign and a number is 2^64 less the number, or 0 for 0, in every base up to 16 |
| NumberRoundTrip.OutOfRangeIsClamped | cruntime.c:202-250 | a number of any size, with a minus sign or without, comes out as the nearest the type holds |
| NumberRoundTrip.BaseZeroReadsHex | cruntime.c:51-67 | base 0 reads "0x" or "0X" and hexadecimal digits |
| NumberRoundTrip.BaseZeroReadsOctal | cruntime.c:68-71 | ... a leading zero and octal digits |
| NumberRoundTrip.BaseZeroReadsDecimal | cruntime.c:77-80 | ... and decimal digits |
| NumberPrint.FieldWidth | print.c:124-168 | without a precision a conversion emits exactly max(width, prefix + digits) characters |
| NumberPrint.LeftAligned | print.c:112-168 | with the minus flag: prefix, zeros up to the precision, digits, and only then blanks up to the width |
| NumberPrint.RightAligned | print.c:112-168 | without it and without the zero flag: blanks up to the width, then prefix, zeros up to the precision, digits |
| NumberPrint.ZeroPadded | print.c:112-168 | with the zero flag: prefix, then zeros, then digits |
| NumberPrint.PrefaceIs | print.c:94-123 | the prefix for every combination of flags, sign and base |
| NumberPrint.DigitsInCase | print.c:206-217 | digits above 9 are letters of the case asked for |
| NumberPrint.Examples | print.c:92-219 | concrete fields: "%-5d" of 42 is "42   " |
| NumberPrint.Status.Put | print.c:79-89 | delivers a character, counting those there is no room for |
| NumberPrint.Status.IntFormat | print.c:92-169 | everything before the digits, and the count it keeps |
| NumberPrint.Status.Int2Base | print.c:180-219 | the recursion emits lead and digits of every value, the most negative one included |
| NumberPrint.Status.PrintSigned | print.c:501-537 | the text of a signed conversion, cut off and terminated if the buffer is full |
| NumberPrint.Status.PrintUnsigned | print.c:450-537 | the text of an unsigned conversion, one digit split off first |
| NumberRoundTrip.StrtolReadsBack | print.c:92-219 | strtol in base 10 of "%ld" gives back every long, for all flags, widths and precisions |
| NumberRoundTrip.StrtoulReadsBack | print.c:92-219 | strtoul gives back every unsigned long from "%lu", "%lo", "%lx" and "%lX", with or without "#" |
| NumberRoundTrip.PrintAndParse | cruntime.c:234-250 | the same through the buffer and both loops |
| NumberRoundTrip.PrintAndParseUnsigned | cruntime.c:297-306 | the same for unsigned numbers |
| NumberPrintf.FixedIsDigits | printf.c:37-45 | dividing down from the largest power gives the canonical digits |
| NumberPrintf.LargestPower | printf.c:33-36 | the first loop finds the largest power not above the number, and its divisor never overflows |
| NumberPrintf.Uli2a | printf.c:31-47 | the digits of the number and a NUL, behind what the buffer already held |
| NumberPrintf.Li2a | printf.c:49-56 | sign and digits of every long, the most negative one included |
| NumberPrintf.Putchw | printf.c:113-124 | pads on the left to the width |
| NumberPrintf.UnsignedFieldsAgree | printf.c:113-124 | for unsigned numbers the padded digits are the field of print.c, for every width and zero flag |
| NumberPrintf.SignedFieldsAgree | printf.c:113-124 | for signed ones they are if and only if no zeros are needed in front of a negative number |
| NumberPrintf.UnsignedFits | printf.c:128 | digits and NUL fit the buffer if and only if the number is below 10^11, in hexadecimal 2^44 |
| NumberPrintf.SignedFits | printf.c:128 | the same with a sign: above -10^10 and below 10^11 |
| NumberPrintf.FormatUnsigned | printf.c:157-187 | "%lu", "%lx" and "%lX" give the field of print.c exactly for numbers that fit the buffer |
| NumberPrintf.FormatSigned | printf.c:169-178 | "%ld" likewise, unless zeros have to go between sign and digits |

## Left out

- FastLZ input is a value, so that the input and output buffers do not overlap is implied. Its addresses do not wrap: it and what is read behind it end at least 33 bytes below the end of the address space, and a negative length does not lead below address 0.
- FastLZ hash: 16-bit words are read low byte first; the byte after the input is a parameter.
- FastLZ lengths from 2^31 on, which an `int` cannot carry, for inputs.
- Decoding without FASTLZ_SAFE, and the 16-bit loop on machines where a misaligned access fails. What happens after a copy has left the output is not modelled.
- Grant table: more references than an `int` can count, free callbacks, clean-up after a failed allocation, the paging of gnttab_list (one flat array here), gnttab_query, mapping of new frames.
- GrantProtocol: Xen's check of type and domain and its setting of the use bits are one atomic step; the cache attribute bits are not modelled; at any time at most one guest thread works on a reference.
- GrantAccess.SharedEntry.EndForeignTransferRef: Xen's schedule is finite, and a call that would still be waiting at its end returns `None`; the assertion that the frame is not 0 is not modelled.
- Event channels: PIRQ bindings, registration of handlers, irq_resume, the legacy interrupt mode, and the hypercalls, which appear only as the fresh non-zero port they return.
- EventChannels.EventChannels.FindUnboundIrq: what the code reads past its table, and whether it then panics or goes on with an index out of range, is not modelled; nor what follows in the bind that called it.
- The per-CPU VIRQ and IPI tables are one map from CPU, type and index.
- EventDelivery: the CPU of a port is fixed while events are delivered; an upcall takes any set bit where the code takes the lowest; what handlers do is not modelled.
- EventUpcall.SharedInfo.UnmaskEvtchn: what Xen does for a port of another CPU appears as far as this CPU's words show it; EventDelivery has the whole. Forcing a callback is left out.
- EventUpcall.EvtchnDoUpcall: nobody else touches the words meanwhile; the upcall is watched for a given number of turns of its inner loop.
- Page tables: large pages and break_2m, user and cache bits, invalidation, the canonical form of addresses (the walk uses the low 48 bits only).
- PageTable.Mmu.Map: trees with large pages; and it requires pages in the allocator for the tables that are missing, since the allocator has no limit of its own in the code.
- PageTable.Mmu.IsMapped: trees with large pages, whose test looks at entry 0 of the directory only.
- print.c: parsing of the conversion specification, %s, %c, %n, length modifiers other than l, and output to a stream.
- printf.c: parsing of the format, %c and %s, and what overrunning the buffer of tfp_format does.
