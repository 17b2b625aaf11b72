# A model of c64iec

c64iec puts an Arduino between the serial bus of a Commodore 64 and an Ethernet network: the C64 loads and
saves files, the device moves them by TFTP, and a Ruby server keeps them as plain files or in D64 disk images.
This project models the parts of it that carry the data and proves what they promise.

Each file is one module.

* **Stash** (`PageStore`, `StashMemory`, `BlockMap`, `StashModel`, `StashRuns`, `StashMachine`, `Stash`): a heap
  of 64-byte pages in the Ethernet controller's RAM, behind a write-back slot and a read slot, with a bitmap
  allocator and linked chains. `StashMemory` and `StashModel` describe each operation as a transition on values,
  with one invariant: what a page *means* (the write slot if it holds the page, else RAM), who owns it, and when
  the read slot may be stale. `StashRuns` and `StashMachine` lift this to whole runs: any disciplined program over
  many stashes is a program over plain byte queues. The classes in `Stash` are the code itself, on arrays, each
  method tied to its transition.
* **Templates** (`Template`, `TemplateRun`, `TemplateExtract`): `prepare`, `length`, `extract` and `cleanup`
  against the expansion of the format.
* **TFTP** (`TftpClient`, `TftpWire`, `SendFile`, `RecvFile`, `TftpServer`, `TftpRead`, `TftpReadSafety`,
  `TftpReadCount`, `TftpWrite`, `TftpParties`; as code: `TftpDevice`, `C64Iec`, `TftpObject`): device and server
  as two parties over channels that lose packets both ways and may duplicate, next to each other, packets to the
  device. Safety holds in every reachable state; over reliable channels the number of packets is exact.
  `TftpParties` ties both ends of a run to what the code of each party does.
* **Requests and names** (`Request`, `FileName`, `Url`, `Hex`, `CString`): printers and parsers that undo each other.
* **Checksums and headers** (`Checksum`, `TcpIp`): against section 1 of RFC 1071.
* **DNS** (`DnsMessage`, `Dns`): against sections 3.1 and 4.1 of RFC 1035.
* **Disk images** (`D64Disk`, `DeviceD64`): the sector map, paths along linked sectors, files and the directory.

Machine widths are explicit: `Byte` and `Word` are ranges of integers, and every wrap is written out as a
remainder. A pointer is an index; external memory, EEPROM and flash are byte sequences; what the network and the
C64 bring is a parameter. Ghost parameters (a path of sectors, the expansion of a template) name values that the
code does not have and that its contract speaks about.

Where the code falls short of the obvious promise, the code is kept and the exact condition is proved, for most
also with an input that shows it: `size` (`StashModel.SizeStep`, `StashMachine.StaleSize`), the length of a
template, both by counting NULs and what lies behind them and by wrapping at 65536 (`Template.StoredLength`,
`Template.LengthTooLong`, `Template.LengthWraps`), the end of an empty file (`SendFile.EoiPlacement`), reads of
more than 65535 blocks (`TftpReadSafety.TakesNext`, `TftpReadSafety.ReadIsSafe`), the end of a write
(`TftpWrite.WriteIsSafe`), the echo reply (`TcpIp.PatchVerifies`, `TcpIp.LostPatch`), the sequence number
(`TcpIp.SumIsRight`, `TcpIp.LostIncrement`), the pseudo-header sum (`Checksum.ChecksumIsRfc`,
`Checksum.DroppedCarry`), the end of an encoded string (`Url.StaysInString`, `Url.CutEscape`), names of over 20
characters, for which nothing is sent and send_file reports success (`SendFile.TooLong`), error packets while a
block waits (`RecvFile.ErrorHangs`) or with the number of the last packet (`SendFile.ErrorStops`), and host
names (`DnsMessage.QNameReads`, `DnsMessage.EmptyLabel`; `DnsMessage.LandsOnAnswers`, `DnsMessage.LongQuery`).

`tftp_recv_packet` is declared to return a value and does not; its result is not modelled. The comment on
line 60 of EtherCard/dns.cpp and the code agree only while the query is shorter than 256 bytes; the model follows
the code.

## Model

| member | source | states |
|---|---|---|
| `PageStore.PageRange` | EtherCard/enc28j60.cpp:475-476 | the 16-bit address of a page is accepted by the range check for pages 0 to 55 and for no other of the 256 |
| `PageStore.Copyout` | EtherCard/enc28j60.cpp:474-480 | exactly the named page of the external memory changes; an unacceptable page changes nothing; nothing below the scratch area is touched |
| `PageStore.Copyin` | EtherCard/enc28j60.cpp:482-488 | the buffer becomes the named page, or stays as it was for an unacceptable page |
| `PageStore.Peekin` | EtherCard/enc28j60.cpp:490-498 | one byte of a page, and 0 outside the scratch area |
| `StashMemory.Load0PreservesView` | EtherCard/EtherCard.cpp:45-59 | cache coherence: moving the write-back slot changes the meaning of no page, puts every other page into external RAM, and makes the read slot forget the page it would double |
| `StashMemory.Load1PreservesView` | EtherCard/EtherCard.cpp:50-57 | filling the read slot changes no page; it reads the page as it means now, unless the slot already claims that page |
| `StashMemory.WriteSlot` | EtherCard/EtherCard.cpp:102-113 | a byte stored through the write slot, as put and create do, changes the meaning of that one page only |
| `BlockMap.OneBit` | EtherCard/EtherCard.cpp:19-32 | setting or clearing one bit adds or removes exactly that page of the free set |
| `BlockMap.AllocBlock` | EtherCard/EtherCard.cpp:19-28 | hands out the lowest free page and removes just it; answers 0 and changes nothing when none is free |
| `BlockMap.FreeBlock` | EtherCard/EtherCard.cpp:30-32 | adds exactly that page to the free set |
| `BlockMap.InitMap` | EtherCard/EtherCard.cpp:40-43 | frees every page below `last` but page 0; a `last` of 0 wraps round first |
| `BlockMap.FreeCount` | EtherCard/EtherCard.cpp:61-68 | the number of free pages modulo 256, counted from the top bit down |
| `StashModel.Load0Inv` | EtherCard/EtherCard.cpp:45-59 | every allowed move of the write slot keeps the invariant over all stashes |
| `StashModel.Load1Inv` | EtherCard/EtherCard.cpp:50-57 | every read of a saved stash keeps the invariant and finds the page as it means now |
| `StashModel.CreateStep` | EtherCard/EtherCard.cpp:70-78 | a new empty stash on the lowest free page; all other stashes and the template page stay |
| `StashModel.PutRoom` | EtherCard/EtherCard.cpp:102-107 | put never stores outside its page: `tail` is at most 62 |
| `StashModel.PutStep` | EtherCard/EtherCard.cpp:102-115 | put appends one byte to one stash, taking a page exactly when the byte lands on offset 62, and nothing else changes |
| `StashModel.TailRoom` | EtherCard/EtherCard.cpp:104-107 | when a put fills a page: exactly on the byte that otherwise is `tail` |
| `StashModel.SaveStep` | EtherCard/EtherCard.cpp:88-93 | save makes an unsaved stash readable: the header describes the chain and the stale read slot is given up |
| `StashModel.OpenStep` | EtherCard/EtherCard.cpp:80-86 | open of a saved descriptor stands at its first byte and changes no page |
| `StashModel.GetStep` | EtherCard/EtherCard.cpp:117-127 | get returns byte number pos of the queue and moves on by one; at the end it returns 0 and stays |
| `StashModel.SizeStep` | EtherCard/EtherCard.cpp:129-131 | size equals the number of bytes put if and only if it is not asked of an unsaved one-page stash whose stale first page is in the read slot and no longer in the write slot |
| `StashModel.FlushedChain` | EtherCard/EtherCard.cpp:95-100 | once the write slot is elsewhere, the links in RAM alone spell out the chain |
| `StashModel.ReleaseStep` | EtherCard/EtherCard.cpp:95-100 | a flushed release walks exactly its own chain, gives back exactly those pages and keeps the invariant for the rest |
| `StashModel.ScratchWrite` | EtherCard/EtherCard.cpp:141-146 | page 0 belongs to no stash, so writing a template there disturbs none |
| `StashModel.DistinctPages` | EtherCard/EtherCard.cpp:19-28 | a chain of distinct pages is shorter than 56, so `count` fits its byte |
| `StashRuns.Conservation` | EtherCard/EtherCard.cpp:19-43 | in every state that keeps the invariant, free pages and pages of live stashes add up to 55 |
| `StashRuns.FreeDetermined` | EtherCard/EtherCard.cpp:61-68 | the free map depends on the live stashes alone: when they are what they were, so is it |
| `StashRuns.StashIsFifo` | EtherCard/EtherCard.cpp:70-127 | create, put*, save, open and get* of any byte string: the k-th get returns the k-th byte put and later ones 0; other stashes and page 0 stay; exactly the pages needed are taken |
| `StashMachine.StepRefines` | EtherCard/EtherCard.cpp:70-131 | each operation of any program over any number of stashes and objects answers as a map of plain queues does, and the refinement goes on |
| `StashMachine.RunRefines` | EtherCard/EtherCard.cpp:70-131 | whole runs: every disciplined run of any length is a run of plain queues, ends where the operations take the queues, keeps cache coherence and ownership, and loses no page |
| `StashMachine.PoweredOnRefines` | EtherCard/EtherCard.cpp:325-331 | the state that `begin` leaves starts such runs |
| `StashMachine.StaleSize` | EtherCard/EtherCard.cpp:129-131 | a four-step run in which size answers 0 for a stash holding one byte: why the discipline on size is needed |
| `Stash.Pool.constructor` | EtherCard/EtherCard.cpp:325-331 | powering on frees pages 1 to 55 and leaves both slots on page 0 |
| `Stash.Pool.Load` | EtherCard/EtherCard.cpp:45-59 | the loading code on the two page buffers is the transition the lemmas are about |
| `Stash.Pool.FetchByte` | EtherCard/EtherCard.cpp:34-38 | write slot, then read slot, then RAM |
| `Stash.Pool.FreeCount` | EtherCard/EtherCard.cpp:61-68 | the exact number of free pages, since there are at most 55 |
| `Stash.Stash.Create` | EtherCard/EtherCard.cpp:70-78 | the object stands on a fresh empty stash; directory and memory change as in the model |
| `Stash.Stash.Open` | EtherCard/EtherCard.cpp:80-86 | the object stands at the first byte of a saved stash |
| `Stash.Stash.Save` | EtherCard/EtherCard.cpp:88-93 | the stash becomes readable, nothing else changes |
| `Stash.Stash.Release` | EtherCard/EtherCard.cpp:95-100 | the loop over links ends, and gives back exactly the pages of this stash |
| `Stash.Stash.Put` | EtherCard/EtherCard.cpp:102-115 | the byte is appended; all else in the directory stays |
| `Stash.Stash.Get` | EtherCard/EtherCard.cpp:117-127 | the byte at the read position, then 0 for ever |
| `Stash.Stash.Size` | EtherCard/EtherCard.cpp:129-131 | the bytes put, exactly under the condition of `SizeStep` |
| `Template.DecimalReads` | EtherCard/EtherCard.cpp:133-139 | the digits for a word read back as that word, without a leading zero |
| `Template.DecimalWidth` | EtherCard/EtherCard.cpp:156-157 | a word has at most five digits, so the seven-byte buffer holds them |
| `Template.LengthIsExpansion` | EtherCard/EtherCard.cpp:141-185 | before it wraps, the prepared length is that of the expansion and of the bytes behind a first NUL in each `$H` stash, so it is exact when and only when no such stash holds a NUL |
| `Template.StoredLength` | EtherCard/EtherCard.cpp:141-190 | the 16-bit word stored is the length of the expansion exactly when the expansion is under 65536 bytes and the unseen bytes are a multiple of 65536: with NUL-free stashes exactly under 65536 bytes, without wrapping exactly with NUL-free stashes |
| `Template.LengthWraps` | EtherCard/EtherCard.cpp:174-181 | thirty `$F` of a text of 2200 bytes: the expansion has 66000 bytes, the word stored is 464 |
| `Template.ExpandJoin` | EtherCard/EtherCard.cpp:198-243 | formats one behind the other expand one behind the other, and their lengths add up |
| `Template.PlainExpands` | EtherCard/EtherCard.cpp:200-206 | a character other than $ stands for itself |
| `Template.NumberExpands` | EtherCard/EtherCard.cpp:209-213 | `$D` is the argument in decimal: at most five digits that read back as it, no leading zero |
| `Template.TextExpands` | EtherCard/EtherCard.cpp:214-218 | `$S`, `$F` and `$E` are the bytes at the argument in SRAM, flash and EEPROM up to the first NUL |
| `Template.StashExpands` | EtherCard/EtherCard.cpp:219-222 | `$H` is the bytes of the stash in the argument's low byte up to the first NUL; the prepared length counts them all |
| `Template.OtherExpands` | EtherCard/EtherCard.cpp:208-225 | any other letter takes its argument and stands for nothing |
| `Template.LengthTooLong` | EtherCard/EtherCard.cpp:174-181 | a template of one stash holding a NUL: prepared with length 1, expanded to nothing |
| `TemplateRun.Wtoa` | EtherCard/EtherCard.cpp:133-139 | the recursive printer leaves exactly the decimal digits and a NUL |
| `TemplateRun.ArgLen` | EtherCard/EtherCard.cpp:154-179 | the length counted for one directive of each kind |
| `TemplateRun.Advance` | EtherCard/EtherCard.cpp:148-153 | what reading the format one step further meets |
| `TemplateRun.Prepare` | EtherCard/EtherCard.cpp:141-185 | page 0 ends up with the length (modulo 65536), the format and the arguments in order; no stash changes |
| `TemplateRun.Length` | EtherCard/EtherCard.cpp:187-190 | the stored length |
| `TemplateExtract.FormatStep` | EtherCard/EtherCard.cpp:200-225 | between directives the format ends, gives a plain byte or opens the next directive, in step with the expansion |
| `TemplateExtract.Source.Next` | EtherCard/EtherCard.cpp:226-239 | the bytes of a directive, one at a time, whatever memory they come from |
| `TemplateExtract.Source.Turn` | EtherCard/EtherCard.cpp:198-243 | one turn of the loop gives the next byte of the expansion, or none while the pair (format position, mode) goes down |
| `TemplateExtract.Extract` | EtherCard/EtherCard.cpp:192-248 | exactly the window [offset, offset + count) of the expansion is written, nothing behind it, no stash changes, and the loop ends |
| `TemplateExtract.WindowIs` | EtherCard/EtherCard.cpp:198-246 | byte k of a window is byte offset + k of the expansion, up to the end of either |
| `TemplateExtract.ExtractTwice` | EtherCard/EtherCard.cpp:192-248 | two calls for consecutive windows write, one behind the other, exactly the window of both |
| `TemplateExtract.ReleaseAgain` | EtherCard/EtherCard.cpp:260-263 | releasing a reference frees its chain, and once more does nothing if it was named before |
| `TemplateExtract.Cleanup` | EtherCard/EtherCard.cpp:250-266 | frees exactly the stashes named by `$H`, each once, and leaves every other stash |
| `TemplateExtract.ReferencedIs` | EtherCard/EtherCard.cpp:256-263 | a stash is named exactly when some `$H` has its descriptor in the low byte of its argument |
| `TftpWire.BuiltReads` | tools/tftp.rb:248-255 | the packets the server builds, read with the type word in front, the number behind it and the payload from byte 4 on, are the block, acknowledgement, error or option acknowledgement meant |
| `TftpDevice.Tftp.SendAck` | tftp.cpp:44-53 | the acknowledgement overwrites the first four bytes of the shared buffer, and these read as it |
| `TftpDevice.Tftp.GetFile` | tftp.cpp:140-147 | all counters are reset; unless a request is in progress or the name is over 20 bytes, the buffer holds a request of type 1 for the name, and it goes out |
| `TftpDevice.Tftp.PutFile` | tftp.cpp:165-170 | the same for writing, with type 2 |
| `TftpDevice.Tftp.StartRequest` | tftp.cpp:55-68 | request in progress or name too long: nothing is built; otherwise the packet, its size and the new state |
| `TftpDevice.Tftp.RecvData` | tftp.cpp:91-102 | the payload is copied; any block that is not full is the last |
| `TftpDevice.Tftp.RecvPacket` | tftp.cpp:113-138 | the globals change as the client transition says, packet type by packet type |
| `TftpClient.Unexpected` | tftp.cpp:122-136 | a packet that repeats the last number, or of a kind not waited for, changes the numbers alone and is not answered |
| `TftpDevice.Tftp.GetBlock` | tftp.cpp:149-163 | a new block reaches the caller before the acknowledgement overwrites it |
| `TftpDevice.Tftp.PutBlock` | tftp.cpp:172-186 | the block goes out once, only after the previous acknowledgement, and the bytes in the buffer read as that block with the next number |
| `SendFile.HoldMore` | c64iec.ino:369-396 | after every full block all bytes but the last are out without EOI and that byte waits in iobuf[0] |
| `SendFile.LastBlock` | c64iec.ino:369-391 | the final short or empty block completes the file, EOI with the last byte alone |
| `SendFile.EoiPlacement` | c64iec.ino:355-397 | for full blocks closed by one that is not full: every byte once, in order, EOI on the last and no other, if and only if there is a byte to send; an empty file sends the stale iobuf[0] |
| `SendFile.ErrorStops` | c64iec.ino:357-358 | a round fails exactly when it meets an error packet whose code is not the number of the last packet; then nothing more goes out |
| `SendFile.TooLong` | tftp.cpp:55-68 | with a name of over 20 characters no request goes out and send_file is done, its result true |
| `C64Iec.Sketch.SendFile` | c64iec.ino:345-400 | the nested loops do what the rounds of the protocol model do and never index past iobuf |
| `C64Iec.Sketch.SendBlock` | c64iec.ino:369-396 | the inner loop over one block is the delivery the lemmas are about |
| `TftpObject.Transfer.SendData` | tools/tftp.rb:169-191 | next block or the empty one, and the flags that decide what follows |
| `TftpObject.Transfer.Handle` | tools/tftp.rb:28-61 | one dispatch is one step of the server model |
| `TftpServer.CountsOn` | tools/tftp.rb:121-143 | the server counts on from the number acknowledged and acknowledges the number received, whatever came before |
| `TftpServer.GivesUp` | tools/tftp.rb:145-149 | it gives up exactly on an error, an option acknowledgement, or an acknowledgement or block before any request; a request starts over |
| `TftpObject.Transfer.Packets` | tools/tftp.rb:24-62 | the loop is the iteration of that step over what the waits bring, up to finish or timeout |
| `TftpRead.BlockSizes` | tools/tftp.rb:176-188 | which blocks are full, and that the blocks in order make up the file |
| `TftpReadSafety.ServerAnswers` | tools/tftp.rb:121-131 | an acknowledgement in step moves the server on by exactly one packet or ends the transfer |
| `TftpReadSafety.GotBlock` | tftp.cpp:149-163 | a data packet in turn is handed over whole and then acknowledged |
| `TftpReadSafety.CopyIgnored` | tftp.cpp:122-123 | a packet with the number just handled changes nothing and is not acknowledged |
| `TftpReadSafety.IgnoresCopy` | tftp.cpp:122-123 | a duplicated DATA or OACK is a stuttering step of send_file |
| `TftpReadSafety.TakesNext` | c64iec.ino:355-396 | the packet in turn is acknowledged and sent on; after 65535 blocks none ever is |
| `TftpReadSafety.GoodStep` | tools/tftp.rb:121-131 | the protocol invariant survives every step of device, server and network |
| `TftpReadSafety.ReadIsSafe` | c64iec.ino:345-400 | read transfer, end to end, over loss both ways and adjacent duplicates: what is on the bus is a prefix of the file without EOI, and when the device is done it is the whole file with EOI on the last byte; the transfer never fails, and every enabled event is allowed for |
| `TftpReadSafety.Lockstep` | tftp.cpp:120-129 | at most one request or acknowledgement under way, and never beside an unhandled packet of the server; towards the device only copies of the last packet sent, behind copies of the one before while the last is unhandled; server position min(256 n, size) after n blocks; the device has all blocks sent or all but one |
| `TftpReadSafety.AtMostOne` | tools/tftp.rb:121-131 | without duplication at most one packet is in flight, in either direction, in every reachable state, whatever is lost |
| `TftpReadCount.TurnStep` | tools/tftp.rb:121-131 | without loss each delivery brings the end one packet nearer, an idle round changes nothing |
| `TftpReadCount.ReadCount` | tools/tftp.rb:24-62 | without loss a read ends after exactly 3 + 2 (L / 256 + 1) packets for L bytes, with the whole file handed over, and can always go on before |
| `RecvFile.BlockAt` | c64iec.ino:409-425 | the bytes gathered since the last block are the next block of the input |
| `C64Iec.Sketch.RecvFile` | c64iec.ino:402-429 | the nested loops do what the session over their probes does: a probe before every byte and between offers, a block offered when it is complete; true exactly when every block is put |
| `RecvFile.SessionInOrder` | c64iec.ino:409-427 | between probes whole blocks are put and less than one more is read, or a complete block waits without clearance; done with true exactly when all blocks are put, with false only without an open request |
| `RecvFile.ErrorRefuses` | c64iec.ino:411-414 | a probe for a byte ends it with false exactly when no write is open or an error packet, whose code is not the number of the last packet, comes |
| `RecvFile.ErrorHangs` | c64iec.ino:416-417 | an error packet while a block waits is never looked at: whatever comes after, recv_file waits on |
| `RecvFile.SessionPlays` | c64iec.ino:402-429 | all it does to the client is to probe and to offer, and what it probes is what it met |
| `C64Iec.Sketch.PutFilled` | c64iec.ino:416-424 | a full last block is followed by an empty one |
| `TftpWrite.Stores` | tools/tftp.rb:133-143 | a block in turn is appended and acknowledged |
| `TftpWrite.Puts` | tftp.cpp:172-186 | the client puts block m + 1 exactly when it has heard reply m |
| `TftpWrite.GoodStep` | tools/tftp.rb:133-143 | the write invariant survives every step of device, server and network |
| `TftpWrite.WriteIsSafe` | c64iec.ino:402-429 | write transfer, end to end: written bytes are always a prefix and finally the whole input; finished is reached exactly when the last payload is under 252 bytes, since line 137 counts the header; every enabled event is allowed for |
| `TftpWrite.WriteCount` | tools/tftp.rb:133-143 | without loss a write goes through after exactly 3 (L / 256 + 1) + 2 moves for L bytes, and never strands before |
| `TftpParties.ReadIsRounds` | c64iec.ino:345-400 | the device's part of every read run is send_file over what its probes found: same globals, buffer and bytes on the bus, and what it sent is what left its channel, in order, and what is under way |
| `TftpParties.WriteIsPlayed` | c64iec.ino:402-429 | the device's part of every write run is a play of probes and offers, as `RecvFile.SessionPlays` shows recv_file to be one: same globals, blocks put and packets sent |
| `TftpParties.ReadIsServed` | tools/tftp.rb:24-62 | the server's part of every read run is the packet loop over what its waits brought, and every packet under way to the device is one it sent |
| `TftpParties.WriteIsServed` | tools/tftp.rb:24-62 | the same for every write run |
| `TftpParties.ServeFirst` | tools/tftp.rb:24-62 | a first packet and then the waits, as `TftpObject.Transfer.Packets` takes them, are the same loop |
| `Request.BuildRequest` | tftp.cpp:27-42 | name, mode and the block size option as NUL-terminated strings; 0 for names over 20 bytes |
| `Request.ReadOptions` | tools/tftp.rb:151-167 | the option map, later options over earlier ones, and where reading fails |
| `Request.RequestRoundTrip` | tools/tftp.rb:64-91 | the server reads back the type, the name put in and the one option blksize = 256; behind the name the bytes are octet, blksize and 256, each with a NUL |
| `Request.CstringIs` | tools/common.rb:28-30 | the string the server reads at a place: the bytes up to the next NUL or the end, and nothing where only NULs are left |
| `Request.MissingValue` | tools/tftp.rb:153-165 | a key that is no transfer mode and has nothing behind it makes reading fail |
| `Request.LaterWins` | tools/tftp.rb:163-163 | what the rest of the options says wins over what came before |
| `Request.TwoOptions` | tools/tftp.rb:151-167 | of two options both are read, the second over the first of the same name |
| `Request.ModeIsNoOption` | tools/tftp.rb:157-160 | netascii is taken as a mode, not as an option |
| `Request.NameFits` | c64iec.ino:59-95 | a C64 name fits exactly when it and two bytes for each character to be escaped make at most 18; letters, digits and the like always fit and travel as they are |
| `Request.NameTravels` | c64iec.ino:59-95 | of a request for a C64 name on device 8 to 15 the server makes device and name again |
| `FileName.KeptFront` | c64iec.ino:67-69 | which characters the right-to-left loop keeps: no padding, no trailing space |
| `FileName.MeaningIs` | c64iec.ino:62-69 | a name stands for at most 16 characters, none of them 0xA0, the last no space, and for itself exactly when it is so already |
| `FileName.EncodeLength` | c64iec.ino:71-82 | two bytes more for every byte other than digits, A to Z, space, -, _ and .; as it is exactly without such |
| `FileName.Escape` | c64iec.ino:77-81 | any other byte is % and its two hex digits, in lower case |
| `FileName.CreateTftpFilename` | c64iec.ino:59-95 | device digit, slash and the encoded name; the build from the right never leaves its 53 bytes |
| `FileName.DecodeEncode` | tools/device.rb:22-26 | percent decoding undoes the encoding of every byte string |
| `FileName.DecodeEscape` | tools/device.rb:23-25 | % and two hex digits, in either case, are the byte they spell |
| `FileName.DecodePlain` | tools/device.rb:23-25 | without a % nothing is decoded |
| `FileName.DecodeBroken` | tools/device.rb:23-25 | a % without two hex digits behind it stays |
| `FileName.NameRoundTrip` | tools/tftp.rb:65-72 | the server recovers the name (first 16 characters, unpadded, unspaced, less an overwrite prefix) and the device number, exactly for devices 8 to 15 |
| `FileName.SplitIs` | tools/tftp.rb:67-72 | only 8, 9 or a to f with a slash in front names a device; any other name is for device 8, whole |
| `FileName.OverwriteOnly` | tools/device.rb:22-26 | the overwrite removal changes a name exactly when a line of it starts with @, a digit and a colon |
| `FileName.OverwriteGone` | tools/device.rb:25-25 | a name behind @, a digit and a colon loses exactly these |
| `Checksum.FoldIsOcSum` | EtherCard/tcpip.cpp:80-81 | summing in 32 bits and folding at the end is one's complement addition of all words |
| `Checksum.FoldKeeps` | EtherCard/tcpip.cpp:80-81 | folding ends, keeps the sum modulo 65535 and tells zero from 65535 |
| `Checksum.Rfc1071Is` | EtherCard/tcpip.cpp:69-85 | the RFC's checksum without sums of words: it completes the number the bytes spell to a multiple of 65535, is 65535 for zeroes alone, and does not see a zero byte behind an odd last |
| `Checksum.VerifiesIs` | EtherCard/tcpip.cpp:69-85 | an area verifies when its RFC checksum, with that of the pseudo-header for UDP and TCP, is 0 |
| `Checksum.SumWords` | EtherCard/tcpip.cpp:73-79 | the sum of even and odd lengths up to 65535 bytes never leaves 32 bits |
| `Checksum.ChecksumIsRfc` | EtherCard/tcpip.cpp:69-85 | sum started with protocol and length equals the checksum of section 1 of RFC 1071 over pseudo-header and segment, exactly as long as protocol plus length fits 16 bits |
| `Checksum.DroppedCarry` | EtherCard/tcpip.cpp:71-72 | a datagram of 65519 bytes, whose checksum is not that of RFC 1071 |
| `Checksum.PlainIsRfc` | EtherCard/tcpip.cpp:69-85 | without a pseudo-header it always does |
| `Checksum.FilledVerifies` | EtherCard/tcpip.cpp:82-84 | stored over zeroes at an even place, the checksum makes the area verify |
| `Checksum.FillChecksum` | EtherCard/tcpip.cpp:69-85 | the function on the packet buffer: exactly two bytes change, to the complement of the folded sum |
| `TcpIp.FillIpHdrChecksum` | EtherCard/tcpip.cpp:115-122 | an IP header that verifies |
| `TcpIp.ChecksIs` | EtherCard/tcpip.cpp:115-122 | what the contracts below call checking, in terms of the RFC's checksum of the bytes |
| `TcpIp.UdpPrepare` | EtherCard/tcpip.cpp:317-334 | addresses, ports and a zeroed checksum field; multicast goes to all stations |
| `TcpIp.UdpTransmit` | EtherCard/tcpip.cpp:336-344 | both lengths set, IP header and UDP datagram with pseudo-header verify, payload untouched |
| `TcpIp.MakeEthIp` | EtherCard/tcpip.cpp:124-129 | addresses swapped, ours filled in, header verifies |
| `TcpIp.PatchVerifies` | EtherCard/tcpip.cpp:172-177 | the two-byte patch of an echo checksum verifies if and only if the old high byte is below 0xF8 or the old low byte is not 0xFF (compare section 3 of RFC 1624) |
| `TcpIp.LostPatch` | EtherCard/tcpip.cpp:172-177 | a request with checksum 0xF8FF, whose reply does not verify |
| `TcpIp.MakeEchoReply` | EtherCard/tcpip.cpp:172-179 | the reply's header always verifies, its message exactly under that condition |
| `TcpIp.SumIsRight` | EtherCard/tcpip.cpp:135-145 | the byte-wise sum with carry is addition modulo 2^32 exactly when the first addition stays in 16 bits |
| `TcpIp.LostIncrement` | EtherCard/tcpip.cpp:135-145 | sequence number 1 and increment 65535, whose sum comes out too small |
| `TcpIp.StepSeq` | EtherCard/tcpip.cpp:131-146 | acknowledgement = sequence + increment under that condition (every increment up to 65280), sequence = old acknowledgement or zero |
| `TcpIp.MakeTcphead` | EtherCard/tcpip.cpp:148-159 | ports swapped, numbers stepped, checksum field zeroed |
| `Hex.HexPair` | EtherCard/webutil.cpp:100-114 | two hex digits read back as the byte printed |
| `Hex.HexValues` | EtherCard/webutil.cpp:69-81 | the value of a digit, the same in either case, and 0 for other characters |
| `Url.UrlRoundTrip` | EtherCard/webutil.cpp:83-139 | decoding undoes encoding for every NUL-free string, and the encoding is at most three times as long |
| `Url.EncodedLength` | EtherCard/webutil.cpp:116-139 | the encoding is longer by two per escaped character, and is the string itself exactly for alphanumeric strings |
| `Url.EncodesOne` | EtherCard/webutil.cpp:121-137 | a space is +, letters and digits are themselves, any other byte is % and two digits |
| `Url.DecodesOne` | EtherCard/webutil.cpp:87-95 | + is a space, % and two characters the byte they spell, anything else itself |
| `Url.IntToHex` | EtherCard/webutil.cpp:100-114 | two digits and a NUL |
| `Url.UrlEncode` | EtherCard/webutil.cpp:116-139 | the loop writes exactly the encoding and its NUL |
| `Url.UrlDecode` | EtherCard/webutil.cpp:83-98 | decoding in place leaves what the decoder makes of the memory, a NUL, and the rest as it was |
| `Url.StaysInString` | EtherCard/webutil.cpp:85-96 | the decoder stops at the terminator if and only if every escape in the string is whole; then it decodes the string |
| `Url.CutEscape` | EtherCard/webutil.cpp:85-96 | the string % alone: decoding goes on behind its terminator, and out of the memory when nothing is there |
| `Url.WritesBehindReads` | EtherCard/webutil.cpp:85-96 | between turns what is written is the decoding of what was read and no longer than it, so the write position never passes the read position |
| `DnsMessage.LabelsJoin` | EtherCard/dns.cpp:25-36 | splitting a host name at its dots loses nothing |
| `DnsMessage.QNameReads` | EtherCard/dns.cpp:25-38 | the encoded name reads back by section 3.1 of RFC 1035 if and only if every label has 1 to 63 bytes |
| `DnsMessage.EmptyLabel` | EtherCard/dns.cpp:25-38 | the empty host name, whose label reads back as the root |
| `DnsMessage.QueryCarriesName` | EtherCard/dns.cpp:22-47 | the same for the name inside the query |
| `DnsMessage.QNameSize` | EtherCard/dns.cpp:25-38 | the encoded name is two bytes longer than the host name, exactly when no label reaches 256 bytes and wraps its length byte |
| `DnsMessage.LandsOnAnswers` | EtherCard/dns.cpp:60-60 | the length kept in the ID leads to the first answer exactly while the query is shorter than 256 bytes |
| `DnsMessage.ShortQuery` | EtherCard/dns.cpp:43-44 | host names up to 237 characters make such queries |
| `DnsMessage.LongQuery` | EtherCard/dns.cpp:43-44 | host names of 238 to 255 characters, whose query length wraps in its byte |
| `DnsMessage.QueryFields` | EtherCard/dns.cpp:20-48 | the fields around the name by section 4.1 of RFC 1035: recursion desired, one question, type A, class IN |
| `DnsMessage.FixedFields` | EtherCard/dns.cpp:75-75 | a record's type, class, time to live and data length as section 4.1.3 lays them out |
| `DnsMessage.FirstAddressIs` | EtherCard/dns.cpp:75-76 | which record the scan is to find: the first whose type is 1 modulo 256 and that holds four bytes |
| `DnsMessage.OwnerSkipped` | EtherCard/dns.cpp:62-70 | the scan passes a pointer or a plain nonempty owner name |
| `DnsMessage.OwnerEnds` | EtherCard/dns.cpp:62-70 | where the scan takes any owner to end: two bytes from 64 on, else behind the next NUL, else at the end of the packet |
| `DnsMessage.ScanFinds` | EtherCard/dns.cpp:61-78 | over any list of such records the loop ends and finds the first with TYPE low byte 1 and four bytes of data, or nothing |
| `DnsMessage.AnswerFound` | EtherCard/dns.cpp:60-78 | the same from the start of a reply |
| `Dns.ReplyAnswers` | EtherCard/dns.cpp:51-79 | such a reply to our port passes the guard, and its first address is the one taken |
| `Dns.ReplyNames` | EtherCard/dns.cpp:55-55 | a reply carries the ID of the request it answers |
| `Dns.Client.DnsRequest` | EtherCard/dns.cpp:15-49 | the query lies in a datagram from us to port 53 of the name server, field by field, whose headers and checksums verify |
| `Dns.Client.PutLabel` | EtherCard/dns.cpp:26-35 | one label and its length byte; of a label of 256 bytes or more the last ones stay, as the byte index wraps |
| `Dns.Client.CheckForDnsAnswer` | EtherCard/dns.cpp:51-79 | the address changes only to what the scan finds, and only for a packet from port 53 (low byte) to the port of the last request, with its ID and response code 0; the reply to any other request leaves it alone |
| `D64Disk.FirstBlockIs` | tools/device.rb:243-243 | how many blocks lie before each track |
| `D64Disk.BlockBijection` | tools/device.rb:385-392 | valid track and sector pairs of the 35-track layout correspond one to one to blocks 0 to 682 |
| `D64Disk.StandardImage` | tools/device.rb:380-383 | in an image of 174848 bytes exactly the places up to block 682 can be read whole |
| `D64Disk.SectorLies` | tools/device.rb:380-392 | a sector is the 256 bytes of the image behind all blocks before it, as far as it goes, and a directory slot one of its eight parts of 32 bytes |
| `D64Disk.Acyclic` | tools/device.rb:367-377 | a path along the links visits each block once |
| `D64Disk.PathUnique` | tools/device.rb:367-377 | there is at most one path from a place |
| `D64Disk.PathFits` | tools/device.rb:367-377 | so it is no longer than the image has links |
| `D64Disk.PathExists` | tools/device.rb:367-377 | whether following the links comes to an end is decided by following as many as the image has, and one more |
| `D64Disk.StoredReads` | tools/device.rb:363-378 | a file stored in linked sectors, 254 bytes each and the rest in the last, reads back as that file |
| `D64Disk.SlotsInOrder` | tools/device.rb:309-319 | the slots of a directory are the eight of each sector in chain order |
| `D64Disk.PrgsAt` | tools/device.rb:310-310 | every PRG slot is found, in its place among the others |
| `D64Disk.PrgsFrom` | tools/device.rb:310-310 | nothing else is found |
| `DeviceD64.Disk.Block` | tools/device.rb:385-392 | the countdown computes the block; a track beyond the table fails |
| `DeviceD64.Disk.ReadBlock` | tools/device.rb:380-383 | a whole block, a short one at the end of the image, or nothing behind it |
| `DeviceD64.Disk.ReadData` | tools/device.rb:363-378 | the payloads in order, of a last block cut short by the end of the image what is there; failure exactly where the links lead to a place without one |
| `DeviceD64.Disk.CollectDirectoryEntries` | tools/device.rb:303-321 | exactly the PRG slots along the path, in order; failure exactly where a block is too short for the type of each slot |

## Left out

- Pool exhaustion: `allocBlock` answers 0 and `put` and `create` do not check; enough free pages are a precondition. `BlockMap.AllocBlock` models the 0.
- StashMachine.ReleaseRefines: `release` of a chain whose links have not been flushed to RAM follows stale links; the discipline asks for the write slot to be elsewhere, as `cleanup` arranges with `load(0, 0)`.
- In `StashMachine` a release follows at most 56 links; a live chain has at most 55.
- StashModel.GetStep: reading a stash before `save` is outside the discipline, since its first page may be stale in the read slot.
- TemplateRun.Prepare: at most 30 arguments, the words that page 0 holds; more would run past the page. Formats end in no half directive, and every argument points at something of its kind.
- TftpReadSafety.ReadIsSafe: reads of nonempty files. For an empty file `SendFile.EoiPlacement` says what goes out.
- TftpWrite.WriteIsSafe: duplicates towards the server are not admitted; the server stores a duplicated block twice.
- Malformed packets, a missing file on the server (`send_err`) and the netascii mode.
- Retransmission: neither side has any; a lost packet ends in the server giving up after five seconds.
- The server process that accepts requests and starts a transfer object for each, sockets and timeouts: a wait either yields a packet or gives up.
- A transfer object that is done takes no further notice of packets. In the program the port is bound again and a late packet starts a fresh object, whose handling of an ACK or DATA fails because it has opened no device; neither answers.
- FileName.NameRoundTrip: names with line ends reach the server escaped, so the split at line starts is modelled for names without them.
- The write path's directory device: what it does with the file beyond appending bytes, and the PC64 header.
- Url.UrlDecode: memory in which the decoder meets no NUL between turns; the code would read on behind the buffer.
- DnsMessage.ScanFinds: owner names that are the root, or that end in a pointer after labels, are excluded; the scan does not follow them.
- DeviceD64.Disk.ReadData: links that go round in a circle, on which `read_data` does not end; the methods take the path as a ghost parameter.
- Rule of RFC 768 that a zero checksum is sent as all ones: the code does not have it, nor does the model.
- Directory text, file lookup by name and other device types of tools/device.rb.
- SPI transfers, Ethernet controller registers, packet reception, IEC line timing and ATN: `put_byte` appends to a log, `get_byte` reads a given stream.
- EtherCard/dhcp.cpp, ARP state, the TCP branches of `packetLoop`, NTP, wake-on-LAN, `BufferFiller`, `findKeyVal`, `parseIp`, `printIp`: mostly field filling, with easy properties.
