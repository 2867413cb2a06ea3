# A verified model of the real-time logger's data path

The logger renders printf-style messages straight into a 1024-byte ring in RAM. A timer interrupt
takes packets of at most 256 bytes from the ring and hands them to one destination: a socket, the
UART, or a ring of flash sectors that is erased sector by sector ahead of the write pointer and that
survives resets through a few words of NVR. On request, a slice of the flash log is sent back out in
chunks. This project models that path -- number printing, the cyclic formatter, the overrun rule, the
tick, the flash manager with start-up and crash recovery, the flash callback, the dump -- and proves
what it promises over all inputs and all runs.

Sizes are those of `LogManager/ext/Logger_Config.h`; the number `n` of flash sectors is any number the
code can pass around (2 to 255). `char` is taken as unsigned. Integer widths are written out where the
code depends on them: the 8-bit budget behind the wrap, the 16-bit sector usage of a 32-bit
difference, the truncating decimal division, the arithmetic shift of hexadecimal printing.

## How it is built

| file | content |
|---|---|
| `Config.dfy`, `Sequences.dfy`, `Cyclic.dfy` | constants and C integer types, sequence laws, cyclic windows and writes |
| `Itoa.dfy` | `mini_itoa` in place over an array, and what its text reads back as |
| `Format.dfy` | `Render`: the text of a message; `Emit`: the bytes that reach the ring, with everything the tail of the ring disturbs |
| `Directives.dfy` | what each directive prints, and what the tail of the ring does to it, told from the format alone |
| `RamRing.dfy` | class `RxBuffer`: the writers, in place; `AfterMessage`: the effect of one message on the ring |
| `RingLaws.dfy` | `Slide`: the bounded sliding window the ring refines |
| `FlashGeometry.dfy` | address macros, page shaping, requested sizes |
| `FlashLog.dfy` | flash cells, one send, start-up, and the invariant `Inv` that ties pointers and cells to a history |
| `FlashLaws.dfy`, `FlashRuns.dfy` | one send keeps the invariant; recovery; every run |
| `FlashSteps.dfy` | one start-up and one accepted packet, in addresses and bytes |
| `FlashHarm.dfy` | what harm to the log means, judged by the sends that follow |
| `FlashDamage.dfy`, `FlashClearing.dfy` | which restarts, interrupted sends, answers of the device, erase requests and switches the log survives |
| `FlashManager.dfy` | class `Manager`: the flash manager in place |
| `FlashDriver.dfy`, `ShippedRuns.dfy` | the flash write callback, and every run through it |
| `Dump.dfy`, `DumpSession.dfy` | the slice a dump sends, and a dump while logging goes on |
| `Destinations.dfy` | class `Destination`: who a dump is sent to, with its own record |
| `Logger.dfy` | the whole logger as a value, and class `LoggerManager` in place |
| `LoggerLaws.dfy`, `LoggerRuns.dfy`, `Backlog.dfy` | packets, runs, end-to-end conservation, how fast a backlog drains and when it does not |
| `StallRun.dfy` | a run from a first start into a stall |
| `Lifetime.dfy` | messages, ticks, dumps and power failures in one run, with an account of every byte |
| `Findings.dfy` | concrete inputs on which the code departs from its intent |

Every method that updates state is proved equal to a function of the old state; the laws are proved
about those functions. The flash cell type has three values -- erased, programmed, garbled -- and
programming a cell twice garbles it, so that writing without erasing shows. Callbacks are inputs of a
step: their answers are arbitrary unless a law names a condition on them.

## What the code does not do

Each of these is an exact condition (an if-and-only-if lemma, or a lemma for every state of the
failing family), with a concrete input in `Findings.dfy` where the list says so.

- The tail of the ring: `%c`, unknown escapes, `%r` and `%b` are not wrapped. `%c` or an escape that
  ends on the last cell leaves the write pointer outside the ring, an escape with one cell left is
  dropped, a split `%r` may gain a blank, a split `%r` or `%b` ends the message
  (`Format.EmitRefinesRender`, `Findings.CharOnLastCell`).
- An overrun that leaves the write pointer on the last cell puts the read pointer on the tail, where
  ticks read nothing; the next message that puts anything out writes its overrun mark one byte past the
  ring (`RingLaws.UsableAfterMessageIff`, `RingLaws.ReaderOnTailMarksOutside`,
  `Findings.OverrunOntoLastCell`). A write pointer on the tail drops every later message, and the ring
  never looks empty again (`LoggerLaws.WriterOnTailStays`, `RingLaws.WriterOnTailNeverEmpty`).
- 256 bytes put out into exactly 256 free cells make the full ring look empty, without a mark; in every
  other case the overrun test is exact (`RingLaws.OverrunTestExactIff`). A message within the limit gets
  there: 255 rendered bytes with a split `%r` become 256 (`Findings.FullRingLooksEmpty`).
- A ring that is out of step with the flash pages can stall: with a page or more pending, quiet ticks take
  nothing exactly when the bytes before the tail of the ring do not reach the next page of the flash
  (`Backlog.StallIff`), and that lasts through all messages and ticks until a message makes a tick urgent
  (`Backlog.StallLasts`, `Findings.StalledBeforeTail`). The step is kept over every run without overruns
  (`Backlog.EveryRunKeepsInStep`); a message loses it exactly when it reaches the reader, a restart
  exactly when the saved write pointer is inside a page, and a packet thrown away exactly when it is not a
  whole page (`Backlog.MessageKeepsInStepIff`, `Backlog.RestartInStepIff`, `Backlog.DiscardKeepsInStepIff`).
  A restart behind an urgent part of a page leads into a stall (`StallRun.StallAfterRestart`).
- A negative decimal loses its last digit (`Itoa.DecimalFaithfulIff`, `Findings.MinusFive`). Negating
  the most negative int is undefined in C; the model lets it wrap to itself.
- A request that reaches back over the wrap of the flash, but is not for the whole log, is answered
  with the oldest bytes (`Dump.StartAddressNewestIff`, `Findings.WrappedKilobyteIsOldest`). The comments
  in `LogManager/src/Logger_Func.c:394-404` describe the two branches the other way round; the model
  follows the code.
- A restart with the next sector already erased is harmless if and only if there is room in the current
  sector: for a maximal packet, or, in the last sector of the area, where packets are cut at the end, for
  one byte. Harmless means that the log stays intact through all sends that follow; otherwise one urgent
  page is enough to show the damage (`FlashDamage.RestartHarmlessIff`, `FlashRuns.RestartRecoversIff`,
  `FlashDamage.CrashAtSectorBoundaryLosesPacket`).
- Power lost inside a send, before the pointers are saved, is harmless if and only if nothing of the packet
  was programmed and the saved pointers show the room a restart needs; otherwise the log is spoilt at once,
  or by the next packets (`FlashDamage.InterruptedSendHarmlessIff`, `FlashDamage.InterruptedCellsErasedIff`,
  `FlashDamage.InterruptedEraseSpoilsIff`).
- A device may refuse a packet as a whole at any time. Behind an accepted packet it may refuse the erase
  while there is room for another packet in the current sector, and may still be erasing while there is
  room for two more in the next sector, in both cases up to the cut at the end of the area. Exactly these
  answers are harmless (`FlashDamage.SendHarmlessIff`).
- Switching on is harmless if and only if the write pointer is at the start of a sector. Anywhere else the
  log starts inside a sector, its read pointer is never moved again, and the sends that follow erase its
  oldest bytes (`FlashClearing.SwitchOnHarmlessIff`, `FlashClearing.EraseAheadSpoils`,
  `Findings.SwitchedOnInsideSector`).
- A requested erase is not saved to the NVR. The next start-up finds an empty log if and only if the
  pointers saved earlier are blank, invalid, or those of an empty log with the flag down; otherwise it
  brings back a log of erased cells. The first accepted packet makes the erase stick
  (`FlashClearing.RequestedEraseSticksIff`, `FlashClearing.RequestedEraseForgotten`,
  `FlashClearing.FirstPacketMakesEraseStick`).
- A flash write that fails after some bytes takes those bytes from the ring although the write pointer
  stays, and the next packet is programmed over them (`LoggerLaws.RefusedWriteKeepsRingIff`,
  `LoggerLaws.NextPacketErasedIff`).
- The flash callback writes the second half of a packet that crosses a page to the address of the first
  half, so a packet the device takes is stored if and only if it does not cross a page
  (`FlashDriver.CallbackStoresPacketIff`, `ShippedRuns.ShippedSendIntactIff`, `Findings.TwoBytesAcrossPage`).
  Only urgent packets cross pages. With the shipped callback the flash laws hold for every run in which no
  packet crosses a page and the device takes a write as a whole or not at all
  (`ShippedRuns.EveryShippedRunKeepsTheLog`).
- With socket and UART both switched on, a packet only one of them takes is repeated or lost
  (`LoggerLaws.TwoSinksConserveIff`). With flash and UART, what the flash took while the UART was busy is
  stored again (`LoggerLaws.FlashBesideUartConservesIff`).
- A logger in flash or socket mode that is not ready throws packets away
  (`LoggerLaws.NotReadyDiscards`).

## Model

| member | source | states |
|---|---|---|
| Itoa.MiniItoa | LogManager/src/Logger_Utils.c:51-110 | the buffer holds the printed text, for every int, radix and maximum length; the counting and digit loops are proved against digit functions |
| Itoa.HexRoundTrip | LogManager/src/Logger_Utils.c:80-101 | hexadecimal output of every int reads back as its unsigned 32-bit value, padded to two digits and never further |
| Itoa.DecRoundTrip | LogManager/src/Logger_Utils.c:59-79 | decimal output of a non-negative int reads back as that int, without leading zeros |
| Itoa.NegativeLosesLastDigit | LogManager/src/Logger_Utils.c:63-78 | decimal output of a negative int reads back as minus a tenth of its magnitude |
| Itoa.DecimalFaithfulIff | LogManager/src/Logger_Utils.c:59-79 | decimal output denotes the number exactly when it is not negative |
| Itoa.DecimalOfAnyLength | LogManager/src/Logger_Utils.c:59-79 | for any maximum length, a positive number is printed whole or as its low-order digits |
| Itoa.HexadecimalOfAnyLength | LogManager/src/Logger_Utils.c:80-101 | likewise for the unsigned value in hexadecimal, in two digits at least if they fit |
| Itoa.NegativeOfAnyLength | LogManager/src/Logger_Utils.c:63-78 | a negative number is printed as the sign and a tenth of it, as many digits as fit |
| Itoa.PlainTexts | LogManager/src/Logger_Utils.c:54-108 | no room prints nothing; zero in decimal and an unsupported radix print a zero |
| RamRing.RxBuffer.constructor | LogManager/src/Logger_Func.c:45-64 | a new receive buffer is the empty ring |
| RamRing.RxBuffer.ParseAndWriteString | LogManager/src/Logger_Utils.c:189-254 | the text up to the delimiter follows what was written, across the tail, and the two budgets still add up to what is left of the message |
| RamRing.RxBuffer.ParseAndWriteNumber | LogManager/src/Logger_Utils.c:130-169 | the digits follow what was written, split over the tail where needed |
| RamRing.RxBuffer.ParseAndWriteRawData | LogManager/src/Logger_Utils.c:273-332 | hex pairs follow what was written; a dump that reaches the tail fills an odd cell and uses up the budget |
| RamRing.RxBuffer.ParseAndWriteBinBuff | LogManager/src/Logger_Utils.c:351-394 | the buffer follows what was written; a split one uses up the budget |
| RamRing.RxBuffer.DateAndTimeWrite2digits | LogManager/src/Logger_Utils.c:413-436 | two digits and a separator follow what was written |
| RamRing.RxBuffer.WriteTimeAndDate | LogManager/src/Logger_Utils.c:452-470 | the 18 characters of date and time follow what was written |
| RamRing.RxBuffer.WriteDirective | LogManager/src/Logger_Utils.c:523-572 | every directive puts out what `Emit` says for its piece, and leaves the budget used up exactly when the piece ends the message |
| RamRing.RxBuffer.WriteMessage | LogManager/src/Logger_Utils.c:516-574 | the parser loop stores the emission of the whole format, no other cell changes, and the pointer stands behind it |
| RamRing.RxBuffer.CheckOverrun | LogManager/src/Logger_Utils.c:580-600 | marks the old read position and moves the reader when free space grew in low memory, and does nothing otherwise |
| RamRing.RxBuffer.ParseAndWriteRxMessage | LogManager/src/Logger_Utils.c:488-603 | for every format and matching arguments rendering to at most 255 bytes: the new ring is `AfterMessage` of the emission and the result is the emitted length; with the write pointer on the tail nothing is written |
| Directives.PrintsLiteral | LogManager/src/Logger_Utils.c:516-522 | text without a directive, also in front of a last percent sign, is printed as it is |
| Directives.PrintsDecimal | LogManager/src/Logger_Utils.c:529-533 | `%d` and `%i` between any text and any rest: a decimal reader finds the number, or a tenth of a negative one |
| Directives.PrintsHexadecimal | LogManager/src/Logger_Utils.c:535-539 | `%x` and `%p`: a hexadecimal reader finds the unsigned value |
| Directives.PrintsString | LogManager/src/Logger_Utils.c:524-527 | `%s`: the bytes of the string |
| Directives.PrintsChar | LogManager/src/Logger_Utils.c:541-545 | `%c`: the low byte of the argument |
| Directives.PrintsRaw | LogManager/src/Logger_Utils.c:547-551 | `%r`: two hexadecimal digits for each byte, which read back as it |
| Directives.PrintsBinary | LogManager/src/Logger_Utils.c:553-557 | `%b`: the bytes of the buffer, at most 256 |
| Directives.PrintsClock | LogManager/src/Logger_Utils.c:559-561 | `%T`: the eighteen characters by position |
| Directives.PrintsUnknown | LogManager/src/Logger_Utils.c:563-571 | any other character is printed with its percent sign and takes no argument |
| Directives.CharOnTail | LogManager/src/Logger_Utils.c:541-545 | `%c` on the last cell ends the message and leaves the write pointer on the tail |
| Directives.EscapeOnTail | LogManager/src/Logger_Utils.c:563-571 | an unknown escape on the last two cells does the same |
| Directives.EscapeDropped | LogManager/src/Logger_Utils.c:563-571 | with one cell left the message is written as if the escape were not there |
| Directives.RawAcrossTail | LogManager/src/Logger_Utils.c:273-332 | `%r` that reaches the tail: a blank fills an odd cell, and the rest of the message is lost |
| Directives.BinaryAcrossTail | LogManager/src/Logger_Utils.c:351-394 | `%b` that reaches the tail is written across it, and the rest of the message is lost |
| Format.EmitRefinesRender | LogManager/src/Logger_Utils.c:516-574 | the cyclic writer puts out the linear rendering exactly when no piece is disturbed by the tail of the ring |
| Format.EmitAtTail | LogManager/src/Logger_Utils.c:541-571 | the write pointer is left outside the ring only by filling the last cell |
| Format.SafeMessages | LogManager/src/Logger_Utils.c:516-574 | messages that end before the tail, and messages of literals, `%s`, `%d`, `%i`, `%x`, `%p` and `%T` only, are never disturbed |
| RingLaws.OverrunTestExactIff | LogManager/src/Logger_Utils.c:499-501 | low memory and more free space after the message means that the message reached the reader, for every length up to 256 but one case |
| RingLaws.UsableAfterMessageIff | LogManager/src/Logger_Utils.c:578-600 | both pointers are inside the ring after a message exactly when it did not end on the tail and no overrun ended on the last cell |
| RingLaws.OverrunMarksReader | LogManager/src/Logger_Utils.c:589-596 | an overrun leaves a caret at the old read position and the reader one cell behind the writer |
| RingLaws.ReaderOnTailStalls | LogManager/src/Logger_Utils.c:595 | a reader put on the tail by an overrun reads nothing |
| RingLaws.ReaderOnTailMarksOutside | LogManager/src/Logger_Utils.c:588-596 | the next message that puts anything out strikes the overrun test: the mark goes to the first byte past the ring, and the reader comes back into the ring, or moves on past it together with the writer |
| RingLaws.WriterOnTailNeverEmpty | LogManager/src/Logger_Utils.c:960-984 | with the writer on the tail the reader goes round for ever: there is always something to read |
| RingLaws.MessageSlides | LogManager/src/Logger_Utils.c:488-603 | with or without an overrun the pending bytes become the sliding window of pending bytes and message, with the mark at the old read position |
| RingLaws.RenderedMessageSlides | LogManager/src/Logger_Utils.c:488-603 | an undisturbed message slides the window by its rendering |
| RingLaws.AdvanceDropsFront | LogManager/src/Logger_Utils.c:857-864 | a packet is the oldest pending bytes, and advancing the reader drops exactly those, through the wrap |
| FlashGeometry.ShapingIsOptimal | LogManager/src/Logger_Utils.c:656-697 | a shaped packet fits, never passes the end, and when not urgent is the longest prefix that ends on a page boundary; an urgent one is cut by the end only |
| FlashGeometry.OnlyUrgentPacketsCrossPages | LogManager/ext/Logger_WeRCallbacks.c:73-85 | the callback's split branch is reached only by urgent packets away from the end |
| FlashGeometry.RequestedSize | LogManager/inc/Logger_Defs.h:47-48 | a request never asks for more than the live log, is less than 1 KB above the ideal size, and the whole-log request is the live size |
| FlashGeometry.RequestedSizeExact | LogManager/inc/Logger_Defs.h:47-48 | when a request is served with the whole log, and else with exactly its kilobytes |
| FlashGeometry.ValidatedFlashSizeIsSectors | LogManager/src/Logger_Func.c:1111-1135 | a configured size of two, three or four whole sectors is kept, a smaller one raised to two, anything else set to four |
| FlashManager.Manager.EraseNextSector | LogManager/src/Logger_Utils.c:620-637 | the sector is erased and the read pointer leaves it; a refused erase changes nothing |
| FlashManager.Manager.Prepare | LogManager/src/Logger_Utils.c:732-755 | erases ahead at the threshold, or moves on to the next sector |
| FlashManager.Manager.SendPacketFlash | LogManager/src/Logger_Utils.c:714-784 | the new device, pointers and NVR are those of `SendFlash`, for every answer of the platform |
| FlashManager.Manager.EraseSectors | LogManager/src/Logger_Func.c:118-136 | start-up erase: the sectors are erased and the flag is down, or nothing happens |
| FlashManager.Manager.FlashMngInitDefault | LogManager/src/Logger_Func.c:184-201 | pointers at the start, all sectors erased |
| FlashManager.Manager.FlashMngInitFromDB | LogManager/src/Logger_Func.c:218-256 | saved pointers are checked, the next sector is erased again if it was, the read pointer leaves it |
| FlashManager.Manager.Init | LogManager/src/Logger_Func.c:272-309 | start-up from the NVR, or from scratch when it is blank or an erase is requested |
| FlashManager.Manager.SwitchFlashOn | LogManager/src/Logger_Func.c:608-618 | the log is dropped by moving the read pointer to the write pointer |
| FlashLaws.UsageTestsExact | LogManager/src/Logger_Utils.c:732-752 | in every reachable state the 16-bit usage tests say how far the stream has come in the current sector, also behind the wrap where the subtraction underflows |
| FlashLaws.WrappedUsage | LogManager/src/Logger_Utils.c:732 | behind the wrap the truncated usage is 65536 - 64 n KB plus what is used, which is at least a sector |
| FlashLaws.SendKeepsInv | LogManager/src/Logger_Utils.c:714-784 | one send, accepted, refused as a whole or held back, programs erased cells only, appends to the stream exactly what it takes, saves the pointers, and keeps the invariant |
| FlashSteps.SectorsBehindPacket | LogManager/src/Logger_Utils.c:732-772 | behind an accepted packet: the flag, the sector pointer, the read pointer and the saved words, told from how far the stream had come |
| FlashSteps.CellsBehindPacket | LogManager/src/Logger_Utils.c:714-784 | behind an accepted packet, every cell of the device: the packet, the sector erased ahead, and nothing else |
| FlashLaws.RefusedSend | LogManager/src/Logger_Utils.c:719-729 | a refused or held-back packet changes nothing |
| FlashRuns.DefaultInitEstablishesInv | LogManager/src/Logger_Func.c:184-201 | default initialisation establishes the invariant of an empty log |
| FlashRuns.StartFromScratch | LogManager/src/Logger_Func.c:218-309 | a requested erase, a blank NVR and saved pointers outside the area all start an empty log, and start-up reports the outcome of the erase |
| FlashSteps.StartsOverWhen | LogManager/src/Logger_Func.c:153-201 | a requested erase, or any saved word below the area or above its end, starts an empty log over a device erased as a whole; a failed erase is reported and changes neither device nor saved words |
| FlashSteps.SavedWordsTakenOverIff | LogManager/src/Logger_Func.c:153-309 | without a request and with the flag down the saved words are taken over, and nothing else changes, exactly when all three lie inside |
| FlashSteps.FlagUpStartUp | LogManager/src/Logger_Func.c:227-256 | with the flag up, for every outcome of the erase and the save: what is erased, where the read pointer goes, what is saved, what is reported |
| FlashRuns.RestartRecoversIff | LogManager/src/Logger_Func.c:218-309 | a restart re-establishes the invariant for the same history exactly when the flag was down or there was room for another packet (any byte, in the last sector); pointers and cells are then unchanged |
| FlashRuns.RestartKeepsLogIff | LogManager/src/Logger_Func.c:227-254 | a restart leaves every cell alone exactly when the flag was down or nothing was written behind the start of the next sector |
| FlashDamage.RestartHarmlessIff | LogManager/src/Logger_Func.c:218-309 | the log stays the newest part of what was written through all sends after a restart, exactly when the saved flag was down or there was room for another packet; otherwise some sends leave an erased cell in the log |
| FlashHarm.PacketErasedAfterWrite | LogManager/src/Logger_Utils.c:732-745 | with the flag down, a packet that ends in the next sector loses its end to the erase behind it |
| FlashDamage.CrashAtSectorBoundaryLosesPacket | LogManager/src/Logger_Func.c:227-254 | after a crash exactly on a sector boundary every cell survives, and the end of the next accepted packet is erased again |
| FlashDamage.InterruptedSendHarmlessIff | LogManager/src/Logger_Utils.c:729-772 | power lost inside a send: through all sends after the restart the log stays the newest part of what was written exactly when nothing was programmed and the saved pointers show room; otherwise some sends spoil it |
| FlashDamage.InterruptedCellsErasedIff | LogManager/src/Logger_Utils.c:729-772 | the cells of the next packet alone are erased exactly when nothing was programmed, or the restart erases the sector the write pointer is in |
| FlashDamage.InterruptedEraseSpoilsIff | LogManager/src/Logger_Utils.c:736-772 | power lost after erasing ahead: the restarted log is spoilt at once exactly when it began with the sector that was erased, and by the next packet otherwise |
| FlashDamage.SendHarmlessIff | LogManager/src/Logger_Utils.c:714-784 | an answer of the device leaves a log that survives all sends that follow exactly when the packet was refused as a whole, or the erase behind it was accepted, finished, or can still come in time; any other answer lets some sends spoil the log |
| FlashRuns.LogIsSuffix | LogManager/src/Logger_Utils.c:630-634 | the cells between read and write pointer hold the newest bytes of the stream, at least (n-2) sectors and 50 KB or all of it, always less than the area; equal pointers mean empty |
| FlashRuns.SectorPointerFollows | LogManager/src/Logger_Utils.c:748-768 | the sector pointer advances once per sector around the ring, and is late by less than a sector and only with the flag up |
| FlashRuns.PromptEraseKeepsPrompt | LogManager/src/Logger_Utils.c:748-768 | it is at most one packet late when no erase is still running behind the end of the sector |
| FlashRuns.SwitchOnKeeps | LogManager/src/Logger_Func.c:608-611 | at the start of a sector switching on leaves an empty log of the same stream |
| FlashClearing.SwitchOnHarmlessIff | LogManager/src/Logger_Func.c:608-611 | through all sends that follow, the log stays the newest part of what was written exactly when the write pointer was at the start of a sector; from anywhere else some sends leave an erased cell in it |
| FlashClearing.EraseAheadSpoils | LogManager/src/Logger_Utils.c:620-637 | erasing the sector that the log starts inside of erases the oldest log byte and leaves the read pointer there |
| FlashClearing.MisalignedReadPointerStays | LogManager/src/Logger_Utils.c:630-634 | a read pointer inside a sector is never moved by a send |
| FlashClearing.RequestedEraseSticksIff | LogManager/src/Logger_Func.c:279-291 | for any saved pointers: after a requested erase and one more start-up the log is empty exactly when they are blank, invalid, or meet after the move of the read pointer |
| FlashClearing.RequestedEraseForgotten | LogManager/src/Logger_Func.c:227-291 | in every state a run can save that is the empty log with the flag down; otherwise a log of erased cells comes back |
| FlashClearing.FirstPacketMakesEraseStick | LogManager/src/Logger_Utils.c:756-772 | after the first accepted packet a start-up finds exactly that packet |
| FlashRuns.StepKeepsGood | LogManager/src/Logger_Func.c:272-309 | sends, restarts and switching on keep RAM and saved pointers in agreement with the same history |
| FlashRuns.EveryRunKeepsTheLog | LogManager/src/Logger_Utils.c:714-784 | over every run from a first start, with refused writes, slow erases, crashes and switching on: every byte is programmed on an erased cell, the log is the newest part of everything accepted, and it holds what was accepted since the last switch or the guaranteed length of it |
| FlashDriver.SendFlashDataCb | LogManager/ext/Logger_WeRCallbacks.c:64-96 | the callback's two writes, their address, the status and the reported length |
| FlashDriver.CallbackKeepsContract | LogManager/ext/Logger_WeRCallbacks.c:87-95 | away from page boundaries it programs a prefix at the address, reports its length, and succeeds only with the whole packet |
| FlashDriver.CallbackStoresPacketIff | LogManager/ext/Logger_WeRCallbacks.c:73-87 | an accepted packet is stored as a whole exactly when it does not cross a page |
| FlashDriver.AcrossPageCells | LogManager/ext/Logger_WeRCallbacks.c:73-96 | a packet across a page, cell by cell, with the status and the length reported, for every amount the device takes in the two writes |
| FlashDriver.AcrossPageAccepted | LogManager/ext/Logger_WeRCallbacks.c:73-96 | on a device that takes everything: the overlap is garbled, the longer part stands alone, the end stays erased |
| FlashDriver.QuietPacketsKeepContract | LogManager/src/Logger_Utils.c:672-693 | every packet shaped without urgency is stored by the callback as the logger assumes |
| ShippedRuns.ShippedSendIntactIff | LogManager/ext/Logger_WeRCallbacks.c:64-96 | a packet that the device takes as a whole leaves an intact log exactly when it does not cross a page |
| ShippedRuns.EveryShippedRunKeepsTheLog | LogManager/ext/Logger_WeRCallbacks.c:64-96 | every run through the shipped callback, with no packet across a page and a device that takes all or nothing, keeps the log as in `EveryRunKeepsTheLog` |
| Dump.StartAddressNewestIff | LogManager/src/Logger_Func.c:328-409 | the start address is that of the newest bytes exactly in three cases, and the oldest byte in the remaining one |
| Dump.BeginOnTrack | LogManager/src/Logger_Func.c:1174-1219 | a dump starts at the first byte of its slice |
| Dump.ChunkIsNext | LogManager/src/Logger_Func.c:1228-1235 | every chunk is positive, stays inside the area, and is the next part of the slice, made of live cells only |
| Dump.ChunkKeepsOnTrack | LogManager/src/Logger_Func.c:1245-1268 | an accepted chunk moves on by its length, through the wrap; a busy destination changes nothing |
| Dump.ChunkCounts | LogManager/src/Logger_Func.c:1228-1268 | a dump takes pages up to the end of the area and pages behind it, one less with every accepted chunk |
| Logger.LoggerManager.Printf | LogManager/src/Logger_Utils.c:913-938 | one message into the ring; a critical one raises the urgent flag; with the writer on the tail the message is dropped |
| Logger.LoggerManager.SendPacketTo | LogManager/src/Logger_Utils.c:808-872 | one packet to the destination and the UART, for every combination of answers, and what leaves the ring |
| Logger.LoggerManager.SendPacketFromInt | LogManager/src/Logger_Utils.c:960-989 | the tick, also with the writer on the tail: one packet, a second one away from the flash, flags down; no packet is empty |
| Logger.LoggerManager.SendChunks | LogManager/src/Logger_Func.c:1224-1271 | the chunk loop terminates; the record of the destination grows by the slice, or by a beginning of it; it succeeds exactly when the destination accepts every chunk before it fails; a chunk answered busy is offered again; no chunk is empty or longer than a page |
| Logger.LoggerManager.SendDebugLog | LogManager/src/Logger_Func.c:1161-1284 | the destination has received exactly the slice of the request exactly when the logger was ready, there was something to send, and every chunk was accepted before a failure; a beginning of it otherwise |
| Destinations.Destination.Offer | LogManager/src/Logger_Func.c:1237-1263 | the destination records every chunk it is offered and takes it exactly when it answers OK |
| LoggerLaws.PacketTakesFront | LogManager/src/Logger_Utils.c:853-866 | what a packet takes leaves the ring from the front |
| LoggerLaws.SinkConserves | LogManager/src/Logger_Utils.c:836-866 | socket and UART have accepted exactly the bytes that left the ring |
| LoggerLaws.EachSinkByItsOwnAnswer | LogManager/src/Logger_Utils.c:836-853 | in every mode and task state the socket of a ready logger and the UART each get the oldest packet when they accept it, and nothing otherwise |
| LoggerLaws.RingMovesIff | LogManager/src/Logger_Utils.c:847-866 | away from a ready flash the packet leaves the ring exactly when the answer that counts is OK |
| LoggerLaws.UartConserves | LogManager/src/Logger_Utils.c:847-866 | a UART that is switched on misses nothing and is told nothing twice, for every destination, task state and pair of answers |
| LoggerLaws.UartConservesTick | LogManager/src/Logger_Utils.c:960-989 | the same over a whole tick |
| LoggerLaws.FlashConserves | LogManager/src/Logger_Utils.c:829-866 | the packet goes to erased cells, and the flash stream grows by exactly the bytes that left the ring |
| LoggerLaws.MessageMakesUrgentIff | LogManager/src/Logger_Utils.c:501-508 | the next tick is urgent exactly when the message met low memory, was critical and put something out, or urgency was pending |
| LoggerLaws.WriterOnTailStays | LogManager/src/Logger_Utils.c:510-516 | a writer on the tail stays there through every message and tick, the cells stay as they are, and there is always more to send |
| LoggerLaws.TickKeepsValid | LogManager/src/Logger_Utils.c:984-988 | a tick with something to send leaves both flags down and the mode unchanged |
| LoggerLaws.TwoSinksConserveIff | LogManager/src/Logger_Utils.c:847-853 | with the UART beside the socket nothing is repeated or lost exactly when both give the same answer |
| LoggerLaws.FlashBesideUartConservesIff | LogManager/src/Logger_Utils.c:829-866 | with the UART beside the flash the UART misses and repeats nothing, and the flash repeats bytes exactly when it took some and the UART was busy |
| LoggerLaws.NotReadyDiscards | LogManager/src/Logger_Utils.c:829-858 | a logger that is not ready drops the packet |
| LoggerLaws.RefusedWriteKeepsRingIff | LogManager/src/Logger_Utils.c:829-858 | a refused flash write keeps the ring exactly when nothing of it was written |
| LoggerLaws.NextPacketErasedIff | LogManager/src/Logger_Utils.c:719-729 | the packet after a refused one finds its cells erased exactly when nothing of the refused one was written |
| LoggerRuns.EveryRunRefinesWindow | LogManager/src/Logger_Utils.c:808-989 | every run of messages and ticks, overruns and disturbed messages included, is a run of the sliding window with an append-only delivered stream; excluded are messages that leave a pointer outside the ring and the one case the overrun test misses |
| LoggerRuns.EveryRunConserves | LogManager/src/Logger_Utils.c:808-872 | without overruns and disturbed messages, delivered bytes followed by pending bytes are all messages in order |
| LoggerRuns.EveryMessageReachesTheLog | LogManager/src/Logger_Utils.c:714-872 | what is read back from the flash followed by what waits in RAM is the end of everything logged, or all of it |
| Lifetime.TickAccounts | LogManager/src/Logger_Utils.c:808-989 | in every task state: what a tick takes leaves the ring from the front, and the destination gets all of it, or nothing when the logger is not ready |
| Lifetime.EveryByteIsAccountedFor | LogManager/src/Logger_Utils.c:714-989 | over every life of messages, overruns, ticks, dumps and power failures the saved pointers survive: delivered, lost and pending bytes are everything the messages brought into the ring, in order; the destination has exactly the bytes marked as kept; the flash log is the newest part of them; the last dump has sent what it was asked for, or a beginning of it, out of the stream of that time |
| Lifetime.SmoothStorySays | LogManager/src/Logger_Utils.c:488-603 | without overruns and disturbed messages that is what the messages render to |
| Backlog.EveryRunKeepsInStep | LogManager/src/Logger_Utils.c:656-697 | read pointer and flash write pointer stay congruent modulo a page over every run in which no message reaches the reader, through both wraps |
| Backlog.MessageKeepsInStepIff | LogManager/src/Logger_Utils.c:580-600 | a message keeps the step exactly when it does not reach the reader |
| Backlog.RestartInStepIff | LogManager/src/Logger_Func.c:272-309 | after a restart the pointers are in step exactly when the saved write pointer is at the start of a page |
| Backlog.DiscardKeepsInStepIff | LogManager/src/Logger_Utils.c:829-866 | a tick that throws its packet away keeps the step exactly when the packet was a whole page |
| Backlog.QuietTickTakes | LogManager/src/Logger_Utils.c:672-693 | a quiet tick takes everything up to the next page boundary and never stalls at the tail of the ring |
| Backlog.QuietTickTakesNothingIff | LogManager/src/Logger_Utils.c:672-693 | a quiet tick takes nothing exactly when its packet ends inside the page of the flash write pointer |
| Backlog.StallIff | LogManager/src/Logger_Utils.c:672-693 | with a page or more pending, that is exactly when the bytes before the tail of the ring do not reach the next page |
| Backlog.StallStays | LogManager/src/Logger_Utils.c:960-989 | no number of ticks ends a stall |
| Backlog.StallLasts | LogManager/src/Logger_Utils.c:672-693 | through every run of messages and ticks in which no message makes a tick urgent, reader and flash stay where they are and what is pending only grows |
| StallRun.StallAfterRestart | LogManager/src/Logger_Utils.c:656-697 | a run from a first start: an urgent part of a page, a power failure the log survives, quiet pages, and a stall with 296 bytes pending |
| Backlog.UrgentTickTakes | LogManager/src/Logger_Utils.c:665-673 | an urgent tick takes its whole packet, cut only by the end of the flash |
| Backlog.FourQuietTicksDrain | LogManager/src/Logger_Utils.c:960-989 | four accepted quiet ticks leave less than a page |
| Backlog.ThreeTicksEmptyTheRing | LogManager/src/Logger_Utils.c:960-989 | three ticks, at most five packets, empty the ring for a destination that accepts |
| Backlog.TickCounts | LogManager/src/Logger_Utils.c:960-989 | a tick away from the flash offers two packets, the second also when the first was refused, and each that passes is one packet less |
| DumpSession.TickLeavesFlashAlone | LogManager/src/Logger_Utils.c:829-834 | a tick of a logger that is not ready touches neither cells nor pointers of the flash |
| DumpSession.DumpIsASnapshot | LogManager/src/Logger_Func.c:1206-1277 | however messages, ticks and chunks interleave, a completed dump is the slice of the log as it was when it began, an open or aborted one a beginning of it |
| DumpSession.DumpEndsWhen | LogManager/src/Logger_Func.c:1190-1277 | a dump begins exactly when the logger is ready and there is something to send; it is complete with the acceptance of its last chunk, broken by a failure before that, and ended by nothing else |
| DumpSession.SliceOfStream | LogManager/src/Logger_Func.c:1174-1219 | in every reachable flash a request is answered with the newest bytes ever accepted, or, reaching back over the wrap, with the oldest the log holds |
| Findings.MinusFive | LogManager/src/Logger_Utils.c:63-78 | -5 prints as "-0" |
| Findings.CharOnLastCell | LogManager/src/Logger_Utils.c:541-545 | `%c` on the last cell leaves the write pointer outside the ring |
| Findings.OverrunOntoLastCell | LogManager/src/Logger_Utils.c:595 | an overrun ending on the last cell stalls the reader |
| Findings.FullRingLooksEmpty | LogManager/src/Logger_Utils.c:499-501 | "x%r" with 127 bytes, rendering to 255, empties a ring with 768 bytes pending, without a mark |
| Findings.StalledBeforeTail | LogManager/src/Logger_Utils.c:672-693 | 600 bytes pending, 100 of them before the tail: a quiet tick changes nothing |
| Findings.WrappedKilobyteIsOldest | LogManager/src/Logger_Func.c:394-404 | a one-kilobyte dump of a wrapped log starts with its oldest byte |
| Findings.TwoBytesAcrossPage | LogManager/ext/Logger_WeRCallbacks.c:73-87 | two bytes across a page: the second lands on the first, and success is reported |
| Findings.SwitchedOnInsideSector | LogManager/src/Logger_Func.c:608-611 | switching on one page into a sector starts a log inside it, which sends to come will spoil |

## Left out

- RamRing.RxBuffer.ParseAndWriteRxMessage: covers messages rendering to at most 255 bytes, the limit the
  repository's README.md states on line 95; beyond it the helpers grant their budget again or jump to
  the head of the ring, which is not modelled.
- FlashRuns.EveryRunKeepsTheLog: restarts are between sends, their synchronous erase and NVR write
  succeed, and no erase is requested; what a crash inside a send or a requested erase does is stated for
  one step, by FlashDamage.InterruptedSendHarmlessIff and FlashClearing.RequestedEraseForgotten.
- Lifetime.EveryByteIsAccountedFor: no message leaves a pointer outside the ring or meets the one case the
  overrun test misses; RingLaws.UsableAfterMessageIff and RingLaws.OverrunTestExactIff say which ones do.
- Interrupt preemption in the middle of a message: messages, ticks and dump chunks are atomic steps.
- The level and module filter of `Logger_printf`, mutexes, timers, heap allocation, task states other
  than ready and sending: platform plumbing.
- `OSAL_num2decstr` is not part of this model; the two digits of each clock field are an input.
- Uninstalled (null) callbacks. Assertions do not stop the model: it goes on with the statements behind.
- Counters and debug printing: diagnostics only.
- Changing the flash size at run time: the pointers are not laid out again for it.
- FTP upload, socket opening, server commands, configuration setters: pure input and output.
