# Verified models of the real-time lab code

The repository is a set of real-time programming exercises. Most of it calls libraries; the parts with
algorithms of their own are the AVR32 framework vendored under `ex03/src/asf` and the dining
philosophers of `ex02`. This project models those parts in Dafny and proves what they are for.
`dafny verify dfyconfig.toml` checks everything.

Code that updates its variables in place is a class or a method with loops, proved against a
specification; what the code is for is then proved about that specification, over all inputs or over all
runs.

## What is modelled

**Flash programming** (`Alignment`, `FlashModel`, `Flashc`, `FlashProperties`). The memory can only be
erased and programmed a page at a time, through a page buffer that is written in 64-bit units, and consists
of two areas, the flash array and the User page. `Flashc` is the driver with its page loops, partial
double-words, pending word, clipping and pre-rotated fill pattern. Its copies and fills are proved equal to
"assign these bytes, leave all others alone" for every alignment, length and overlap with the areas, and the
sequence of accesses is proved to load every double-word of a touched page exactly once. Bytes are `bv8`,
addresses unbounded naturals below 2^32. Every command reports a status; a command that reports an error
has no effect on the memory, and nothing else is supposed of which commands fail: what is proved of a page
needs only the success of that page's own commands.

**Fuses and area-wide commands** (`FuseWord`, `FuseDriver`, `RegisterRounding`). Single fuses, fields,
bytes and the whole 64-bit fuse word, the lock and erase loops, the sticky error status of each operation,
and the count-leading-zeros rounding of the bootloader size and of endpoint sizes.

**CDC double buffers** (`CdcTx`, `CdcRx`, `CdcRoundTrip`). Each of the first two files has the driver as a
class over its two buffers, and a transition system of driver, application thread, USB controller and wire.
The thread can be interrupted between any two steps: every test of a shared variable is a step, a critical section is one step, and
the controller moves single bytes. The proofs are over every sequence of events. `CdcRoundTrip` puts the
characters of both sides together.

**Control endpoint and device core** (`UsbRequest`, `ControlEndpoint`, `ControlTransfers`, `LineCoding`, `UsbDevice`,
`Descriptors`, `Endpoints`, `Selection`, `CdcDevice`, `Udc`). `Control` is the state of endpoint 0 with the
controller's flags; `ControlEndpoint` in `UsbDevice` is the driver, whose handlers are proved equal to the
functions on `Control`. `ControlTransfers` follows whole transfers from the SETUP packet to the end of the status
stage, and `LineCoding` what the host sets and gets. `Udc` walks the configuration descriptor with a pointer,
enables and disables interfaces, and answers every SETUP packet as its bytes call for; what that does to
the enabled endpoints are the functions of the module `InterfaceSelection`, whose laws hold over every sequence of
configurations, interface settings and resets, for drivers that report any settings. `CdcDevice` is the
configuration of the serial example itself. The USB 2.0 specification is cited by section.

**Smaller parts**: the clock solver (`ClockSolver`), the cycle timer (`CycleTimer`) and the dining philosophers
(`Philosophers`, for any number from two on). `Basics` holds what several models share.

## Findings

- Without erase a copy leaves what an erasing copy leaves exactly if no bit has to be set
  (`FlashProperties.WithoutErase`).
- A fuse field that does not end within the word wraps around to its start; it reads back modulo 2^width
  exactly under the condition of `FuseWord.FuseFieldRoundTrip`.
- Erasing such a field with a check reports a failure even if all its fuses are erased
  (`FuseDriver.EraseFuseField`). Writing a field keeps an old error status exactly if the lowest bit of the value is set
  (`FuseDriver.WriteFuseField`), and erasing the User page with a check drops the status of the erase
  (`FlashDriver.Flashc.EraseUserPage`).
- `min` and `max` of the framework compare signed 32-bit values. A bootloader size request from 2^31 on
  gets the smallest protection instead of the largest (`RegisterRounding.ProtectedSizeHoldsExactlyBelow`). Two addresses
  compare as they should exactly if both lie on one side of 2^31 (`FlashModel.MinSignedExactly`); of the two flash
  areas this is supposed.
- Enabling the CDC interface clears the count of one receive buffer only. A session starts in order exactly if
  the other count is zero (`CdcReceive.StartHoldsExactlyIfSecondEmpty`); a session can leave it nonzero
  (`CdcReceive.SecondLeftUnread`).
- `udi_cdc_putc` sends the low byte of a 9-bit character first, while `udi_cdc_getc` takes the first byte as the
  high one. A 9-bit character comes back exactly if its two bytes are equal; 256 comes back as 1
  (`CdcRoundTrip.ComesBackExactly`, `CdcRoundTrip.NinthBitMoves`).
- An aborted or refused transmission stays marked as ongoing. Nothing is lost or reordered, but nothing more is
  sent in that session (`CdcTransmit.StuckForever`, with a run in `CdcTransmit.AbortLosesBytes`), so what is stored
  gets out exactly if there is no such transmission (`CdcTransmit.EverythingIsSent`). The receive side gets stuck
  in the same way, exactly by an aborted or refused transfer (`CdcReceive.StuckExactly`,
  `CdcReceive.LossEndsReception`, with a run in `CdcReceive.AbortReceivesNothing`).
- A reset leaves no data endpoint enabled exactly if each enabled one belongs to a setting that its driver
  reports (`InterfaceSelection.ResetExactly`). That the drivers report the settings they were enabled with is not
  enough: a driver is not told of a setting whose endpoint allocation stops part-way
  (`InterfaceSelection.StoppedSwitchLeavesEndpoints`). Without such a stop it is enough, after every sequence of
  requests and resets (`InterfaceSelection.ResetClearsAfterEveryRun`).
- When the host skips data of an OUT request and asks for the status at once, the payload size is not cut to
  the bytes received (`ControlPipe.OutDataInEveryRun`, `ControlPipe.EarlyStatusKeepsSize`).
- The callback of an OUT request is run when the next SETUP arrives, even if nothing was stored
  (`ControlPipe.CallbackWithoutData`). It finds all the data announced exactly if the host has sent that much and it
  fits the buffer (`ControlPipe.CallbackDataExactly`).
- The callback of a request is dropped if and only if an OUT packet is served before the end of its status stage, or
  after a stall (`ControlTransfers.DropsExactly`); otherwise it is run exactly once, unless a bus reset comes before
  (`ControlTransfers.CallbackOnceInEveryRun`).
- An IN token that the controller refused is forgotten if and only if a refused OUT packet is noted with it
  (`ControlTransfers.RefusedInExactly`). The host that asked for the status stage that way gets no answer until it
  sends something (`ControlTransfers.MissedForGood`).
- For a CPU frequency below the oscillator's the PLL divider can exceed the 15 that its register field holds
  (`ClockSolver.DividerExceedsField`). It fits exactly if any setting with such a divider gives the frequency,
  which a caller can tell from the two frequencies (`ClockSolver.ConfigureClocks`).
- The peripheral bus gets the least divider that is not above the request exactly under the condition of
  `ClockSolver.DividePba`.
- The converted delay is not too short exactly if it fits 32 bits (`CycleTimer.CyclesRoundUp`).

## Model

| member | source | states |
|---|---|---|
| FlashDriver.Flashc.MemCpy | ex03/src/asf/avr32/drivers/flashc/flashc.c:886-1091 | For every alignment of destination, source and length and every overlap with the areas: if no command fails, exactly the existing bytes of the range become the source bytes (with erase) or the AND of old and new (without), all others keep theirs. Whatever fails elsewhere, each touched page whose own two or three commands succeed holds its part of the data and its old contents around it; pages without a byte of the range never change; the status is the OR of exactly its commands; the accesses are those of the touched pages in order. Reads up to 7 bytes past the source, as the code does. |
| FlashDriver.Flashc.MemSet64 | ex03/src/asf/avr32/drivers/flashc/flashc.c:713-883 | The same effect in whole and page by page, the same status and the same accesses as a copy of the endlessly repeated big-endian 64-bit pattern, although the pattern is rotated before the destination is clipped. |
| FlashDriver.Flashc.MemSet32 | ex03/src/asf/avr32/drivers/flashc/flashc.c:707-710 | The same for a 32-bit pattern. |
| FlashDriver.Flashc.MemSet16 | ex03/src/asf/avr32/drivers/flashc/flashc.c:701-704 | The same for a 16-bit pattern. |
| FlashDriver.Flashc.MemSet8 | ex03/src/asf/avr32/drivers/flashc/flashc.c:695-698 | The same for a single byte. |
| FlashDriver.RotatePattern | ex03/src/asf/avr32/drivers/flashc/flashc.c:729-735 | The fill double-word holds, at byte j of a boundary-aligned word, the pattern byte that belongs there when the pattern starts at dst. |
| FlashDriver.FillIsPattern | ex03/src/asf/avr32/drivers/flashc/flashc.c:729-735 | So byte a of the range is pattern byte (a - dst) mod 8. |
| FlashDriver.Doubled | ex03/src/asf/avr32/drivers/flashc/flashc.c:695-710 | A value written twice in twice the width repeats like the value. |
| FlashDriver.Flashc.CopyPage | ex03/src/asf/avr32/drivers/flashc/flashc.c:935-1084 | One round of the page loop: clears the buffer, loads every double-word of the page once, erases if asked to, writes once, changes no other page, and moves on to the next page, which after the end of the array is the User page; if its two or three commands succeed the page holds its part of the copy. |
| FlashDriver.PagesRound | ex03/src/asf/avr32/drivers/flashc/flashc.c:935-1084 | What a round adds to the page-by-page effect: the commands of each page are numbered by its place in the walk, and a later failure does not touch an earlier page. |
| FlashDriver.Flashc.LoadCopiedPage | ex03/src/asf/avr32/drivers/flashc/flashc.c:941-1052 | The phases prefix, partial word, bulk, partial tail and suffix leave the page buffer with the whole page as wanted, and store each double-word once, also when both ends of the copy fall in one double-word that stays pending. |
| FlashDriver.Flashc.SetPage | ex03/src/asf/avr32/drivers/flashc/flashc.c:764-876 | One round of the fill loop, likewise. |
| FlashDriver.Flashc.ProgramPage | ex03/src/asf/avr32/drivers/flashc/flashc.c:1053-1084 | Erases if asked to and writes the current page, in the array or the User page, and goes on to the User page at the end of the array. |
| FlashDriver.Flashc.IssueCommand | ex03/src/asf/avr32/drivers/flashc/flashc.c:298-309 | A command replaces the sticky status by its own and takes effect on the page named, or on the current one. |
| FlashDriver.Flashc.ErasePage | ex03/src/asf/avr32/drivers/flashc/flashc.c:640-651 | With a check, the status is that of both commands, and a quick read tells whether the page is all ones. |
| FlashDriver.Flashc.EraseUserPage | ex03/src/asf/avr32/drivers/flashc/flashc.c:683-687 | Erases the User page; with a check, a quick read tells whether it is all ones, and the status is that of both commands if and only if the quick read reports the errors of the erase too. |
| FlashModel.ClipKeepsOwned | ex03/src/asf/avr32/drivers/flashc/flashc.c:738-756 | Clipping the range to the areas drops no existing address. |
| FlashModel.PageWritten | ex03/src/asf/avr32/drivers/flashc/flashc.c:1053-1068 | Writing a buffer that holds the page as wanted changes the copied bytes of that page only: bytes around them are written back. |
| FlashModel.MinSignedAgrees | ex03/src/asf/avr32/utils/compiler.h:814-860 | Within one half of the address space the signed minimum is the minimum. |
| FlashModel.MinSignedExactly | ex03/src/asf/avr32/utils/compiler.h:814-860 | The signed minimum is the minimum if and only if the operands are equal or lie on the same side of 2^31. |
| Alignment.GetAlignIsRemainder | ex03/src/asf/avr32/utils/compiler.h:711-748 | The alignment of an address is its remainder, for every n. |
| FuseWord.GetAlignIsMask | ex03/src/asf/avr32/utils/compiler.h:711-748 | For a power of two it is, bit by bit, what the macro's mask n - 1 keeps. |
| FlashProperties.WithoutErase | ex03/src/asf/avr32/drivers/flashc/flashc.c:886-1091 | Erasing assigns the data over any contents; without erase the result is the same if and only if every byte has the bits of the data set already. |
| FlashProperties.ErasedCanProgram | ex03/src/asf/avr32/drivers/flashc/flashc.c:886-1091 | Erased bytes can be written without erase. |
| FlashProperties.CopySplits | ex03/src/asf/avr32/drivers/flashc/flashc.c:886-1091 | A copy can be split anywhere, also inside a double-word. |
| FlashProperties.FilledByte | ex03/src/asf/avr32/drivers/flashc/flashc.c:695-735 | A fill with a value of n bytes puts its most significant byte at the destination, the next one behind it, and so on again and again. |
| FlashProperties.CopyAccessesOnce | ex03/src/asf/avr32/drivers/flashc/flashc.c:935-1084 | For every range: each double-word of a page with a byte of the range is loaded exactly once and that page is erased (if asked to) and written exactly once; no other double-word or page is accessed. |
| FlashModel.StickySplit | ex03/src/asf/avr32/drivers/flashc/flashc.c:259-275 | The accumulated status of two consecutive runs of commands is the OR of both. |
| FlashModel.StickyCleanIff | ex03/src/asf/avr32/drivers/flashc/flashc.c:259-275 | The accumulated status is clean if and only if every command was. |
| FlashModel.StickyErrors | ex03/src/asf/avr32/drivers/flashc/flashc.c:259-275 | Each of the two errors is in it if and only if some command reported that one. |
| FuseDriver.LockAllRegions | ex03/src/asf/avr32/drivers/flashc/flashc.c:413-423 | One lock or unlock command per region, from the last to the first; the status is the OR of exactly those. |
| FuseDriver.RegionAt | ex03/src/asf/avr32/drivers/flashc/flashc.c:413-423 | Command j of the series locks, or unlocks, the j-th region from the end, named by its first page. |
| FuseDriver.EraseAllPages | ex03/src/asf/avr32/drivers/flashc/flashc.c:654-666 | If no command fails every byte of the array is erased and the User page is not; true is returned; the status is the OR of exactly its commands, also with a check. |
| FuseDriver.EraseFuseBit | ex03/src/asf/avr32/drivers/flashc/flashc.c:458-462 | Sets one fuse. |
| FuseDriver.WriteFuseBit | ex03/src/asf/avr32/drivers/flashc/flashc.c:508-512 | Clears one fuse; for a true value no command is issued and the old status stays. |
| FuseDriver.SetFuseBit | ex03/src/asf/avr32/drivers/flashc/flashc.c:549-555 | Gives one fuse a value with one command. |
| FuseDriver.SetFuseField | ex03/src/asf/avr32/drivers/flashc/flashc.c:558-570 | If no command fails the field, of at most 64 fuses, holds the bits of the value; in any case other fuses and the memory are untouched; one command per fuse and the status is the OR of exactly those. |
| FuseDriver.EraseFuseField | ex03/src/asf/avr32/drivers/flashc/flashc.c:465-478 | If no command fails the fuses of the field are erased; the check is true if and only if the field ends within the word and its fuses are erased, so it fails for every field that wraps around; exact status. |
| FuseDriver.WriteFuseField | ex03/src/asf/avr32/drivers/flashc/flashc.c:515-527 | ANDs the bits of the value into the field, with one command for each bit that is clear; the status of the previous operation is kept in the result if and only if the lowest bit is set. |
| FuseWord.FuseFieldRoundTrip | ex03/src/asf/avr32/drivers/flashc/flashc.c:440-443 | A field that was set reads back modulo 2^width if and only if it ends within the word or the part of the value beyond the word is zero. |
| FuseWord.ReadsErasedExactly | ex03/src/asf/avr32/drivers/flashc/flashc.c:440-443 | A field reads as all ones if and only if it ends within the word and its fuses are erased. |
| FuseWord.FuseFieldFrame | ex03/src/asf/avr32/drivers/flashc/flashc.c:558-570 | Setting a field that ends within the word changes no other fuse; a field that does not overwrites the start of the word. |
| FuseWord.SetThenRead | ex03/src/asf/avr32/drivers/flashc/flashc.c:440-443 | What reads back is the part of the value that fits before the end of the word. |
| FuseDriver.EraseFuseByte | ex03/src/asf/avr32/drivers/flashc/flashc.c:481-498 | The byte is erased and the other seven survive although the whole word is erased; a byte number above 7 restores all. |
| FuseDriver.SetFuseByte | ex03/src/asf/avr32/drivers/flashc/flashc.c:573-590 | The byte takes the value and the other seven survive, in all three cases; a byte number above 7 only clears fuses, in the byte that its low bits name; exact status. |
| FuseDriver.WithByteReads | ex03/src/asf/avr32/drivers/flashc/flashc.c:446-449 | A byte that was set reads back. |
| FuseDriver.EraseAllFuses | ex03/src/asf/avr32/drivers/flashc/flashc.c:501-505 | Sets all fuses. |
| FuseDriver.WriteFuseByte | ex03/src/asf/avr32/drivers/flashc/flashc.c:530-533 | ANDs a value into one byte; byte number and value share the command's argument. |
| FuseDriver.WriteAllFuses | ex03/src/asf/avr32/drivers/flashc/flashc.c:536-546 | ANDs a value into the word, byte by byte; exact status. |
| FuseDriver.SetAllFuses | ex03/src/asf/avr32/drivers/flashc/flashc.c:593-610 | The fuse word reads back as the value; exact status. |
| FuseDriver.GetProtectedSize | ex03/src/asf/avr32/drivers/flashc/flashc.c:352-358 | No protection exactly if fuses 17 to 19 are all erased; else the pages protected are two to the sum of the weights 1, 2 and 4 of the cleared ones, so 2 to 128 pages. |
| FuseDriver.SetProtectedSize | ex03/src/asf/avr32/drivers/flashc/flashc.c:361-374 | The size returned is the one the rounding chose and no other fuse changed; exact status. |
| RegisterRounding.ProtectedSizeIsLeastFit | ex03/src/asf/avr32/drivers/flashc/flashc.c:361-374 | Below 2^31 the size chosen is the least supported one that is not below the request, or the largest. |
| RegisterRounding.ProtectedSizeHoldsExactlyBelow | ex03/src/asf/avr32/drivers/flashc/flashc.c:361-374 | That holds if and only if the request is below 2^31. |
| RegisterRounding.ProtectedExponentFits | ex03/src/asf/avr32/drivers/flashc/flashc.c:361-374 | The choice always fits the fuse field. |
| RegisterRounding.EndpointSizeIsLeastFit | ex03/src/asf/avr32/drivers/usbb/usbb_device.h:264-268 | Formatting an endpoint size and reading it back gives the least power of two in 8..1024 not below the clamped size, for every size below 2^31, so for the 16-bit sizes of the descriptors. |
| RegisterRounding.EndpointSizeHoldsExactlyBelow | ex03/src/asf/avr32/drivers/usbb/usbb_device.h:264-268 | That holds if and only if the size is below 2^31. |
| RegisterRounding.RoundUpLogIsLeast | ex03/src/asf/avr32/drivers/usbb/usbb_device.h:264-264 | The leading-zero count of 2n - 1 gives the least exponent whose power is not below n. |
| CdcTransmit.CdcTx.TxSend | ex03/src/asf/common/services/usb/class/cdc/device/udi_cdc.c:487-537 | In a new frame, with nothing ongoing, the buffer selected, or the other if both hold data, is handed over and the application gets the other; else nothing happens. RequestsInEveryRun says what the request names in every run. |
| CdcTransmit.CdcTx.DataSent | ex03/src/asf/common/services/usb/class/cdc/device/udi_cdc.c:474-484 | A finished transfer releases the buffer and starts the next; an aborted one changes nothing. |
| CdcTransmit.CdcTx.Enable | ex03/src/asf/common/services/usb/class/cdc/device/udi_cdc.c:255-264 | Both buffers are empty, and in every frame but 0 the first request names buffer 0 with no byte. |
| CdcTransmit.CdcTx.SwitchBuffer | ex03/src/asf/common/services/usb/class/cdc/device/udi_cdc.c:649-656 | The critical section that lets the application go on in the other buffer. |
| CdcTransmit.CdcTx.StoreByte | ex03/src/asf/common/services/usb/class/cdc/device/udi_cdc.c:679-683 | One byte is appended to the selected buffer, within its bounds. |
| CdcTransmit.CdcTx.StoreChunk | ex03/src/asf/common/services/usb/class/cdc/device/udi_cdc.c:716-726 | As many bytes as fit are appended to the selected buffer. |
| CdcTransmit.FifoInEveryRun | ex03/src/asf/common/services/usb/class/cdc/device/udi_cdc.c:474-737 | In every run of calls, interrupts, SOFs, aborts and refused transfers: wire ++ other buffer ++ selected buffer are the bytes stored, and those are the bytes passed less those still to come or reported back; the application stores only where there is room and never in the buffer being sent, which still holds what was handed over; after a short packet nothing starts in the same frame. |
| CdcTransmit.RequestsInEveryRun | ex03/src/asf/common/services/usb/class/cdc/device/udi_cdc.c:474-537 | In every run, at every frame and after every transfer that ends: a transfer is asked for exactly if none is ongoing and the frame is new; its buffer and size name the next bytes stored after those on the wire, all of them unless both buffers hold data; the buffer is not the one the application fills then; it is short exactly if the buffer is not full. |
| CdcTransmit.DoneGoesOn | ex03/src/asf/common/services/usb/class/cdc/device/udi_cdc.c:474-537 | When a transfer ends the next one starts at once, unless the frame is the one noted: that of the last short packet, or 0 after a full buffer. |
| CdcTransmit.CallStores | ex03/src/asf/common/services/usb/class/cdc/device/udi_cdc.c:642-737 | With room in the selected buffer a call stores the next bytes of the rest: one for putc, as many as fit for write_buf. |
| CdcTransmit.CallSwitches | ex03/src/asf/common/services/usb/class/cdc/device/udi_cdc.c:642-659 | With a full buffer and the other one free a call goes on in the other, which is empty. |
| CdcTransmit.CallWaits | ex03/src/asf/common/services/usb/class/cdc/device/udi_cdc.c:642-714 | With no buffer free a call tries again while the interface is running, and ends and reports its rest if it is not. |
| CdcTransmit.RunningKeepsPassed | ex03/src/asf/common/services/usb/class/cdc/device/udi_cdc.c:662-737 | While the interface is running, whatever happens, no call reports a rest. |
| CdcTransmit.EverythingIsSent | ex03/src/asf/common/services/usb/class/cdc/device/udi_cdc.c:474-537 | From every state of the invariant, once the application pauses: after three services everything it stored is on the wire if and only if no aborted or refused transfer is marked as ongoing, or it all was on the wire before. |
| CdcTransmit.TwoTransfersSendAll | ex03/src/asf/common/services/usb/class/cdc/device/udi_cdc.c:474-537 | In whatever order bytes are fetched, frames start and transfers end: once the application pauses, everything it stored is on the wire when two transfers have ended, if none is aborted or refused. |
| CdcTransmit.StuckExactly | ex03/src/asf/common/services/usb/class/cdc/device/udi_cdc.c:474-537 | In every run a transfer is marked as ongoing that the controller does not work on if and only if one was so before or one was aborted or refused on the way. |
| CdcTransmit.StuckForever | ex03/src/asf/common/services/usb/class/cdc/device/udi_cdc.c:474-500 | Such a session sends nothing more, whatever happens. |
| CdcTransmit.AbortLosesBytes | ex03/src/asf/common/services/usb/class/cdc/device/udi_cdc.c:474-484 | A session whose first transfer is aborted accepts a byte and never sends it. |
| CdcTransmit.StepHolds | ex03/src/asf/common/services/usb/class/cdc/device/udi_cdc.c:474-737 | Every step of thread, interrupts and controller keeps the invariant behind this. |
| CdcReceive.CdcRx.RxStart | ex03/src/asf/common/services/usb/class/cdc/device/udi_cdc.c:425-456 | A read-out buffer is handed over and the other selected, or nothing happens. |
| CdcReceive.CdcRx.DataReceived | ex03/src/asf/common/services/usb/class/cdc/device/udi_cdc.c:459-471 | Received bytes become available and the next transfer starts if possible. |
| CdcReceive.CdcRx.Enable | ex03/src/asf/common/services/usb/class/cdc/device/udi_cdc.c:266-272 | The receive state at the start of a session; the count of the second buffer stays. |
| CdcReceive.CdcRx.TakeByte | ex03/src/asf/common/services/usb/class/cdc/device/udi_cdc.c:594-596 | The byte taken is the first unread one and leaves the others. |
| CdcReceive.FifoInEveryRun | ex03/src/asf/common/services/usb/class/cdc/device/udi_cdc.c:425-607 | In every run from empty buffers: bytes taken ++ unread rest of the selected buffer ++ bytes in the other buffer are the bytes received; the controller never stores into the selected buffer; finished calls returned consecutive bytes, a 9-bit character high byte first. |
| CdcReceive.RunningExactly | ex03/src/asf/common/services/usb/class/cdc/device/udi_cdc.c:255-280 | The interface is running exactly if its first transfer was granted and it has not been disabled since. |
| CdcReceive.RunningCallsReturn | ex03/src/asf/common/services/usb/class/cdc/device/udi_cdc.c:578-607 | In every run of a running interface getc waits for its bytes: every call that ends returns a character. |
| CdcReceive.DisabledCallEnds | ex03/src/asf/common/services/usb/class/cdc/device/udi_cdc.c:578-607 | Once the interface is disabled a call ends within 14 of its own steps, whatever else happens. |
| CdcReceive.StartHoldsExactlyIfSecondEmpty | ex03/src/asf/common/services/usb/class/cdc/device/udi_cdc.c:255-273 | A session starts in order if and only if the second buffer's count is zero. |
| CdcReceive.SecondLeftUnread | ex03/src/asf/common/services/usb/class/cdc/device/udi_cdc.c:255-273 | A run of two transfers after which the second count is 1, so that the next session has a byte to read before it has received one. |
| CdcReceive.StuckExactly | ex03/src/asf/common/services/usb/class/cdc/device/udi_cdc.c:425-471 | In every run a transfer is marked as ongoing that the controller neither works on nor will be asked for if and only if one was so before or one was aborted or refused on the way. |
| CdcReceive.StuckForever | ex03/src/asf/common/services/usb/class/cdc/device/udi_cdc.c:459-471 | Such a session receives nothing more, whatever happens. |
| CdcReceive.LossEndsReception | ex03/src/asf/common/services/usb/class/cdc/device/udi_cdc.c:425-471 | So after an aborted or refused transfer a session receives nothing more. |
| CdcReceive.AbortReceivesNothing | ex03/src/asf/common/services/usb/class/cdc/device/udi_cdc.c:459-464 | A session whose first transfer is aborted never receives a byte. |
| CdcReceive.NeverBothWait | ex03/src/asf/common/services/usb/class/cdc/device/udi_cdc.c:425-471 | In every run, if and only if no transfer was aborted or refused the session is not stuck, and then there are bytes to read, or the controller can receive, or the thread is about to let it. |
| CdcReceive.EverythingIsTaken | ex03/src/asf/common/services/usb/class/cdc/device/udi_cdc.c:425-607 | In every session without an aborted or refused transfer: once a transfer has ended, everything received by then is taken in order when the application has made eight steps of getc for each byte that was left, whatever else happens meanwhile. |
| CdcReceive.StepHolds | ex03/src/asf/common/services/usb/class/cdc/device/udi_cdc.c:425-607 | Every step keeps the invariant behind this. |
| CdcRoundTrip.ComesBackExactly | ex03/src/asf/common/services/usb/class/cdc/device/udi_cdc.c:578-695 | What one side writes with putc and the other reads with getc: a character of eight bits comes back; a 9-bit character if and only if its two bytes are equal, so of the 512 only 0 and 257. |
| CdcRoundTrip.ReadsSwapped | ex03/src/asf/common/services/usb/class/cdc/device/udi_cdc.c:578-695 | The two bytes of a 9-bit character come back swapped. |
| CdcRoundTrip.InBytes | ex03/src/asf/common/services/usb/class/cdc/device/udi_cdc.c:578-692 | A character of eight bits is one byte on both sides; of nine bits, the low byte first for putc and the high byte first for getc. |
| CdcRoundTrip.NinthBitMoves | ex03/src/asf/common/services/usb/class/cdc/device/udi_cdc.c:578-695 | 256 comes back as 1. |
| UsbDevice.ControlEndpoint.Interrupt | ex03/src/asf/avr32/drivers/usbb/usbb_device.c:1399-1439 | Serves the most urgent event as the specification says, with the answer that the bytes of the SETUP packet call for, and keeps the invariant; without a SETUP packet nothing of the device changes but the line coding that a SET_LINE_CODING stores. |
| UsbDevice.ControlEndpoint.SetupReceived | ex03/src/asf/avr32/drivers/usbb/usbb_device.c:1068-1131 | Ends the previous request before the new one overwrites it; stalls a packet of the wrong size or an unsupported request; else starts the data or status stage. Byte by byte: the answer and what changes in the device are those of the request type in byte 0, the request in byte 1, wValue in 2 and 3, wIndex in 4 and wLength in 6 and 7, low byte first. |
| UsbRequest.ParsedBytes | ex03/src/asf/avr32/drivers/usbb/usbb_device.c:1086-1093 | The fields of a SETUP packet are its bytes, 16-bit fields low byte first (section 9.3). |
| UsbDevice.ControlEndpoint.InSent | ex03/src/asf/avr32/drivers/usbb/usbb_device.c:1134-1220 | The next IN packet, the empty packet, or the end of the stage, where the callback runs; never reads outside the payload. |
| UsbDevice.ControlEndpoint.OutReceived | ex03/src/asf/avr32/drivers/usbb/usbb_device.c:1223-1258 | Stores an OUT packet as far as there is room, in the line coding itself for SET_LINE_CODING, or ends the request, or stalls and drops its callback; never writes outside the payload. |
| UsbDevice.ControlEndpoint.StorePacket | ex03/src/asf/avr32/drivers/usbb/usbb_device.c:1241-1258 | The first bytes of an OUT packet, as many as there is room for, go behind those stored before; all others of the buffer stand. |
| UsbDevice.ControlEndpoint.OutStored | ex03/src/asf/avr32/drivers/usbb/usbb_device.c:1259-1313 | Ends the data stage on a short packet or when all has arrived, stalls when the buffer is full before. |
| UsbDevice.ControlEndpoint.EndOfRequest | ex03/src/asf/avr32/drivers/usbb/usbb_device.c:1390-1396 | Runs the callback if there is one; the address callback sets wValue modulo 128. |
| UsbDevice.ControlEndpoint.Init | ex03/src/asf/avr32/drivers/usbb/usbb_device.c:1047-1065 | Forgets the request. |
| UsbDevice.ControlEndpoint.Underflow | ex03/src/asf/avr32/drivers/usbb/usbb_device.c:1316-1330 | An early status stage is granted, extra IN data is stalled. |
| UsbDevice.ControlEndpoint.Overflow | ex03/src/asf/avr32/drivers/usbb/usbb_device.c:1333-1346 | Extra OUT data in the status stage is stalled. |
| UsbDevice.ControlEndpoint.BusReset | ex03/src/asf/avr32/drivers/usbb/usbb_device.c:410-424 | Resets the core, the address and the endpoint, and keeps the line coding; no data endpoint stays enabled unless an interface was left with endpoints of a setting that its driver does not report. |
| ControlPipe.PacketsJoin | ex03/src/asf/avr32/drivers/usbb/usbb_device.c:1104-1113 | Section 5.5.3: the packets of a transfer carry exactly its data. |
| ControlPipe.PacketSizes | ex03/src/asf/avr32/drivers/usbb/usbb_device.c:1134-1220 | All packets but the last have 64 bytes and the last fewer, possibly none. |
| ControlPipe.InDataInEveryRun | ex03/src/asf/avr32/drivers/usbb/usbb_device.c:1134-1220 | In every run the packets taken are the first ones of what was offered, and never more than wLength bytes (section 9.3.5). |
| ControlPipe.InStageCompletes | ex03/src/asf/avr32/drivers/usbb/usbb_device.c:1134-1220 | However IN tokens, answered or not, and interrupts follow each other: the data stage goes on, or the endpoint waits for the OUT status packet and the host has taken exactly the packets of the payload. It is at its end if and only if it has moved on as often as it had to, and until then an IN token or an interrupt moves it on. |
| ControlPipe.InRequestStarts | ex03/src/asf/avr32/drivers/usbb/usbb_device.c:1068-1131 | Every accepted IN request starts such a stage with the first packet ready, unless an OUT packet waits already; it has to move on twice for each of its size / 64 + 1 packets. |
| ControlPipe.SendingStep | ex03/src/asf/avr32/drivers/usbb/usbb_device.c:1134-1220 | Each IN token or interrupt moves the stage on by one or not at all. |
| ControlPipe.CallbacksInEveryRun | ex03/src/asf/avr32/drivers/usbb/usbb_device.c:1047-1096 | In every run a callback runs or is dropped at most once, right after its request in the history, and runs only when the request is over or the next SETUP has arrived; so the address is 0 or that of an accepted SET_ADDRESS (section 9.4.6). |
| ControlTransfers.CallbackOnceInEveryRun | ex03/src/asf/avr32/drivers/usbb/usbb_device.c:1047-1096 | In every run every request with a callback, unless it is the last entry or a bus reset follows, has it run exactly once, with the request's value, or dropped. |
| ControlTransfers.DropsExactly | ex03/src/asf/avr32/drivers/usbb/usbb_device.c:1228-1244 | A callback is dropped if and only if an OUT packet is served before the end of the status stage, or after a stall; the endpoint then stalls. |
| ControlTransfers.NextSetupRuns | ex03/src/asf/avr32/drivers/usbb/usbb_device.c:1068-1080 | The next SETUP packet runs the callback of a request that was not over. |
| ControlTransfers.StatusServed | ex03/src/asf/avr32/drivers/usbb/usbb_device.c:1134-1150 | Once the host has taken the status packet, the next interrupt runs the callback, and the endpoint waits for a request. |
| ControlTransfers.NoDataTransfer | ex03/src/asf/avr32/drivers/usbb/usbb_device.c:1068-1150 | From every state of the invariant: an accepted request without data is over once its status packet is taken; the callback of the request before, if any, and its own have run, in that order. |
| ControlTransfers.SetAddressTakesEffect | ex03/src/asf/common/services/usb/udc/udc.c:540-560 | From every such state the packet [0, 5, v, 0, 0, 0, 0, 0] gives the device address v when its status packet is taken. |
| ControlTransfers.OutPacketDecides | ex03/src/asf/avr32/drivers/usbb/usbb_device.c:1223-1313 | An OUT packet leads to the status stage exactly if it ends the data, to a stall exactly if it does not and the buffer is full, else to more data; the buffer stands behind what was stored. |
| ControlTransfers.OutTransfer | ex03/src/asf/avr32/drivers/usbb/usbb_device.c:1068-1313 | From every such state: an accepted request whose data fit the buffer has exactly them stored, in order, and the rest of the buffer kept, when its status packet is taken; its callback has run. |
| ControlTransfers.InTransfer | ex03/src/asf/avr32/drivers/usbb/usbb_device.c:1068-1240 | From every such state: an accepted request for data, whatever the order of IN tokens and interrupts, has the host take exactly the packets of the answer; the status packet then ends it, unless a further IN token was stalled. |
| LineCoding.SetStores | ex03/src/asf/common/services/usb/class/cdc/device/udi_cdc.c:313-325 | From every such state the seven bytes of a SET_LINE_CODING are the line coding when its status packet is taken, and its callback has run. |
| LineCoding.SetThenGet | ex03/src/asf/common/services/usb/class/cdc/device/udi_cdc.c:287-325 | A GET_LINE_CODING after that has the host take exactly the bytes it set, in whatever order IN tokens and interrupts come. |
| ControlTransfers.DataEnds | ex03/src/asf/avr32/drivers/usbb/usbb_device.c:1154-1162 | After the last packet of the data the endpoint waits for the status packet and watches for IN tokens. |
| ControlTransfers.HostGivesUp | ex03/src/asf/avr32/drivers/usbb/usbb_device.c:1202-1207 | If the host has gone on to the status stage before that, no further packet is offered. |
| ControlTransfers.RefusedStalls | ex03/src/asf/avr32/drivers/usbb/usbb_device.c:1068-1100 | After a packet of the wrong size or a refused request the endpoint takes and gives no data until the next SETUP. |
| ControlTransfers.BrokenOffStalls | ex03/src/asf/avr32/drivers/usbb/usbb_device.c:1228-1244 | OUT data in the status stage, or after a stall, stall the endpoint and end the request. |
| ControlTransfers.OverflowStalls | ex03/src/asf/avr32/drivers/usbb/usbb_device.c:1333-1346 | So do OUT data that the controller refused in the status stage. |
| ControlTransfers.RefusedInExactly | ex03/src/asf/avr32/drivers/usbb/usbb_device.c:1316-1330 | A refused IN token during OUT data gets the status packet, and one in the wait for the status packet a stall, if and only if no refused OUT packet is noted too; that is served first and the token is forgotten. |
| ControlTransfers.MissedForGood | ex03/src/asf/avr32/drivers/usbb/usbb_device.c:1316-1330 | A token forgotten during OUT data is not answered later, and neither is any further one, until OUT data or a SETUP packet arrive. |
| ControlPipe.AddressSource | ex03/src/asf/common/services/usb/udc/udc.c:540-560 | A nonzero address comes from the wValue of a SET_ADDRESS whose callback ran. |
| ControlPipe.OutDataInEveryRun | ex03/src/asf/avr32/drivers/usbb/usbb_device.c:1223-1313 | In every run and every stage, also when a full buffer stalls the endpoint, the bytes stored of a request's packets are the first ones that the packets carry, as many as fit the buffer; until the end of the status stage the size equals their number if and only if the last packet left fewer than 64 bytes or completed wLength, or the packets fill the buffer. |
| ControlPipe.EarlyStatusKeepsSize | ex03/src/asf/avr32/drivers/usbb/usbb_device.c:1316-1325 | A run in which the host sends no packet: the size is 7 and nothing was stored. |
| ControlPipe.CallbackDataExactly | ex03/src/asf/avr32/drivers/usbb/usbb_device.c:1047-1096 | In every run the callback of a request with OUT data is run when the host has taken the status packet or the next SETUP has arrived, and finds all the data announced if and only if the host has sent that much and it fits the buffer. |
| ControlPipe.CallbackWithoutData | ex03/src/asf/avr32/drivers/usbb/usbb_device.c:1068-1096 | A run in which the next SETUP arrives at once: the callback of a 7-byte request is run with nothing stored. |
| ControlPipe.StepKeeps | ex03/src/asf/avr32/drivers/usbb/usbb_device.c:1026-1439 | Every event keeps what was stored, until the next request. |
| ControlPipe.StepHolds | ex03/src/asf/avr32/drivers/usbb/usbb_device.c:1026-1439 | Every event keeps the invariant behind these. |
| ControlPipe.InterruptHolds | ex03/src/asf/avr32/drivers/usbb/usbb_device.c:1399-1439 | In particular every interrupt, for every proper answer. |
| DeviceCore.Udc.NextDescInIface | ex03/src/asf/common/services/usb/udc/udc.c:163-185 | In every block of descriptors of at least two bytes the pointer walk ends and finds the first descriptor of the type before the next interface in the list of descriptors, or nothing. |
| DeviceCore.Udc.UpdateIfaceDesc | ex03/src/asf/common/services/usb/udc/udc.c:198-231 | In every such block whose interface descriptors hold their two numbers the pointer walk ends and finds the first descriptor of the setting in the list, if and only if there is one and the device is configured. |
| Descriptors.EndpointsNext | ex03/src/asf/common/services/usb/udc/udc.c:256-271 | Searching for one endpoint after the other finds the endpoints of the interface in order. |
| DeviceCore.EndpointStep | ex03/src/asf/common/services/usb/udc/udc.c:256-317 | The same on the bytes of the block, for the loops of enable and disable. |
| DeviceCore.Udc.IfaceEnable | ex03/src/asf/common/services/usb/udc/udc.c:292-321 | Has exactly the outcome of `InterfaceSelection.Enable`, also when an allocation stops part-way or the driver refuses; the invariant is kept unless the interface is left with endpoints of a setting that its driver does not report. Exactly asking the driver of the communication interface sets the line coding to 115200 baud, one stop bit, no parity, 8 bits. |
| DeviceCore.Udc.IfaceDisable | ex03/src/asf/common/services/usb/udc/udc.c:242-279 | Has exactly the outcome of `InterfaceSelection.Disable`: the endpoints of the setting that the driver reports now are disabled, if it is found. |
| DeviceCore.Udc.Reset | ex03/src/asf/common/services/usb/udc/udc.c:328-353 | Has exactly the effect of `InterfaceSelection.Reset`; no data endpoint stays enabled unless an interface was left with endpoints of a setting that its driver does not report. |
| InterfaceSelection.ResetClearsAfterEveryRun | ex03/src/asf/common/services/usb/udc/udc.c:242-353 | After every sequence of configurations, interface settings and resets: a reset leaves no data endpoint enabled unless an interface was left with endpoints of a setting that its driver does not report. Honest drivers get there only by an allocation that stopped part-way, drivers without alternate settings never. |
| InterfaceSelection.ResetExactly | ex03/src/asf/common/services/usb/udc/udc.c:328-353 | In every state exactly the endpoints of the reported settings are disabled; none stays enabled if and only if each enabled one belongs to a reported setting. |
| InterfaceSelection.HonestSwitch | ex03/src/asf/common/services/usb/udc/udc.c:844-863 | An honest driver that changes to any setting has the endpoints of the old one exchanged for those of the new, and a reset then leaves none enabled. |
| InterfaceSelection.EnableThenReset | ex03/src/asf/common/services/usb/udc/udc.c:292-353 | A reset clears what an enable added if and only if the drivers report all of it; for honest drivers that is every enable whose allocations succeed. |
| InterfaceSelection.EnableThenDisable | ex03/src/asf/common/services/usb/udc/udc.c:242-321 | A successful enable adds exactly the endpoints of the setting, none of them enabled before, and a disable under the same report undoes it. |
| InterfaceSelection.StoppedSwitchLeavesEndpoints | ex03/src/asf/common/services/usb/udc/udc.c:292-353 | An honest driver is not enough: when the second allocation of a change of setting is refused, a reset leaves endpoints 1 and 2 enabled. |
| InterfaceSelection.StepHolds | ex03/src/asf/common/services/usb/udc/udc.c:242-353 | Every call keeps the invariant behind these, that enabled endpoints are those of settings asked for and reported, until an interface is left with endpoints of a setting that its driver does not report; after that nothing is claimed. |
| DeviceCore.Udc.SetConfiguration | ex03/src/asf/common/services/usb/udc/udc.c:748-800 | Refused without effect if wLength is not 0, there is no address yet or no such configuration; else exactly the outcome of `InterfaceSelection.Configure`, for which ConfigureExactly says what is enabled and ConfigureSucceeds when it succeeds; the status is reset. |
| InterfaceSelection.ConfigureExactly | ex03/src/asf/common/services/usb/udc/udc.c:748-800 | From every state of the invariant a successful SET_CONFIGURATION leaves exactly the endpoints of all default settings enabled. |
| InterfaceSelection.ConfigureSucceeds | ex03/src/asf/common/services/usb/udc/udc.c:748-800 | With a controller and drivers that never refuse it succeeds if and only if the default settings of all interfaces are found and their endpoints are distinct, from 1 to 3 and not of control type. |
| InterfaceSelection.ConfigureAsksDrivers | ex03/src/asf/common/services/usb/udc/udc.c:292-321 | If it succeeds the driver of every interface was asked once and agreed. |
| InterfaceSelection.SwitchSucceeds | ex03/src/asf/common/services/usb/udc/udc.c:844-863 | With a controller and drivers that never refuse SET_INTERFACE succeeds if and only if the interface, the setting its driver reports and the new one are found and the endpoints of the new one can take the place of the old. |
| InterfaceSelection.SwitchAsksDriver | ex03/src/asf/common/services/usb/udc/udc.c:292-321 | If it succeeds one driver was asked and agreed. |
| CdcDevice.ConfigurationIsCdc | ex03/src/asf/common/services/usb/class/cdc/device/udi_cdc_desc.c:128-148 | The bytes of the configuration of the serial example: two interfaces with endpoints 3, and 1 and 2. |
| CdcDevice.Configures | ex03/src/asf/common/services/usb/class/cdc/device/udi_cdc_desc.c:128-161 | With a controller and drivers that never refuse, SET_CONFIGURATION(1) of this device succeeds from every state of the invariant and leaves exactly endpoints 0 to 3 enabled. |
| DeviceCore.Udc.SetInterface | ex03/src/asf/common/services/usb/udc/udc.c:844-863 | Refused without effect if wLength is not 0 or nothing is configured; else exactly the outcome of `InterfaceSelection.Switch`. |
| DeviceCore.Udc.GetInterface | ex03/src/asf/common/services/usb/udc/udc.c:809-835 | The setting that the driver reports, exactly for a length of one and an interface that is found. |
| DeviceCore.Udc.GetDescriptor | ex03/src/asf/common/services/usb/udc/udc.c:628-725 | Accepted if and only if there is a descriptor of the type and index asked for: the device descriptor, configuration block number index, the languages, or a string's descriptor with its length, its type and each character followed by a zero. No more than wLength bytes of it, and unless it is empty its second byte is the type. |
| DeviceCore.Udc.DescriptorGiven | ex03/src/asf/common/services/usb/udc/udc.c:628-725 | The same of the descriptor that the specification names. |
| DeviceCore.Udc.GetString | ex03/src/asf/common/services/usb/udc/udc.c:568-620 | The string descriptor of the index, characters as 16-bit units. |
| DeviceCore.Udc.StandardIn | ex03/src/asf/common/services/usb/udc/udc.c:871-906 | By the bytes of the packet: exactly [0x80, 6], [0x80, 8], [0x80, 0], [0x81, 10] and [0x82, 0] are answered, with the descriptor, the configuration's number, the device's status low byte first, the reported setting and the halt bit, each exactly for its length and where it exists, with no more than wLength bytes; all others are refused and nothing changes. |
| DeviceCore.Udc.StandardOut | ex03/src/asf/common/services/usb/udc/udc.c:907-945 | By the bytes of the packet: [0, 5] accepts with the address callback; [0, 1] clears bit 1 of the status and keeps all others; [0, 9] and [1, 11] have the outcome of the two selections; [2, 1] and [2, 3] clear and set one halt. Each exactly under its conditions on wLength, wValue, wIndex and the state; nothing else changes, and all others are refused without effect. |
| DeviceCore.Udc.CommSetup | ex03/src/asf/common/services/usb/class/cdc/device/udi_cdc.c:287-337 | Exactly [0xA1, 0x21] and [0x21, 0x20] with seven bytes and [0x21, 0x22] are accepted; the first two use the line coding, and only SET_LINE_CODING has a callback. |
| DeviceCore.Udc.IfaceRequest | ex03/src/asf/common/services/usb/udc/udc.c:953-977 | Refused unless the interface is configured and the setting its driver reports is found, and then the answer of the communication interface, by the bytes of the packet; the other interfaces refuse. |
| DeviceCore.Udc.ProcessSetup | ex03/src/asf/common/services/usb/udc/udc.c:993-1024 | For every SETUP packet in every state the answer and the new state of the device are exactly those that its bytes call for: 14 kinds of requests, each under its conditions, and for all others a refusal that changes nothing. So an IN request leaves no more than wLength bytes, and exactly an accepted SET_ADDRESS has the address callback. |
| DataEndpoints.Endpoints.Alloc | ex03/src/asf/avr32/drivers/usbb/usbb_device.c:681-753 | Succeeds if and only if the number is at most 3, not enabled and not of control type, and the controller grants one request for memory and one more for each enabled endpoint above it; then exactly that endpoint is enabled in addition. |
| DataEndpoints.AllocateExactly | ex03/src/asf/avr32/drivers/usbb/usbb_device.c:681-753 | The same of the specification of the two loops. |
| DataEndpoints.ReallocateStops | ex03/src/asf/avr32/drivers/usbb/usbb_device.c:715-753 | After a refusal exactly the endpoints above the refused one stay released. |
| DataEndpoints.Endpoints.Free | ex03/src/asf/avr32/drivers/usbb/usbb_device.c:756-761 | Disables the endpoint. |
| DataEndpoints.Endpoints.SetHalt | ex03/src/asf/avr32/drivers/usbb/usbb_device.c:770-796 | Halts an endpoint without a transfer. |
| DataEndpoints.Endpoints.ClearHalt | ex03/src/asf/avr32/drivers/usbb/usbb_device.c:799-820 | Clears a halt. |
| ClockSolver.ConfigureClocks | ex03/src/asf/avr32/drivers/pm/pm_conf_clocks.c:60-224 | Fails if and only if no divider below 32 and factor up to 15 give the frequency; else factor, divider and powers of two give exactly the CPU frequency. The factor is that of the least divider, doubled as often as keeps it at most 15 and the PLL below 240 MHz, and the divider is the odd part of that divider. The divider fits its four-bit field if and only if some d up to 15 makes 16 * cpu * d a multiple of the oscillator's frequency, and if and only if any setting with a divider up to 15 gives the frequency; above the oscillator's frequency it always fits. |
| ClockSolver.FindDivider | ex03/src/asf/avr32/drivers/pm/pm_conf_clocks.c:97-105 | The least divider that makes the factor whole. |
| ClockSolver.NoSolution | ex03/src/asf/avr32/drivers/pm/pm_conf_clocks.c:97-110 | Its factor is the least, so nothing solves the equation if that is too large. |
| ClockSolver.DividerExceedsField | ex03/src/asf/avr32/drivers/pm/pm_conf_clocks.c:83-86 | For 400 kHz from 12.4 MHz every setting has divider 31, more than the register field holds. |
| ClockSolver.FieldFitsExactly | ex03/src/asf/avr32/drivers/pm/pm_conf_clocks.c:97-117 | The two conditions for a divider that fits its field, for every frequency with a solution. |
| ClockSolver.LeastDivides | ex03/src/asf/avr32/drivers/pm/pm_conf_clocks.c:97-105 | The least divider divides every divider that makes the factor whole. |
| ClockSolver.OddDivider | ex03/src/asf/avr32/drivers/pm/pm_conf_clocks.c:112-117 | Moves the powers of two of the divider behind the PLL, keeping the frequency; what is left is the odd part of the divider. |
| ClockSolver.RaisePll | ex03/src/asf/avr32/drivers/pm/pm_conf_clocks.c:119-129 | Doubles the factor while it is at most 15 and the PLL stays below 240 MHz, and no further, keeping the frequency. |
| ClockSolver.DividePba | ex03/src/asf/avr32/drivers/pm/pm_conf_clocks.c:159-170 | The first exponent at which the request is hit within the bus maximum or, after a division, not reached; that is the least exponent whose rate is not above the request, if and only if the request is at most the PLL rate and is not hit exactly above the bus maximum. |
| CycleTimer.Timer.IsTimeout | ex03/src/asf/avr32/drivers/cpu/cycle_counter/cycle_counter.h:180-210 | Reports exactly when more than the delay has passed on the counter, wrapped or not, and from then on until stopped. |
| CycleTimer.WindowIsElapsed | ex03/src/asf/avr32/drivers/cpu/cycle_counter/cycle_counter.h:184-210 | Both branches of the test are the one condition on the elapsed count. |
| CycleTimer.NeverEarly | ex03/src/asf/avr32/drivers/cpu/cycle_counter/cycle_counter.h:180-210 | However far apart the polls are, a timeout is never reported early. |
| CycleTimer.DelayCycles | ex03/src/asf/avr32/drivers/cpu/cycle_counter/cycle_counter.h:293-298 | Polls closer together than 2^32 - 1 - delay end the wait at the first one after the delay. |
| CycleTimer.WaitMayNotEnd | ex03/src/asf/avr32/drivers/cpu/cycle_counter/cycle_counter.h:293-298 | The bound cannot be relaxed by one: there are polls at most 2^32 - delay apart that all miss the end of the delay. |
| CycleTimer.DelayMs | ex03/src/asf/avr32/drivers/cpu/cycle_counter/cycle_counter.h:262-267 | Never returns before the time asked for, if it fits 32 bits, and goes on polling only while no more than that, rounded up to a cycle, has passed. |
| CycleTimer.DelayUs | ex03/src/asf/avr32/drivers/cpu/cycle_counter/cycle_counter.h:278-283 | The same in microseconds. |
| CycleTimer.CyclesRoundUp | ex03/src/asf/avr32/drivers/cpu/cycle_counter/cycle_counter.h:81-101 | The conversion is the least number of cycles not shorter than the time, and long enough if and only if it fits 32 bits. |
| Philosophers.NeighboursNeverEat | ex02/src/main.c:26-39 | For any number from two on and every interleaving, neighbours never eat together. |
| Philosophers.NoDeadlock | ex02/src/main.c:26-39 | In every reachable state some philosopher can move. |
| Philosophers.HolderEats | ex02/src/main.c:26-39 | Once it has the pickup mutex a philosopher begins to eat before any schedule uses up the moves that are left. |
| Philosophers.EatingGoesOn | ex02/src/main.c:26-39 | From every reachable state and in every schedule of more than 3 * n + 4 moves some philosopher begins to eat. |
| Philosophers.EatsAndPutsBack | ex02/src/main.c:26-39 | A philosopher with free chopsticks eats after four moves of its own, whoever else is eating, and after two more everything is as before. |
| Philosophers.TwoEat | ex02/src/main.c:26-39 | Any two that are not neighbours can eat at the same time. |
| Philosophers.MoveUses | ex02/src/main.c:26-39 | Every move meanwhile uses up one of them. |
| Philosophers.MoveHolds | ex02/src/main.c:26-39 | Every move keeps each mutex with the owner that the places of the threads say. |
| Philosophers.Table.Advance | ex02/src/main.c:26-39 | One statement of a thread, with its mutex updated in place. |

## Left out

- `udi_cdc_read_buf`: it copies from the transmit buffer, so no receive property holds of it.
- A second `udi_cdc_data_enable` while data is under way, and `udi_cdc_data_disable`, which is empty.
- The CDC serial-state notification, and sleeping and waking of the USB driver.
- Callbacks that exchange the payload in the middle of a data stage (`over_under_run`): none is ever registered.
- Interrupts and SETUP packets that arrive inside a handler of the control endpoint: a handler is one step.
- The transfers of the data endpoints below `udd_ep_run`: CDC sees them start, move bytes, finish, abort or be refused.
- A stall or clear of endpoint 0 by request, which indexes the job table before its start.
- High-speed, OTG and test-mode requests, remote wake-up, extra strings and vendor requests: not compiled in.
- Erase-all, security bit, region lock bits, wait states and interrupt enables of the flash controller.
- FlashDriver.Flashc.MemCpy: ranges that wrap around the end of the address space and areas on both sides of address 2^31 are excluded, and the source is a value, so it cannot overlap the destination.
- FlashDriver.Flashc.IssueCommand: a page is named by its start address instead of its number, and waiting for the controller is instantaneous.
- FuseDriver.GetProtectedSize: position and width of the BOOTPROT field come from the part's header, which is not part of this model; 17 and 3 are those of the UC3 parts.
- UsbDevice.ControlEndpoint.OutReceived: the payload is a value; that it is the line coding itself during SET_LINE_CODING is modelled by storing in both, and what the application does with a new line coding is left out.
- DeviceCore.Udc.ProcessSetup: the drivers of the interfaces other than CDC communication answer nothing.
- DeviceCore.Udc.IfaceEnable: whether a driver can be enabled and which setting it then reports are parameters; a report changes only when its driver is enabled.
- DeviceCore.Udc.UpdateIfaceDesc: an interface descriptor too short for its two numbers is excluded, because the code would read them beyond it.
- FuseDriver.SetFuseField: widths from 2^31 on are excluded, here and for the other fields, because the signed minimum does not clip them; the interface documents 0 to 64.
- FuseDriver.EraseFuseField: a check with a width of 64 is excluded, because the code then shifts a 64-bit number by 64.
- DataEndpoints.Endpoints.Alloc: banks, sizes and the memory of the endpoints are left out; whether an allocation succeeds is a parameter.
- ClockSolver.ConfigureClocks: the writes to the clock registers, the waits and the flash wait states are left out; frequencies are such that 31 times each fits 32 bits.
- CycleTimer.DelayCycles: the polls are given as times on an unbounded clock; their distance is bounded, because otherwise the wait may not end (`CycleTimer.WaitMayNotEnd`).
- Philosophers.HolderEats: the mutexes are not fair, so that every philosopher gets the pickup mutex is not claimed.
- The other exercises: library calls, input and output, floating point, and scheduler assumptions that the code does not establish.
