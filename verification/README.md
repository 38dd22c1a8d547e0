# The ZEPboot swap engine, modelled and proved in Dafny

ZEPboot is a bootloader that exchanges two firmware images of different lengths between two flash slots, one erase
sector at a time, with one spare sector, decrypting or re-encrypting on the way. After every step it appends the next
step to a log in flash, so that it can go on after a power loss. This project models that machine, the flash log and
the sector cipher under it, the image header that supplies the lengths, the boot decisions around it, and the tool
that makes the images, and proves what they keep.

The program text works by changing things step by step, so the model does too: a `FlashDevice` class with erase and
aligned, erased-only writes, and methods with loops for every routine that has them. Each method is proved equal to a
function of the old flash contents; the laws are lemmas about those functions, over all inputs, runs and interruptions.

| file | models |
|---|---|
| `Bytes.dfy`, `Flash.dfy`, `Requests.dfy` | octets, flash contents; the slot area, alignment, erase, write, read, and what a power loss leaves; the requests of a step and of a run |
| `CmdLog.dfy`, `Params.dfy` | command records with crc8, "last valid record wins"; the stored parameters and versions |
| `Ctr.dfy`, `Move.dfy` | AES counter mode (section 6.5 and Appendix B.1 of NIST SP 800-38A); `zb_img_move` |
| `Digest.dfy`, `Header.dfy` | chunked hash and crc over flash; TLV area and image info |
| `Swap.dfy`, `Images.dfy`, `Runs.dfy` | the machine as functions; where every octet of both images is at each phase and sector; whole runs and the record budget |
| `Turns.dfy`, `TooLong.dfy` | turns with whatever image info; images too long to count |
| `Recovery.dfy`, `AsWritten.dfy`, `Lost.dfy` | power losses, and reading the image info again; runs of the code as written that end as they should; what becomes of the others |
| `AfterSwap.dfy`, `Finish.dfy` | the headers, parameters and records once the images are in place |
| `Engine.dfy` | `zb_img_cmd_proc` and its helpers as methods over the device |
| `Boot.dfy`, `BootLaws.dfy`, `BootRuns.dfy` | `zb_img_check`, `zb_img_swap`, `main`; restore and permanence over sequences of boots |
| `Booted.dfy`, `LaterBoots.dfy` | what boots, and its version; the same after later commands, restores, power losses and any number of boots |
| `Decisions.dfy` | exactly which requests are carried out, what is recorded and which address is booted |
| `Tool.dfy` | `Image.create` and `Image.add_header`, and the way of an image from the tool to the device |
| `Update.dfy` | a whole update, from the tool to the address that boots |

## Main results

- **Full swap** (`Engine.ImgCmdProc`, `Runs.FullSwap`): for all image lengths, with or without an old image, classic
  or in place, the run ends and both images are where they belong, headers unchanged, each body one counter-mode pass.
  Every write of the run is a log record or goes to blocks of a slot that the run has erased since they were last
  written (`Requests.AllErased`, `Requests.ErasedBetween`).
- **Nothing is lost, restart safety** (`Runs.NothingLost`, `Recovery.CrashSafeResult`): with the image info held fixed,
  any number of power losses at any octet of a step or of its record leads to the same two images, and to the same
  kind of records (`Finish.CrashRecords`).
- **Exactly where the code's own recovery is right**: when the info read again is (`Recovery.ReloadExact`), and when a
  restart in P1 or P2 with the wrong info still ends right (`Lost.RestartExact`, `Lost.InplaceGoneExact`): it depends
  on phase, sector and lengths which slot has to hold its whole image already, and elsewhere a sector of slot 0 ends up
  as a copy of the wrong sector. Where sector numbers alone show that nothing is left to get wrong, a restart is as good
  as one with the right info (`AsWritten.HarmlessServes`, `Lost.PositionShows`). With resets in all these places a run
  of the code as written leaves the images, the records and the boot of an undisturbed run (`AsWritten.AsWrittenResult`,
  `AsWritten.AsWrittenRecords`, `LaterBoots.AsWrittenBoots`).
- **Exact budget** (`Runs.BudgetExact`): the run ends if and only if the log has room for the turns that are left.
- **There and back** (`BootRuns.RestoreUndoes`, `BootRuns.ExactlyOneRestore`): after a temporary swap, over any number
  of boots, exactly one restore takes place. It undoes the swap, octet for octet, if and only if there was an image in
  slot 0; a temporary swap into an empty slot 0 stays. `BootRuns.MadePermanent` and `BootRuns.SettledForever` are the
  other cases, `BootRuns.CutStart` adds power losses while a swap is being started.
- **What was swapped in is what boots** (`Booted.BootsNew`, `LaterBoots.StillBoots`), also after commands the application
  writes, and for any number of boots (`LaterBoots.KeepsBooting`, `LaterBoots.CommandBoots`, `LaterBoots.RestoreBoots`).
- **Only genuine images are swapped in by request** (`Decisions.AcceptedExact`, `Decisions.SwapsStarted`): a request is
  carried out exactly for an image whose signature verifies and whose body has the signed hash, that fits, and that is
  not older than the one on record. In-place images stay where they are for good (`Decisions.InplaceSettles`).
- **Only checked images boot** (`Decisions.BootedExact`, `Decisions.BootedIsChecked`, `LaterBoots.DamagedNotBooted`): an
  image damaged since its crc32 was stored is not booted.
- **Versions on record never go back by request** (`Booted.VersionsNeverGoBack` for slot 0, and
  `Decisions.InplaceVersionsNeverGoBack` for slot 1), over histories that mix boots which refuse a request, make a swap
  permanent, find nothing to do, or carry out a request; `Booted.RequestKeepsExact` and `Decisions.InplaceKeepsExact`
  have the one exception.
- **From the tool to the device** (`Tool.ParsePrinted`, `Tool.PaddingExact`, `Tool.ToolToDevice`).
- **A whole update** (`Update.WholeUpdate`): an image made by the tool, placed in slot 1 and requested, is after one boot
  in slot 0 with its body in the clear, the old image is in slot 1, and main boots the new one; made permanent, it stays
  so (`Update.UpdateStays`), and from the address booted on lie the very octets the tool was given
  (`Update.PlainImageRuns`). `Update.UpdateReady` shows that everything the swap relies on holds for images made by the
  tool that fit the slots.

## What the proofs rely on

Most of this the program assumes without checking it. It is stated in `Flash.Area.Ok`, `Images.Setup.Ok`,
`AfterSwap.HeadersOk` and the preconditions of the methods:

- one flash device for both slots and the swap status area (bootloader/src/slotmap.c), erased octets 0xff, write block
  1, 2, 4 or 8; sectors a multiple of 16 and at least 32 octets; slots and swap status area disjoint, whole sectors;
- both images leave the last sector of both slots free and have at most 255 sectors (the sector number is one octet:
  `TooLong.LengthExact` shows that this is exactly what a run needs to end, classic or in place, but for an in-place
  image without an encrypted part, of which nothing has to be moved); an encrypted body starts a multiple of 16 into its
  slot; `Booted.AcceptedOk` says which part of this `zb_img_check` guarantees;
- a header that carries the magic word is complete, fits the first sector and the 1024-octet buffer, and consists of
  whole entries; the new image has a valid header;
- a record whose write is cut short is still blank or fails its crc8; an erase of the swap status area that is cut short,
  before a swap starts, leaves nothing that looks like a swap going on (`BootRuns.CutStart` has both cases);
- AES, SHA-256, the signature check, key derivation and one crc32 step are arbitrary functions (`Digest.Crypto`).

## Where the program differs from its documentation

- docs/design.md counts three records per sector and one to start. The machine needs m + 2 max(m, n) + 5 records,
  with the start record, for m old and n new sectors; `Runs.DocumentedBudget` gives the exact condition under which
  the documented size suffices. With a full log the same step repeats for ever, because the result of the log write
  is overwritten (zepboot/src/zb_move.c:304 and 153).
- docs/design.md promises that an interrupted step is restarted. After a restart the image info is read again; in
  classic P1 and P2 it is then wrong, because both slots are read the other way round or, at sector 0, the header of
  the new image is looked for one sector too high. The steps that follow can erase the only copy of a sector
  (`Lost.RestartInP1Loses`, `Lost.RestartInP2Loses`, `Lost.RestartAtHeaderLoses`) or leave sectors out
  (`Lost.RestartSkipsRest`); `Lost.RestartExact` says exactly when they do no harm.
- The branch of phase 3 that is meant to disable the restore of "bad image/no image" is never taken after a swap with
  a valid new image: without an old image slot 1 still holds the new one (`Finish.P3Writes`), so a temporary swap
  into an empty slot 0 is followed by a restore like any other (`BootLaws.NextBoot`). That restore undoes nothing: it
  puts the new image into slot 0 once more, and the temporary swap is final (`BootRuns.ExactlyOneRestore`).
- A swap request with cmd1 0x90 for slot 0, and no other, is logged as 0x80, the error mark. The swap is never done, and
  no later boot looks at a request again (`BootRuns.ErrorRequestExact`).
- An image that asks for the load address 0xffffffff makes the stored parameters read as absent, and with them the
  version on record (`Booted.RequestKeepsExact`).
- A request that is refused because of its image still makes a temporary swap permanent when it carries that flag
  (`BootRuns.RestoreExact`).

## Model

| member | source | states |
|---|---|---|
| `Bytes.XorTwice` | zepboot/src/zb_aes.c:42-43 | the same mask twice restores the octet |
| `Bytes.XorBit` | zepboot/src/zb_aes.c:42-43 | a bit of the result is set if and only if it is set in exactly one of the two octets |
| `Ctr.IncrementCounter` | zepboot/src/zb_aes.c:32-36 | the carry loop gives the counter plus one, wrapping around |
| `Ctr.BumpAddsOne` | zepboot/src/zb_move.c:438-442 | that carry adds one to the big-endian value, modulo 256 to the length |
| `Ctr.BumpedAt` | zepboot/src/zb_aes.c:32-36 | the carry stops at the last octet below 0xff and clears those after it |
| `Ctr.ValueOfBigEndian` | zepboot/src/zb_aes.c:26 | every counter array is the big-endian form of its value |
| `Ctr.BigEndianValue` | zepboot/src/zb_aes.c:26 | the value of the big-endian form is the number modulo 256 to the length |
| `Ctr.NextKeyBlock` | zepboot/src/zb_aes.c:30-40 | the key block of the counter, and the counter moved on by one |
| `Ctr.PassIsBlocks` | zepboot/src/zb_aes.c:28-44 | a pass combines every sixteen octets with the cipher of the counter array itself, which then is carried on by one |
| `Ctr.LittleEndian` | zepboot/include/zb_flash.h:282-292 | a stored word has its low-order octets first |
| `Ctr.CtrOctet` | zepboot/src/zb_aes.c:28-44 | one octet XORed with its key stream octet; a new block exactly every 16 octets |
| `Ctr.AesCtrMode` | zepboot/src/zb_aes.c:17-48 | the buffer is one counter-mode pass over its old contents, starting with the cipher of the counter array as it was; the counter has advanced by the blocks begun |
| `Ctr.CtrPassTwice` | zepboot/src/zb_aes.c:17-48 | two passes from the same counter restore the buffer |
| `Ctr.CtrPassSplit` | zepboot/src/zb_aes.c:17-48 | a pass over a concatenation is two passes, the second with the counter moved on |
| `Flash.AlignSizeMask` | zepboot/src/zb_flash.c:19-28 | the aligned size is the masked sum the source computes |
| `Flash.AlignSizeFacts` | zepboot/src/zb_flash.c:19-28 | the aligned size is the next multiple of the write block |
| `Flash.RoundDownFacts` | zepboot/src/zb_flash.c:30-39 | the aligned offset is the last multiple of the write block at or below |
| `Flash.SlotAddresses` | zepboot/src/zb_flash.c:151-168 | the addresses of a slot, or of RAM, are those of its own octets; no address belongs to both slots |
| `Flash.FlashDevice.FlashErase` | zepboot/src/zb_flash.c:41-64 | exactly the sectors named become blank |
| `Flash.FlashDevice.FlashProgram` | zepboot/src/zb_flash.c:87 | the driver's contract: whole aligned blocks, erased since they were last written |
| `Flash.FlashDevice.FlashWrite` | zepboot/src/zb_flash.c:66-109 | exactly the data is written, padding leaves flash blank, and the requests cover the aligned range exactly once |
| `Flash.FlashDevice.FlashRead` | zepboot/src/zb_flash.c:111-118 | the buffer holds the octets of flash |
| `Flash.PutTail` | zepboot/src/zb_flash.c:85-104 | whole blocks followed by a padded tail are the data, on blank flash |
| `Flash.ReplayStaysInside` | zepboot/src/zb_flash.c:41-109 | requests that stay in a range change nothing outside it |
| `Flash.CutShortStaysInside` | docs/design.md:124-128 | nor do they when power is lost during any of them |
| `Flash.ChainWritesOnce` | zepboot/src/zb_flash.c:85-104 | of a chain of writes no octet is written twice |
| `CmdLog.DocumentedTemporarySwap` | docs/usage.md:23 | the documented command is stored as 10 00 00 89 |
| `CmdLog.DocumentedPermanentSwap` | docs/usage.md:37 | the documented command is stored as 11 00 00 e2 |
| `CmdLog.DocumentedMakePermanent` | docs/usage.md:30 | the documented command is stored as 01 00 00 40 |
| `CmdLog.DocumentedBootSlot0` | docs/usage.md:45 | the documented command is stored as 20 00 00 68 |
| `CmdLog.MoveUpRecord` | zepboot/include/zb_flash.h:183-190 | a record with a phase and a sector number, octet for octet |
| `CmdLog.CrcFindsOctet` | zepboot/src/zb_flash.c:175-185 | a change of any single octet of a command changes its check octet |
| `CmdLog.RecordIsNotEmpty` | zepboot/src/zb_flash.c:175-185 | no stamped command equals the unused record |
| `CmdLog.AppendAddsLast` | zepboot/src/zb_flash.c:334-380 | a write adds one command at the end and takes one record; a full log is left alone |
| `CmdLog.TornKeepsCommands` | docs/design.md:118-119 | a torn record adds no command and takes at most one record |
| `CmdLog.LogHistory` | docs/design.md:118-128 | after an erase and any mix of writes and torn records the log holds exactly the complete commands, in order |
| `CmdLog.ErasedLog` | zepboot/src/zb_flash.c:219-258 | an erased log is empty and holds its size divided by the aligned record size |
| `CmdLog.ChecksExact` | zepboot/src/zb_flash.c:300-303 | a record passes its check if and only if its octets are those of a stamped command |
| `CmdLog.LastExact` | zepboot/src/zb_flash.c:283-314 | the command found is that of the newest record that passes its check, among those before the first unused one; none exactly when there is no such record |
| `CmdLog.SameCommands` | zepboot/src/zb_flash.c:283-314 | the log depends on its own region only |
| `CmdLog.CmdRead` | zepboot/src/zb_flash.c:260-317 | returns the last valid command, or not-found exactly when there is none, and what the buffer is left with |
| `CmdLog.CmdWrite` | zepboot/src/zb_flash.c:334-380 | fails exactly when no record is free; otherwise appends, in one aligned record |
| `Params.PrmRoundTrip` | zepboot/src/zb_flash.c:398-419 | parameters written are the parameters read |
| `Params.VersionOrder` | zepboot/src/zb_image.c:139-143 | packed versions are ordered lexicographically by major, minor, revision |
| `Params.VersionOctets` | zepboot/src/zb_image.c:139-143 | the packed version spells major, minor and revision, most significant octet first |
| `Params.PrmOctets` | zepboot/include/zb_flash.h:282-292 | the six words lie in flash in the order of the structure |
| `Params.BlankPrm` | zepboot/src/zb_flash.c:398-411 | erased flash holds no parameters |
| `Digest.CrcFoldConcat` | zepboot/src/zb_ec256.c:157 | feeding two pieces is feeding their concatenation |
| `Digest.FlashCrcSteps` | zepboot/src/zb_ec256.c:144-164 | the crc32 of nothing is 0, and one more octet of flash is one more step |
| `Digest.Crc32Flash` | zepboot/src/zb_ec256.c:138-168 | chunked aligned reads feed exactly the octets asked for |
| `Digest.HashFlash` | zepboot/src/zb_ec256.c:96-136 | the same for SHA-256 |
| `Header.FindInFirst` | zepboot/src/zb_image.c:58-62 | the search finds the first entry of its type and misses none |
| `Header.StepTlv` | zepboot/src/zb_tlv.c:58-69 | reads the entry, moves on by at least two octets, and what is left to search is the rest |
| `Header.FindEntry` | zepboot/src/zb_image.c:58-62 | the search loop returns the value of the first entry of the type, or ends without it |
| `Header.OpenTlvArea` | zepboot/src/zb_tlv.c:17-56 | succeeds exactly with the magic word and, when asked, a valid signature; the buffer then holds the area |
| `Header.ImgGetInfo` | zepboot/src/zb_image.c:21-119 | the info is the one the header spells, with and without the checks of signature and body |
| `Header.ValidExact` | zepboot/src/zb_image.c:58-118 | an image is valid if and only if type, info and hash entries of the right length are there, the hash is right if checked, and the key is usable |
| `Header.ValidInfo` | zepboot/src/zb_image.c:80-116 | where a valid image lies, is loaded to and is encrypted from, in terms of its entries |
| `Header.NoHeader` | zepboot/src/zb_image.c:43-56 | without the magic word there is no image, and every place is the start of the slot |
| `Header.CheckedExact` | zepboot/src/zb_tlv.c:31-48 | an image passes the checks if and only if it is valid, the signature of its area verifies, and its hash entry is the hash of its body |
| `Header.InfoBounds` | zepboot/src/zb_image.c:43-117 | start, end and encryption start in order, whatever the header says |
| `Move.MoveDataIsCrypt` | zepboot/src/zb_move.c:414-478 | every octet of a moved sector gets the key stream octet of one pass over the whole body |
| `Move.SectorsAreOnePass` | zepboot/src/zb_move.c:414-478 | the outputs for all sectors, joined, are the clear part and one pass from counter zero |
| `Move.SectorIndependenceExact` | zepboot/src/zb_move.c:435-444 | block and offset agree with the continuous pass if and only if the piece starts a multiple of 16 in |
| `Move.SkipCounter` | zepboot/src/zb_move.c:435-444 | the counter is the number of blocks between encryption start and piece |
| `Move.SkippedIs` | zepboot/src/zb_move.c:435-444 | the first counter is the least number of blocks that reaches the piece from the start of the encrypted part |
| `Move.ReadChunk` | zepboot/src/zb_move.c:456-460 | one piece, clear or decrypted, and the counter for the next |
| `Move.MoveChunk` | zepboot/src/zb_move.c:449-475 | one turn of the chunk loop: the next piece is moved, written once, and the counter is right for the next |
| `Move.ImgMove` | zepboot/src/zb_move.c:414-478 | the chunk loop writes the moved data and nothing else; its writes cover the aligned target exactly once |
| `Engine.GetImgSwpInfo` | zepboot/src/zb_move.c:94-142 | reads the two infos from the slots and offsets the command selects; RAM images count as clear |
| `Requests.ErasedBetween` | zepboot/src/zb_flash.c:41-109 | between two writes of a run to the same octet of a slot there is an erase of all that the later one writes |
| `Requests.BurstErased` | zepboot/src/zb_move.c:246-253 | the requests of a step write only to blocks of their slot that they have erased first |
| `Engine.EraseAndMove` | zepboot/src/zb_move.c:246-253 | one erase of the target sector, then writes that cover the piece exactly once, all inside the sector |
| `Engine.ImgCmdProcP3Wrt` | zepboot/src/zb_move.c:53-87 | parameters of both images and the command, written to the erased last sector of slot 0 |
| `Engine.CountSectors` | zepboot/src/zb_move.c:207-211 | the loop counts the sectors above the first, in one octet |
| `Engine.MoveUp` | zepboot/src/zb_move.c:216-223 | the step of MOVE_UP, inside its target sector |
| `Engine.Phase1` | zepboot/src/zb_move.c:245-253 | the step of P1, inside its target sector |
| `Engine.Phase2` | zepboot/src/zb_move.c:266-274 | the step of P2, inside its target sector |
| `Engine.Phase3` | zepboot/src/zb_move.c:282-289 | the step of P3, inside the last sector of slot 0 |
| `Engine.Phase4` | zepboot/src/zb_move.c:291-297 | the step of P4: the last sector of slot 1 is erased |
| `Engine.CaseStart` | zepboot/src/zb_move.c:186-214 | the command that follows START, in all four branches |
| `Engine.CaseMoveUp` | zepboot/src/zb_move.c:216-234 | step and next command of MOVE_UP |
| `Engine.CaseP1` | zepboot/src/zb_move.c:236-255 | step and next command of P1 |
| `Engine.CaseP2` | zepboot/src/zb_move.c:256-281 | step and next command of P2 |
| `Engine.CaseP3` | zepboot/src/zb_move.c:282-290 | step and next command of P3 |
| `Engine.CaseP4` | zepboot/src/zb_move.c:291-299 | step and next command of P4 |
| `Engine.CmdStep` | zepboot/src/zb_move.c:184-303 | the switch, with the right image info or one that serves as well: flash and next command are those of the machine, and all requests are one erase of the step's target and writes that cover a part of it once |
| `Engine.OneTurn` | zepboot/src/zb_move.c:152-305 | one turn of the loop is one turn of the machine, the info at hand goes on to serve, and every write goes to erased blocks |
| `Engine.ImgCmdProc` | zepboot/src/zb_move.c:144-316 | from any point of a run: ends after exactly the turns left, both images swapped, one record per turn, every write to erased blocks |
| `Engine.EraseSwpstat` | zepboot/src/zb_flash.c:224-234 | exactly the swap status area becomes blank |
| `Engine.EraseSlt0End` | zepboot/src/zb_flash.c:236-246 | exactly the last sector of slot 0 becomes blank |
| `Engine.EraseSlt1End` | zepboot/src/zb_flash.c:248-258 | exactly the last sector of slot 1 becomes blank |
| `Images.SectorMoveAt` | zepboot/src/zb_move.c:246-253 | a moved sector, octet by octet, and nothing outside the target |
| `Images.MoveUpStep` | zepboot/src/zb_move.c:216-234 | MOVE_UP keeps both images intact at the places the next command gives |
| `Images.P1Step` | zepboot/src/zb_move.c:236-255 | so does P1 |
| `Images.P2Step` | zepboot/src/zb_move.c:256-281 | so does P2, classic and in place, where source and target overlap by all but one sector |
| `Images.P3Inside` | zepboot/src/zb_move.c:282-290 | P3 writes only the last sector of slot 0 and leaves one command there |
| `Runs.StartStep` | zepboot/src/zb_move.c:186-214 | START leaves both images where the first step expects them |
| `Runs.StepKeeps` | zepboot/src/zb_move.c:184-303 | every step keeps every octet of both images, at places given by phase and sector alone |
| `Runs.NothingLost` | zepboot/src/zb_move.c:216-281 | whatever an unfinished step did to its target, no octet of either image is lost |
| `Runs.TargetFits` | zepboot/src/zb_move.c:216-297 | the target of a step is one sector inside its slot |
| `Runs.TargetOutsideLog` | zepboot/src/zb_move.c:18-51 | no step touches the swap status area |
| `Runs.IterKeeps` | zepboot/src/zb_move.c:152-305 | a turn keeps the state of the run and takes one turn and one record |
| `Runs.IterStuck` | zepboot/src/zb_move.c:304 | with a full log the same command is current again |
| `Runs.RunToEnd` | zepboot/src/zb_move.c:152-305 | with enough records the run ends after exactly the turns left |
| `Runs.NeverEnds` | zepboot/src/zb_move.c:152-305 | with fewer it never ends |
| `Runs.BudgetExact` | zepboot/src/zb_move.c:184-305 | a run ends if and only if the log has room for the turns left |
| `Runs.BudgetAtStart` | zepboot/src/zb_move.c:186-299 | m + 2 max(m, n) + 4 turns for a classic swap, 2 m + 4 or 3 in place |
| `Runs.DocumentedBudget` | docs/design.md:198-200 | the documented log size suffices if and only if the old image is four sectors shorter |
| `Runs.EndImages` | zepboot/src/zb_move.c:184-305 | the end of a run means both images are swapped |
| `Runs.FullSwap` | zepboot/src/zb_move.c:144-316 | from start to end: exact turns, exact records, whole images |
| `Runs.EndRecord` | zepboot/src/zb_move.c:256-299 | the last record of a run, octet for octet: flags as at the start, end of swap, number of sectors |
| `Turns.StepInside` | zepboot/src/zb_move.c:184-303 | with whatever image info, a step writes only in the target that info gives |
| `Turns.TurnLogs` | zepboot/src/zb_move.c:304 | with whatever image info, a turn logs the next command, or with a full log leaves the current one |
| `TooLong.TooLongNeverEnds` | zepboot/src/zb_move.c:262 | with more than 255 sectors that have to be moved a swap, classic or in place, goes round for ever, whatever the log holds |
| `TooLong.GoesRound` | zepboot/src/zb_move.c:256-265 | such a swap passes sector after sector modulo 256, and is where it was after 512 turns, or 256 in place |
| `TooLong.StartWraps` | zepboot/src/zb_move.c:198-214 | of an old image of more than 256 sectors only the number modulo 256 is moved up |
| `TooLong.ClearEnds` | zepboot/src/zb_move.c:189-197 | an in-place image without an encrypted part ends in three turns, however long it is |
| `TooLong.LengthExact` | zepboot/src/zb_move.c:161 | a swap with room in the log ends if and only if neither image has more than 255 sectors or nothing has to be moved |
| `Recovery.EventKeeps` | docs/design.md:124-128 | a turn, a cut step or a torn record keeps the state of the run |
| `Recovery.StepCutShort` | docs/design.md:121-128 | power lost during any flash request of a step is such a cut step |
| `Recovery.CrashSafe` | docs/design.md:124-128 | any number of power losses: the invariant, the turns and the records |
| `Recovery.CrashSafeResult` | docs/design.md:110-128 | such a run ends exactly with the full number of turns, with the images of an undisturbed run |
| `Recovery.ReloadStable` | zepboot/src/zb_move.c:94-142 | at START, MOVE_UP and in-place P2 past sector 0 the info read again is the info of the run |
| `Recovery.HeaderThereReloads` | zepboot/src/zb_move.c:102-118 | at sector 0 with the header whole in its place, as directly after the last MOVE_UP in place, it is as well |
| `Recovery.ReloadWrong` | zepboot/src/zb_move.c:102-112 | in classic P1 and P2 it is not, and how |
| `Recovery.ReloadExact` | zepboot/src/zb_move.c:94-142 | right if and only if the phase is one of those, or, at sector 0 of P1 and P2, the header is found whole where the code looks for it |
| `Recovery.InplaceHeaderGone` | zepboot/src/zb_move.c:114-118 | in-place P2 at sector 0 after its erase: no image is found and the run goes on to P3 |
| `Recovery.MixedUp` | zepboot/src/zb_move.c:108-111 | past sector 0 of classic P1 and P2 the info read again is that of slot 1's image as the one to move away, and of slot 0's new image as the one to move in |
| `Recovery.HeaderMissed` | zepboot/src/zb_move.c:104-107 | at sector 0 it has no new image, and the old one as it is |
| `Lost.RestartInP1Loses` | zepboot/src/zb_move.c:108-111 | a restart in P1 past sector 0 erases the only copy of a sector of the new image |
| `Lost.RestartInP2Loses` | zepboot/src/zb_move.c:108-111 | a restart in P2 past sector 0 erases the sector of the new image that P1 has just moved |
| `Lost.RestartAtHeaderLoses` | zepboot/src/zb_move.c:104-107 | so does a restart in P1 at sector 0 with an old image, two turns later |
| `Lost.RestartSkipsRest` | zepboot/src/zb_move.c:104-107 | a restart in P1 or P2 at sector 0 without an old image goes on to P3, with at most one sector of the new image moved |
| `Lost.RunSpares` | zepboot/src/zb_move.c:152-305 | a run with wrong info ends after the turns counted, and leaves alone what none of its steps reaches |
| `Lost.SwappedIs` | zepboot/src/zb_move.c:245-274 | a swap has done its work if and only if each slot holds its whole image |
| `Lost.RestartExact` | zepboot/src/zb_move.c:94-142 | exactly when a restart in classic P1 or P2 still ends right: if slot 0, or past the end of a shorter new image slot 1, already holds its whole image; elsewhere, which wrong sector slot 0 gets |
| `Lost.PositionShows` | zepboot/src/zb_move.c:236-281 | where the sector number shows it, slot 0 holds the new image and such a restart ends right |
| `Lost.InplaceGoneExact` | zepboot/src/zb_move.c:114-118 | in place with the header gone: right if and only if slot 1 already holds the whole image as it is to be |
| `AsWritten.ServesStep` | zepboot/src/zb_move.c:236-281 | with both images through, or the one sector of the new image, wrong info does in every step what the right one does |
| `AsWritten.HarmlessServes` | zepboot/src/zb_move.c:94-142 | the condition on phase, sector and lengths under which the info read again in classic P1 and P2 is of that kind |
| `AsWritten.RecoversInfo` | zepboot/src/zb_move.c:94-142 | wherever a restart recovers, the info read again serves |
| `AsWritten.ShortTurnKeeps` | zepboot/src/zb_move.c:256-265 | the restart that finds the one sector of the new image moved to an empty slot 0 goes on to P3 two turns early, with both images in place |
| `AsWritten.AsWrittenIsRun` | zepboot/src/zb_move.c:144-316 | without that restart, a run of the code as written with resets where it recovers is, event for event, a run with the info held fixed |
| `AsWritten.AsWrittenResult` | zepboot/src/zb_move.c:144-316 | restart safety of the code as it is, with resets wherever it recovers: the images and the number of turns |
| `AsWritten.AsWrittenRecords` | zepboot/src/zb_move.c:282-299 | and the records |
| `AfterSwap.FinalHeaders` | zepboot/src/zb_move.c:245-274 | headers arrive unchanged with their images |
| `AfterSwap.FinalInfos` | zepboot/src/zb_image.c:21-119 | the info read from either slot after a swap is the old info, moved along |
| `Finish.P3Writes` | zepboot/src/zb_move.c:53-87 | phase 3 stores the parameters of the images as they are, and the run's own command: the branch that disables the restore is not taken |
| `Finish.EventLate` | zepboot/src/zb_move.c:282-299 | a turn, a cut step or a torn record in P3 or P4 keeps those records true |
| `Finish.RunRecords` | zepboot/src/zb_move.c:282-299 | a finished run leaves the parameters of the images as they are, its command in slot 0, and a blank end of slot 1 |
| `Finish.CrashRecords` | docs/design.md:110-128 | so does a run with any number of power losses |
| `Boot.ReadPrm` | zepboot/src/zb_flash.c:398-412 | the stored parameters, or none when the first word is blank |
| `Boot.ImgCheck` | zepboot/src/zb_image.c:145-191 | acceptance: validity, slot by load address, size and version, in this order |
| `Boot.StartSwap` | zepboot/src/zb_move.c:351-352 | the log holds the start command alone |
| `Boot.RequestPermanent` | zepboot/src/zb_move.c:362-372 | the make-permanent branch, with its not-found case |
| `Boot.PermanentOrRestore` | zepboot/src/zb_move.c:362-387 | make permanent, then restore if the command in slot 0 is not permanent |
| `Boot.PrepareSwap` | zepboot/src/zb_move.c:331-387 | the whole decision: going on, requested, permanent, restore |
| `Boot.ImgSwap` | zepboot/src/zb_move.c:318-395 | decision and, if there is a swap, its run to the end; the return value |
| `Boot.CrcOfSlot` | zepboot/src/zb_image.c:133-137 | the crc of the image that a slot's header describes |
| `Boot.ChooseAddress` | bootloader/src/main.c:54-85 | the address booted, with the fallback to the second address and the crc checks |
| `Boot.BootMain` | bootloader/src/main.c:35-95 | swap, then address, for the area that is booted |
| `BootLaws.StartLogged` | zepboot/src/zb_move.c:351-352 | a started swap has an otherwise empty log of known room, and touches nothing else |
| `BootLaws.AfterRun` | zepboot/src/zb_move.c:331-340 | after a run no swap is going on and nothing is asked for |
| `BootLaws.NextBoot` | zepboot/src/zb_move.c:374-387 | the next boot restores if and only if the run was not marked permanent, and otherwise changes nothing |
| `BootLaws.BackHeaders` | zepboot/src/zb_move.c:94-142 | the way back is a swap, of the image in slot 0 and the one slot 1 holds, with or without an old image |
| `BootLaws.CryptTwice` | zepboot/src/zb_move.c:33-51 | moving an octet there and back restores it |
| `BootLaws.ThereAndBack` | zepboot/src/zb_move.c:33-51 | two swaps restore both images; into an empty slot 0 the second one leaves both slots as the first |
| `BootRuns.BootIsImgSwap` | zepboot/src/zb_move.c:389-392 | the flash of an undisturbed boot is the flash `Boot.ImgSwap` leaves |
| `BootRuns.FreshRun` | zepboot/src/zb_move.c:340-358 | a swap started afresh ends with its images, parameters and records |
| `BootRuns.RestoreRuns` | zepboot/src/zb_move.c:374-391 | the boot after a temporary swap runs the way back to its end, with its own records |
| `BootRuns.RestoreUndoes` | zepboot/src/zb_move.c:374-391 | the boot after a temporary swap undoes it, octet for octet, if and only if there was an old image; the state it leaves is final |
| `BootRuns.ExactlyOneRestore` | zepboot/src/zb_move.c:374-387 | the same over any number of boots, and both slots unchanged when slot 0 was empty |
| `BootRuns.MarkPermanent` | zepboot/src/zb_move.c:362-372 | the make-permanent branch changes slot 0's records only |
| `BootRuns.SettledBoot` | zepboot/src/zb_move.c:331-387 | a boot of a settled flash swaps nothing and changes at most those records |
| `BootRuns.SettledForever` | zepboot/src/zb_move.c:331-387 | nor does any number of boots |
| `BootRuns.PermanentSettles` | zepboot/src/zb_move.c:345-349 | a finished permanent swap is settled |
| `BootRuns.MadePermanent` | docs/usage.md:25-30 | a make-permanent command before the boot that would restore keeps the swap, for any number of boots |
| `BootRuns.RestoreExact` | zepboot/src/zb_move.c:362-387 | exactly when a boot without an accepted request swaps |
| `BootRuns.ErrorCommandSticks` | zepboot/src/zb_move.c:155-158 | a logged command with the error mark is never done and keeps every request from being looked at |
| `BootRuns.ErrorRequestExact` | zepboot/src/zb_move.c:341-352 | an accepted request leads there if and only if it is 0x90 for slot 0, and then for any number of boots |
| `BootRuns.CutStart` | zepboot/src/zb_move.c:337-358 | power lost while a swap is being started: the next boot starts the same swap on the same flash if and only if what is left does not look like a swap going on, or is the start completed |
| `BootRuns.CutStartRecord` | zepboot/src/zb_move.c:351-352 | in particular after the erase and with the start record torn |
| `Booted.PrmReadBack` | zepboot/src/zb_move.c:53-85 | the parameters read after a run are those of the images as they are |
| `Booted.BootsNew` | bootloader/src/main.c:54-89 | after a completed swap main boots the new image |
| `LaterBoots.StillBoots` | bootloader/src/main.c:54-89 | whatever is written beside what a run left: the new image boots, or with the command for slot 0 in slot 1 the image there |
| `LaterBoots.KeepsBooting` | bootloader/src/main.c:46-89 | in a settled state, or one a make-permanent command settles, for any number of boots |
| `LaterBoots.CommandBoots` | docs/usage.md:25-45 | the documented flow: a command written to slot 1 after the swap, and any number of boots |
| `LaterBoots.RestoreBoots` | zepboot/src/zb_move.c:374-391 | after a restore the old image boots, without one the new image, for any number of boots |
| `LaterBoots.AsWrittenBoots` | bootloader/src/main.c:54-89 | after a run of the code as written with power losses the new image boots |
| `Decisions.FlagBits` | zepboot/src/zb_move.c:342-349 | the flags of cmd1 are its bits 0 and 4; setting or clearing one leaves the others alone |
| `Decisions.PhaseFlag` | zepboot/src/zb_move.c:331-335 | the in-place flag is bit 5 of cmd2, the phase is the rest |
| `Decisions.CommandsFound` | zepboot/src/zb_flash.c:193-217 | a command written at the documented place is found: start of the last sector of slot 1, behind the parameters in that of slot 0, start of the swap status area |
| `Decisions.AcceptedExact` | zepboot/src/zb_image.c:145-191 | exactly which images are accepted and for which slot: signature and body hash right, room for the last sector, not older than the version on record for that slot |
| `Decisions.RequestExact` | zepboot/src/zb_move.c:337-352 | exactly which start command a request leads to, bit for bit |
| `Decisions.RequestPermanence` | zepboot/src/zb_move.c:345-349 | an accepted request is of a genuine image; in place it is always permanent, classic as permanent as it was asked for |
| `Decisions.SwapsStarted` | zepboot/src/zb_move.c:318-395 | every swap a boot runs goes on from before, was requested for a genuine image, or undoes a temporary one |
| `Decisions.RestoreMeans` | zepboot/src/zb_move.c:374-387 | a swap is undone if and only if the command on record is not permanent; the undoing is, and carries its other flags |
| `Decisions.PermanentMeans` | zepboot/src/zb_move.c:362-372 | making permanent sets that flag of the command on record and changes nothing else |
| `Decisions.PermanentFromNothing` | zepboot/src/zb_move.c:365-371 | with nothing on record the empty word is recorded, and nothing is undone |
| `Decisions.ReportsExact` | zepboot/src/zb_move.c:374-395 | without a swap the boot goes on if and only if a command is on record in slot 0 |
| `Decisions.NothingRecorded` | zepboot/src/zb_move.c:331-395 | with no command anywhere nothing is swapped or written, and the boot fails |
| `Decisions.SecondAsked` | bootloader/src/main.c:59-64 | the second address is asked for by the last command of slot 1, or by what the variable held if that log is full of invalid records |
| `Decisions.BootedIsChecked` | bootloader/src/main.c:66-85 | an address in slot 0 or RAM is booted only if the stored crc32 is that of the image in slot 0, one in slot 1 only if that image matches or it is the fallback |
| `Decisions.BootedExact` | bootloader/src/main.c:54-93 | exactly when nothing is booted, and which address otherwise |
| `LaterBoots.DamagedNotBooted` | bootloader/src/main.c:66-85 | an image damaged after its swap is not booted; from slot 1 main falls back to slot 0 |
| `Decisions.RecordedExact` | zepboot/src/zb_move.c:53-85 | the six words phase 3 stores, with and without an image in slot 1 |
| `Decisions.RecordedCommand` | zepboot/src/zb_move.c:53-87 | the command phase 3 records; without an image in slot 1 it is made permanent |
| `Decisions.RunRecorded` | zepboot/src/zb_move.c:53-85 | the six words after a finished run, in terms of the headers before it and the images after it |
| `Decisions.AcceptedInplace` | zepboot/src/zb_image.c:181-188 | an image accepted for slot 1 is not older than the version on record for slot 1 |
| `Decisions.InplaceKeepsExact` | zepboot/src/zb_image.c:173-188 | exactly when an in-place request keeps the version on record for slot 1 from going back, and that it records the new version |
| `Decisions.InplaceVersionsNeverGoBack` | zepboot/src/zb_image.c:181-188 | over any history of in-place requests and boots that swap nothing, the version on record for slot 1 never goes back |
| `Decisions.InplaceSettles` | zepboot/src/zb_move.c:345-349 | after an in-place request no number of boots moves either image |
| `Booted.CheckedIsRead` | zepboot/src/zb_image.c:94-100 | an info that passes the checks is the info read without them |
| `Booted.AcceptedVersion` | zepboot/src/zb_image.c:173-188 | an accepted image is not older than the version on record |
| `Booted.AcceptedOk` | zepboot/src/zb_image.c:153-171 | what acceptance contributes to a swap that can be carried out |
| `Booted.RequestKeepsVersion` | zepboot/src/zb_image.c:181-188 | a request carried out, classic or in place, does not lower the version on record |
| `Booted.NoSwapKeepsVersion` | zepboot/src/zb_move.c:356-387 | a boot without a swap, one that refuses a request among them, leaves the version on record alone |
| `Booted.RequestKeepsExact` | zepboot/src/zb_image.c:173-188 | a classic request keeps the record from going back if and only if the image does not ask for the address that reads as no parameters, or none was on record |
| `Booted.VersionsNeverGoBack` | zepboot/src/zb_image.c:181-188 | over any history of boots that carry out requests or swap nothing, the version on record never goes back |
| `Tool.InfoValueReads` | scripts/imgtool/image.py:164-181 | the info entry holds start, size, load address and version in the reader's order |
| `Tool.HeaderStarts` | scripts/imgtool/image.py:205-238 | a header starts with magic word and length, low-order octets first, two zeros and the signature |
| `Tool.AreaOctets` | scripts/imgtool/image.py:183-198 | the area, octet for octet, with and without a public key |
| `Tool.FieldsFitExact` | scripts/imgtool/image.py:164-181 | the fields fit if and only if the reader gets back what was packed |
| `Tool.PrintedEntries` | scripts/imgtool/image.py:183-198 | the area is well formed and the search finds each entry that was printed |
| `Tool.ParsePrinted` | scripts/imgtool/image.py:160-198 | the reader recovers every field, for all values in range, with or without a public key |
| `Tool.HeaderReads` | scripts/imgtool/image.py:205-246 | magic, size, signature and area as the reader sees them |
| `Tool.PaddingExact` | scripts/imgtool/image.py:222-243 | the reader sees the printed area if and only if the alignment divides the header size |
| `Tool.PadHeader` | scripts/imgtool/image.py:225-226 | the padding loop reaches the next multiple of the alignment |
| `Tool.PadExact` | scripts/imgtool/image.py:225-226 | the padding is the least number of octets that reaches a multiple of the alignment |
| `Tool.Image.Load` | scripts/imgtool/image.py:72-99 | blank header space in front of the file, and the size check |
| `Tool.Image.Create` | scripts/imgtool/image.py:124-158 | body encrypted from counter zero, hashed, header installed; fails exactly when a field does not fit |
| `Tool.BodyBlocks` | scripts/imgtool/image.py:143-151 | the body is encrypted in counter mode from sixteen octets of zero |
| `Tool.InstalledOctets` | scripts/imgtool/image.py:245-246 | the header covers the start of the payload and nothing else changes; a longer one extends it |
| `Tool.Image.AddHeader` | scripts/imgtool/image.py:160-246 | the header octets, installed over the start of the payload |
| `Tool.MakeImage` | scripts/imgtool/main.py:127-148 | the file of the create command; succeeds for every job that fits |
| `Tool.DeviceReads` | zepboot/src/zb_image.c:21-119 | the device reads from the file what the tool was told |
| `Tool.DeviceChecks` | zepboot/src/zb_image.c:94-100 | a device that verifies the tool's signatures accepts the file |
| `Tool.ToolToDevice` | zepboot/src/zb_move.c:236-255 | an image made by the tool and swapped arrives decrypted behind its header, octet for octet |
| `Update.ImageAt` | zepboot/src/zb_image.c:21-119 | the info read for an image of the tool, in either slot, is one the swap can use |
| `Update.UpdateReady` | zepboot/src/zb_move.c:94-142 | with images of the tool in the slots everything the swap relies on holds |
| `Update.AskedIsAccepted` | zepboot/src/zb_move.c:337-360 | a request for such an image, not older than the one on record, starts a classic swap |
| `Update.WholeUpdate` | bootloader/src/main.c:46-89 | one boot later the new image is in slot 0 in the clear, the old one in slot 1, and the new one boots |
| `Update.PlainImageRuns` | bootloader/src/main.c:46-89 | an image made for slot 0 runs as it was given to the tool: its octets lie in the clear from the address booted on |
| `Update.UpdateStays` | docs/usage.md:25-45 | made permanent, by its request or by the command written afterwards, it boots for any number of boots |

## Left out

- AES, SHA-256, elliptic curves and the crc32 table: arbitrary functions; in particular nothing is said about forged signatures or equal hashes.
- Ctr.AesCtrMode: does not model the failure of the library's block encryption, which cannot occur with a non-null key schedule.
- Flash.FlashDevice.FlashErase: the error returns for a missing device, write protection and the driver are left out; the driver is taken to succeed.
- Flash.FlashDevice.FlashWrite: the same.
- Flash.FlashDevice.FlashRead: the same.
- Flash.FlashDevice.FlashProgram: asks for blank contents, not for an erase since the last write, because a record torn before its first octet leaves a blank place the program writes again; for the slots `Engine.ImgCmdProc` has the erase before every write of a run.
- Header.StepTlv: requires an area of whole entries; what the reader does with other areas (it does not check) is not modelled.
- Header.FindEntry: the same.
- Header.OpenTlvArea: the same, and requires the area to fit the buffer of 1024 octets.
- Header.ImgGetInfo: the same.
- Engine.GetImgSwpInfo: the same, and requires headers that fit one sector.
- Boot.ImgCheck: the same, and requires the body that the header names to lie in the device.
- Engine.ImgCmdProc: is stated for runs that take the turns of an undisturbed one: the log has room for them, and a run taken up again finds the right image info, one that serves as well, or needs none. `Runs.NeverEnds`, `AsWritten.ShortTurnKeeps` and `Lost.RestartExact` say what happens otherwise, on the machine's functions.
- Boot.ImgSwap: the same for the swap it starts or continues.
- Boot.BootMain: models the one slot area that is booted; several areas, and the copy to RAM with the jump, are left out.
- RAM images: the copy to RAM (`zb_img_ram_move`, zepboot/src/zb_move.c:399-412) is not modelled; its command leaves the key pointer unset.
- Recovery.ReloadExact: at sector 0 of P1 and P2, contents that carry the magic word but are not the header (an erase stopped inside it, or a second sector of the image that happens to begin so) are left out; what is read from them is arbitrary.
- Lost.RestartExact: leaves out the same contents, and a further reset in a run that has gone wrong.
- AsWritten.AsWrittenResult: leaves out resets with such contents, and those from which the program does not recover or recovers only because an interrupted step had already done all its work (`Lost.RestartExact` has these).
- Recovery.CrashSafeResult: holds for recovery with the image info kept, which is not what the program does in P1 and P2; the same goes for `Finish.CrashRecords`.
- Starting a swap: what the next boot does with a swap status area that an erase cut short has left looking like a swap going on is not followed further.
- Records torn so that they pass their crc8.
- Booted.VersionsNeverGoBack: a restore goes back by design and is left out, here and in `Decisions.InplaceVersionsNeverGoBack`, as are boots that are interrupted or continue a swap; in place it asks that slot 0 holds an image not older than the one on record.
- Tool.Image.Load: Intel HEX files and a missing slot address are left out.
- Tool.Image.AddHeader: big-endian headers are left out.
- Tool.MakeImage: the same, and key files and version strings.
- 32-bit wrap-around of offsets and lengths, and load addresses that are negative as `off_t`: addresses are unbounded numbers. `BootsNew` and the versions assume a device below 4 GiB.
- Separate flash devices for slots and status area, device binding, logging.
- The in-place flag of `zb_img_cmd_proc` stays set for the rest of a call; the model takes it from each command, which is the same because every command a run logs carries it.
- The write hook of phase 4, which is empty.
