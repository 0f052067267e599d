# GCOS virtual machine: a verified model

A Dafny model of the core of a smart-card virtual machine written in C, and proofs about it. Each part has a
specification by functions, an imperative counterpart over arrays and counters that is proved to agree with it, and
lemmas about whole runs.

| part | files |
|---|---|
| Bytecode interpreter | `BitVectors`, `Words`, `Alu`, `AluLaws`, `Machine`, `Vm`, `Postfix`, `Calls`, `Control`, `Trees` |
| TLP224 framing | `Tlp`, `TlpReceiver`, `TlpLink` |
| Checksums and module metadata | `Crc32`, `Crc16`, `Persistence` |
| Write-back page cache | `PageCache`, `PageCacheStore` |
| Global reference table and its flash image | `GlobalRefs`, `GlobalRefImage`, `GlobalRefStore` |
| Nested transactions over heap and global data | `Transactions`, `MemoryContents`, `TransactionStore` |
| Card content management: LOAD, INSTALL, DELETE | `Tlv`, `CardModel`, `CardInvariant`, `CardCommands`, `CardRuns`, `CardNames`, `CardPackage`, `CardScenario`, `CardDelete`, `CardAnswers`, `CardStore` |
| Undo log of a LOAD command | `UndoLog`, `UndoLogStore` |
| SEF loader | `SefLoader` |

`Bytes` holds what they share. `dafny verify dfyconfig.toml` checks the whole project.

## What is modelled, and where the code differs from its documentation

The code is modelled as it is, with 8-bit counters and 32-bit sums wrapping where they do in C. Where it does not do
what it is meant to, the condition under which it does is proved instead:

- The checksum of a metadata record is taken over a range that includes the checksum field (src/gcos_persistence.c:215-242),
  not over "all preceding fields" (include/gcos_persistence.h:102). A fresh record is valid exactly when its CRC is zero
  (`Persistence.FreshRecordPassesIffZero`); over the documented range it always is (`Persistence.PrecedingRangeWorks`).
  The CRC is taken high bit first but stored low byte first, so one change across the border between the last field byte
  and the checksum goes unnoticed even then (`Persistence.StraddlingChangeIff`).
- Creating a global reference in a free slot does not raise the reference count (src/gcos_symbol_resolver.c:416-441).
  `GlobalRefs.FreshReferenceResolvesIff` and `LiveSlotReissuedIff` say exactly when that makes a reference fail to
  resolve or hands out a live slot, and `LiveSlotReissuedReached` that a new table gets there; `TrackedStep` and `IssuedReferencesStayGood` are about the table with the count
  raised past each slot handed out, and `GoodStaysOverRuns` about the table as it is.
- After a load with a large capacity and a small count the extension table is missing (src/gcos_symbol_resolver.c:862-876);
  `GlobalRefImage.LoadedShapeIff` is the condition. A creation can then follow a null pointer: `GlobalRefs.FollowsNullIff`
  says when, and `GlobalRefImage.NullFollowed` that a new table gets there. Live references above the count do not survive
  a restart (`GlobalRefImage.ReferenceSurvivesIff`).
- An abort restores the innermost snapshot and ends every level (`Transactions.InnerAbortEndsOuter`).
- The lookup that precedes the deletion of a module renames a loaded module whose AID is all zeros
  (src/gcos_delete_manager.c:171-172), even if the deletion is then refused. `CardRuns.DeletedNameIsGoneIff` says exactly
  when a deletion removes the name, `CardNames.NamesStayDistinctIff` exactly when names stay distinct, and
  `CardScenario.MisdirectedDeleteReached` and `NameLeftReached` that commands reach both failures; the consistency
  theorems hold regardless.
- Allocation and bounds checks add in 32 bits (`Transactions.OverrunsIff`, `SefLoader.CursorMovesIff`), and inputs are given
  on which that fails (`Transactions.OverrunReached`, `SefLoader.WalkReturns`). A memory whose `overrun` is set stands for a
  program that has written outside its arrays: what the theorems conclude of such a memory is true of the model but says
  nothing of the program. An overrun is never taken back (`Transactions.OverrunStays`), so of a run that ends without one
  they speak throughout.
- An EOT in the place of a character splits a TLP224 frame, and the rest can be a message of its own
  (`TlpReceiver.MisplacedEot`, `OtherMessageReceived`).
- The cursor that parses INSTALL FOR LOAD is one byte wide (src/gcos_load_manager.c:337), and is modelled so. On every
  encoded list it does what it should (`Tlv.ByteCursorParsesMeaning`); on malformed data it does as long as no visited
  parameter carries it past 255 (`Tlv.MovesOnIff`, `Tlv.ByteCursorAgrees`); it never ends iff it visits an item twice
  (`Tlv.EndlessIff`); and it can end with an AID that was not named (`Tlv.ParameterChangesAid`).
- INSTALL is instruction E2 and DELETE is E6 (src/gcos_app_manager.c:181-188); docs/APPLICATION_MANAGEMENT_SCHEME_V2.md
  has them the other way round.
- In the interpreter a rotation by zero is the identity and the quotient of -2^31 by -1 wraps; both are undefined in C.

Inputs that come from outside are parameters: the code image, the bytes the transport delivers, which flash operations
fail, how many bytes the transport sends before it fails, whether saving the reference table succeeds, and the bytes of a command with those left in the buffer behind it.

## Model

| member | source | states |
|---|---|---|
| Alu.TruncationLaw | src/gcos_instructions.c:267-313 | signed quotient and remainder are C's pair: x = q*y + r, the remainder is smaller than the divisor and has the sign of the dividend |
| Alu.SignedDivisionExact | src/gcos_instructions.c:267-313 | DIVS and REMS give the exact truncated quotient and remainder of the signed operands, except, and only, for the quotient of 0x80000000 by -1 |
| AluLaws.OnlyDivisionFails | src/gcos_instructions.c:240-494 | DIVS, DIVU, REMS and REMU fail, by a zero divisor only, and no other instruction does |
| AluLaws.SumLaw | src/gcos_instructions.c:240-247 | the sum is the exact one but for a carry out of 32 bits |
| AluLaws.DifferenceLaw | src/gcos_instructions.c:240-256 | ADD undoes SUB and SUB undoes ADD |
| AluLaws.ProductLaw | src/gcos_instructions.c:258-265 | MUL is repeated ADD |
| AluLaws.QuotientLaw | src/gcos_instructions.c:283-329 | DIVU and REMU give quotient and remainder: a = q*b + r with r < b |
| AluLaws.ShiftLaw | src/gcos_instructions.c:359-383 | SHL multiplies by 2 to the power b mod 32, modulo 2^32, and SHRU divides by it, rounding down |
| AluLaws.SignedShiftLaw | src/gcos_instructions.c:367-375 | SHRS divides the signed operand by 2 to the power b mod 32, rounding down |
| AluLaws.BitwiseLaw | src/gcos_instructions.c:335-357 | AND, OR and XOR work bit by bit |
| AluLaws.RotationLaw | src/gcos_instructions.c:385-403 | ROTL moves bit i to place (i + b) mod 32 and ROTR moves it back |
| AluLaws.RotationsUndo | src/gcos_instructions.c:385-403 | each rotation undoes the other |
| AluLaws.OrderLaw | src/gcos_instructions.c:416-494 | each comparison is the complement of one, the mirror image of another, and the weak orders are the strict ones or equality |
| AluLaws.LessLaw | src/gcos_instructions.c:432-446 | LTU is the order of the numbers and LTS that of the signed values |
| AluLaws.SignLaw | src/gcos_instructions.c:432-446 | a signed value counts bit 31 as -2^31, so that the signed order is the unsigned one with that bit flipped |
| AluLaws.ComparisonsAnswer | src/gcos_instructions.c:416-494 | a comparison gives 1 or 0 |
| Postfix.PostfixCorrect | src/gcos_instructions.c:202-494 | for every tree over the dispatched constant, arithmetic, bitwise and comparison opcodes and every stack, running its postfix bytes ends as evaluating the tree does: its value on the otherwise unchanged stack, a stack overflow, or a division by zero, with the frames untouched |
| Postfix.PostfixPushesValue | src/gcos_instructions.c:505-587 | with head room for the tree's depth and no zero divisor the whole run only pushes the tree's value and moves the program counter over its bytes |
| Postfix.DepthIsExact | src/gcos_vm.c:442-457 | the depth of a tree is the least head room with which it does not overflow: with it the answer never changes again, with less there is no value |
| Postfix.ConstCorrect | src/gcos_instructions.c:202-234 | a constant, short or wide, is pushed from its encoding on every stack, big-endian operand bytes included, or overflows a full one |
| Postfix.DecodeConst | src/gcos_instructions.c:505-587 | each constant encoding is dispatched to the short or the wide load with its own value |
| Postfix.DecodeOpcode | src/gcos_instructions.c:550-580 | every binary operation is the one its opcode is dispatched to |
| Postfix.WideOperand | src/gcos_instructions.c:224-234 | the wide load reads back the 32-bit word whose bytes follow it, high byte first |
| Postfix.BinaryStep | src/gcos_instructions.c:240-494 | one binary instruction takes the left operand from below the right one, leaves its result in their place, and reports a zero divisor with both gone |
| Postfix.IsZeroStep | src/gcos_instructions.c:409-414 | EQZ replaces the top of the stack by 1 or 0 |
| Postfix.RunSplit | src/gcos_instructions.c:505-534 | a run of i + j instructions is a run of i followed, if that succeeds, by a run of j |
| Control.ProgramRuns | src/gcos_instructions.c:76-234 | for every structured program of constants, operations, conditionals, loops and calls (recursive ones included), compiled to the dispatched opcodes, and every state, running its bytes does what the program means: the same final stack with everything else as before, the same error, or at least as many steps as turns and calls were allowed |
| Control.JumpIfStep | src/gcos_instructions.c:130-158 | BEQZ jumps by its signed distance iff the value it takes off the stack is zero, BNEZ iff it is not |
| Control.JumpStep | src/gcos_instructions.c:112-128 | BR.S8 and BR.S16 jump forwards and backwards by the two's complement distance behind them |
| Control.CallStep | src/gcos_instructions.c:175-196 | CALL goes to the big-endian address behind it and stacks the address behind that |
| Control.ReturnStep | src/gcos_instructions.c:160-173 | RET goes to the address on top of the frame stack |
| Control.TrapStep | src/gcos_instructions.c:76-87 | a TRAP raises its code and the next step is refused |
| Control.PopIsStep | src/gcos_instructions.c:101-110 | POP.IS lowers the pointer of the indirect stack, or reports underflow |
| Trees.TreePushesValue | src/gcos_instructions.c:130-158 | for every expression tree with conditionals that has a value, with enough stack, running its bytes pushes that value: of each conditional, the branch the condition selects |
| Trees.UnwindsToZero | src/gcos_instructions.c:145-158 | a BNEZ that jumps to itself takes values off the stack down to the first zero |
| Calls.AlwaysBounded | src/gcos_vm.c:419-457 | over any number of instructions of any code the operand, frame and indirect stack pointers stay within 256, 64 and 64 |
| Calls.RunsReadOnlyTheWindow | src/gcos_instructions.c:38-70 | what any run does is the same for any two flash images that agree on the code window, wherever it lies in them: nothing else is ever fetched, wild branches included |
| Calls.StepFrames | src/gcos_instructions.c:160-196 | every instruction leaves the frame stack alone, pushes one frame, or pops one and resumes at its return address |
| Calls.LowerFramesUntouched | src/gcos_instructions.c:160-196 | while a run stays at or above a call depth the frames below that depth keep their contents |
| Calls.ReturnMatchesCall | src/gcos_instructions.c:160-196 | a CALL, any instructions that never return below the called frame, and the RET that first does, resume right behind the three bytes of the CALL with the caller's frames |
| Vm.VirtualMachine.Execute | src/gcos_instructions.c:505-587 | one in-place step over the fixed stacks ends in exactly the state and result that the step function gives, every exception included; the run theorems therefore hold of it |
| Vm.VirtualMachine.constructor | src/gcos_vm.c:44-70 | a new machine has empty stacks and starts at the window's first byte |
| Vm.VirtualMachine.Push | src/gcos_vm.c:442-457 | the cell above the stack pointer takes the word, or a full stack raises the overflow exception and changes no cell |
| Vm.VirtualMachine.PopTop | src/gcos_vm.c:419-440 | the topmost word comes off, or an empty stack raises the underflow exception |
| Vm.VirtualMachine.NextByte | src/gcos_instructions.c:38-50 | a byte comes from the window at the program counter, or an access violation leaves the counter where it is |
| Vm.VirtualMachine.NextU16 | src/gcos_instructions.c:51-70 | two bytes make a big-endian operand; a window that ends between them still consumes the first |
| Vm.VirtualMachine.DoTrap | src/gcos_instructions.c:76-87 | the operand byte becomes the exception |
| Vm.VirtualMachine.DoBranch | src/gcos_instructions.c:112-128 | a branch moves the counter, modulo 32 bits, by its signed offset from behind the operand |
| Vm.VirtualMachine.DoBranchIf | src/gcos_instructions.c:130-158 | the operand is consumed and the condition popped whether or not the branch is taken |
| Vm.VirtualMachine.DoRet | src/gcos_instructions.c:160-173 | the top frame comes off and its return address is resumed, or underflow |
| Vm.VirtualMachine.DoCall | src/gcos_instructions.c:175-196 | the frame pushed holds the address behind the operand; a full frame stack reports overflow after the operand was read |
| Vm.VirtualMachine.DoLoadWide | src/gcos_instructions.c:224-234 | the operand is consumed before a full stack is reported |
| Vm.VirtualMachine.DoBinary | src/gcos_instructions.c:240-494 | both operands are popped before a zero divisor is reported |
| Vm.VirtualMachine.DoIsZero | src/gcos_instructions.c:409-414 | the popped word is compared with zero and the flag pushed |
| Tlp.NibbleReaders | src/gcos_tlp.c:105-156 | exactly which characters read as which nibble, the ten from colon to at-sign and lower case included |
| Tlp.PairInjective | src/gcos_tlp.c:133-156 | two pairs of characters read as the same byte iff both their nibbles agree |
| Tlp.DecodeEncode | src/gcos_tlp.c:105-156 | decoding the hex form of any bytes gives those bytes |
| Tlp.DecodeAt | src/gcos_tlp.c:133-156 | decoding succeeds with a message exactly when every pair of characters reads as its byte |
| Tlp.LrcUpdate | src/gcos_tlp.c:59-73 | changing one byte changes the redundancy byte by the exclusive-or of old and new |
| Tlp.LrcCloses | src/gcos_tlp.c:59-73 | the redundancy byte of any bytes, appended to them, brings the sum to zero |
| Tlp.OneWrongCharacter | src/gcos_tlp.c:105-156 | replacing one character of an encoded well-formed message by any other leaves either the identical message, exactly when the new character reads as the same nibble, or characters that carry no well-formed message; an EOT also splits the frame, see the next three rows |
| Tlp.FrontIsNotGood | src/gcos_tlp.c:396-537 | what stands before an EOT put inside an encoded well-formed message never carries a well-formed one |
| Tlp.BackIsGoodIff | src/gcos_tlp.c:396-537 | what stands behind it does iff the EOT is in the place of a low nibble and the bytes behind it are themselves well formed |
| TlpReceiver.ScanTakesOneFrame | src/gcos_tlp.c:301-394 | whatever stands before an EOT, odd counts, bad characters and overlong frames included, one attempt ends right behind that EOT |
| TlpReceiver.ScanNeedsEot | src/gcos_tlp.c:301-394 | without an EOT the attempt ends only with the transport |
| TlpReceiver.ScanDecodes | src/gcos_tlp.c:301-394 | an attempt sees no error exactly when the whole frame decodes and fits the buffer, and then holds its decoding |
| TlpReceiver.JudgeAccepts | src/gcos_tlp.c:396-537 | a frame without error is accepted iff it is well formed; in particular nothing shorter than four bytes is, whatever stale bytes the buffer holds behind it |
| TlpReceiver.AttemptAcceptsGood | src/gcos_tlp.c:263-537 | one attempt accepts exactly the frames that carry a well-formed message and stores that message |
| TlpReceiver.FirstGoodIsFirst | src/gcos_tlp.c:263-537 | the index of the first good frame is one, none before it is good, and it lies within the tries left |
| TlpReceiver.ReceptionFindsFirstGood | src/gcos_tlp.c:263-537 | on any frames a reception yields the message of the first good one among the next six and stops right behind it, or gives up behind the sixth |
| TlpReceiver.ReceiverRecovers | src/gcos_tlp.c:263-537 | up to five bad frames of any kind, then an encoded well-formed message: that message is received and nothing behind it consumed |
| TlpReceiver.WrongCharacterReceived | src/gcos_tlp.c:263-537 | a well-formed message with one character replaced by anything but an EOT is received unchanged iff the new character reads as the same nibble; otherwise the receiver refuses it and goes on right behind it |
| TlpReceiver.MisplacedEot | src/gcos_tlp.c:323-354 | with an EOT in the place of a character the receiver sees two frames: it refuses the first, and receives the second, in place of the message, iff that is the well-formed rest behind a low nibble; otherwise it goes on behind both |
| TlpReceiver.OtherMessageReceived | src/gcos_tlp.c:323-354 | that happens: 60 00 04 64 60 00 00 60 with an EOT for its eighth character is received as 60 00 00 60 |
| TlpReceiver.RepliesWellFormed | src/gcos_tlp.c:396-537 | everything sent back for a bad frame is itself a well-formed message, and nothing is sent for an accepted or an ignored one |
| TlpReceiver.FaultsAnswered | src/gcos_tlp.c:396-537 | which reply answers which fault: NACK for characters that do not decode, a wrong redundancy byte or length, status 12 for an overlong message, status 09 for a first byte that is neither ACK nor NACK, nothing for an empty frame or a good one |
| TlpReceiver.CutShortIff | src/gcos_tlp.c:396-537 | over a transport on which a send fails a reception is the one over a transport that always sends if all its replies go out, and is cut short at the first byte that does not otherwise |
| TlpLink.ComputeLrc | src/gcos_tlp.c:59-73 | the loop gives the exclusive-or of the first bytes of the buffer |
| TlpLink.Link.SendMessage | src/gcos_tlp.c:170-246 | what goes out is the hex form of the message, then an EOT, up to the first character that cannot be sent, which is reported |
| TlpLink.Link.ReadFrame | src/gcos_tlp.c:301-394 | the byte loop stops, stores and flags errors as the scan of the remaining input does, and touches no buffer byte it did not store |
| TlpLink.Link.Check | src/gcos_tlp.c:396-537 | the checks on the stored bytes over the stale buffer reach the verdict of the judge |
| TlpLink.Link.Answer | src/gcos_tlp.c:396-537 | the reply is built over the receive buffer and sent as one frame, or cut short and reported |
| TlpLink.Link.Attempt | src/gcos_tlp.c:263-537 | one turn of the retry loop consumes, answers and leaves in the buffer what one turn of the specified reception does, failing replies included |
| TlpLink.Link.ReceiveMessage | src/gcos_tlp.c:263-537 | the bounded retry loop returns the length and message of the specified reception, or -1 when the transport is lost, a reply cannot be sent or six frames were bad, and has consumed and sent the same bytes |
| Crc32.Calculate | src/gcos_symbol_resolver.c:29-44 | the bitwise loop computes the CRC that the detection theorems are about |
| Crc32.RegisterIsFeed | src/gcos_symbol_resolver.c:29-44 | the byte-wise register is the bit-serial one over the message bits, low bit first |
| Crc32.StepInjective | src/gcos_symbol_resolver.c:29-44 | one shift of the register loses nothing |
| Crc32.BurstDetected | src/gcos_symbol_resolver.c:29-44 | two messages of one length that differ, and differ only within 32 consecutive bits, have different CRCs |
| Crc32.FourByteChangeDetected | src/gcos_symbol_resolver.c:29-44 | any change confined to four consecutive bytes of any message changes its CRC |
| Crc32.SealedIff | src/gcos_symbol_resolver.c:29-44 | four bytes behind a message are its checksum iff the register ends at one fixed value |
| Crc32.SealedBurstDetected | src/gcos_symbol_resolver.c:29-44 | a message with its checksum behind it, changed within 32 consecutive bits anywhere, no longer matches |
| Crc32.UnnoticedIff | src/gcos_symbol_resolver.c:29-44 | a change within 33 consecutive bits leaves the CRC as it was iff it is that of the generator polynomial, given by its exponents |
| Crc32.KnownValues | src/gcos_symbol_resolver.c:29-44 | the CRC of no bytes is 0 and that of one zero byte is D202EF8D |
| Crc16.Calculate | src/gcos_persistence.c:72-88 | the bitwise loop computes the CRC that the detection theorems are about |
| Crc16.RegisterIsFeed | src/gcos_persistence.c:72-88 | the byte-wise register is the bit-serial one over the message bits, high bit first |
| Crc16.StepInjective | src/gcos_persistence.c:72-88 | one shift of the register loses nothing |
| Crc16.BurstDetected | src/gcos_persistence.c:72-88 | two messages of one length that differ only within 16 consecutive bits have different CRCs |
| Crc16.TwoByteChangeDetected | src/gcos_persistence.c:72-88 | any change confined to two consecutive bytes of any message changes its CRC |
| Crc16.StraddleIff | src/gcos_persistence.c:72-88 | changing the last byte of a message and mixing a low-byte difference into its checksum keeps the two matching for one pair of differences only, 0x89 and 0xA1 |
| Persistence.PrepareMetadata | src/gcos_persistence.c:177-220 | the record is filled and sealed over its covered bytes while its checksum field is still zero |
| Persistence.ValidateMetadata | src/gcos_persistence.c:228-243 | the magic number and the recomputed checksum decide |
| Persistence.FreshRecordPassesIffZero | src/gcos_persistence.c:215-243 | with the range as coded, which takes in the checksum field, a record that was just prepared is valid exactly when its checksum came out as zero |
| Persistence.AtMostOneFreshPasses | src/gcos_persistence.c:215-243 | so of any two modules whose records differ in one or two neighbouring field bytes at least one has a fresh record that fails |
| Persistence.PrecedingRangeWorks | include/gcos_persistence.h:62-104 | with the range the record layout describes, all preceding fields, every prepared record is valid and none is that differs from it in one or two neighbouring field bytes or in its checksum |
| Persistence.StraddlingChangeIff | include/gcos_persistence.h:62-104 | with that range a record whose last field byte and first checksum byte are both changed is accepted iff they differ by 0x89 and 0xA1 |
| PageCache.StepRefines | src/gcos_symbol_resolver.c:950-1129 | on page addresses at least 464 apart every cache operation is one of the flat store and fails iff a flash call made for it fails: reads return the logical page, writes and invalidations change their page only, evictions and failed writes never change logical contents, a successful flush makes flash equal to them; no page is in two slots and clean slots equal flash |
| PageCache.FailsIffStruck | src/gcos_symbol_resolver.c:950-1129 | an operation fails iff one of the flash calls it makes fails |
| PageCache.RunRefines | src/gcos_symbol_resolver.c:950-1129 | every run of operations and faults is a run of the flat store in which exactly the operations struck by a fault fail |
| PageCache.FaultFreeRun | src/gcos_symbol_resolver.c:950-1129 | while no flash call fails no operation fails and every read, through any reads, writes, invalidations and flushes, returns the page as last written or read; after an invalidation, contents that flash can hold: one of those written since the last flush |
| PageCache.ReadsLastWritten | src/gcos_symbol_resolver.c:950-1061 | a read returns what the last successful write of its page wrote, whatever operations on other pages, flushes, evictions and faults lie between, unless a flash call of its own fails |
| PageCache.FlushedStays | src/gcos_symbol_resolver.c:1090-1129 | after a successful flush a page's contents are in flash and stay there until it is next written or invalidated |
| PageCache.WriteBackShows | src/gcos_symbol_resolver.c:923-948 | writing a slot back changes flash at its own page only and no logical contents |
| PageCache.FlushRefines | src/gcos_symbol_resolver.c:1090-1129 | a flush keeps the logical contents, and if it reports success flash equals them on every page |
| PageCache.FlushStrikes | src/gcos_symbol_resolver.c:1090-1129 | a flush reports failure iff a write of its own fails |
| PageCache.FlatKeeps | src/gcos_symbol_resolver.c:950-1129 | in the flat store a page keeps its contents through any operations that neither write nor invalidate it |
| PageCache.NewCacheShowsFlash | src/gcos_symbol_resolver.c:894-902 | a new cache satisfies the invariant of all these statements on any pages in flash and shows exactly what flash holds |
| PageCache.VictimIsFirstClean | src/gcos_symbol_resolver.c:937-948 | the slot given up is the first clean one, or slot 0 if all are dirty |
| PageCache.HitsMakeNoCall | src/gcos_symbol_resolver.c:950-1061 | a cached page is read and written without any flash call |
| PageCache.MissReadsOnce | src/gcos_symbol_resolver.c:950-1010 | with an empty or clean slot, reading a page that is not cached costs one flash read and no write |
| PageCacheStore.Store.FindCached | src/gcos_symbol_resolver.c:909-917 | the slot found is the first valid one of that page, or there is none |
| PageCacheStore.Store.FindEmpty | src/gcos_symbol_resolver.c:923-930 | the slot found is the first invalid one, or there is none |
| PageCacheStore.Store.FindVictim | src/gcos_symbol_resolver.c:937-948 | a clean slot is preferred, else the first |
| PageCacheStore.Store.TakeSlot | src/gcos_symbol_resolver.c:950-1061 | a dirty victim is written back before its slot is given up; a failed write keeps it |
| PageCacheStore.Store.ReadPage | src/gcos_symbol_resolver.c:950-1009 | the in-place read agrees with the specified one on slots, flash and result |
| PageCacheStore.Store.WritePage | src/gcos_symbol_resolver.c:1011-1061 | the in-place write agrees with the specified one on slots, flash and result |
| PageCacheStore.Store.InvalidatePage | src/gcos_symbol_resolver.c:1063-1083 | the in-place invalidation drops the page, dirty or not |
| PageCacheStore.Store.FlushAll | src/gcos_symbol_resolver.c:1090-1129 | the loop writes back slot after slot and stops at the first failure, as specified |
| PageCacheStore.Store.constructor | src/gcos_symbol_resolver.c:894-902 | the cache starts as the new cache of the row on PageCache.NewCacheShowsFlash, over the given device |
| GlobalRefs.Packed | src/gcos_symbol_resolver.c:406-459 | address and owner come back out of a packed entry |
| GlobalRefs.CreateWrites | src/gcos_symbol_resolver.c:406-490 | a creation writes exactly one entry, at the first free slot, else at the count, else at the first slot gained by growth, or fails and changes no entry; and when the count moves |
| GlobalRefs.FreshReferenceResolvesIff | src/gcos_symbol_resolver.c:362-459 | a reference just created resolves to its 24-bit address iff its owner is a real one and its slot is below the count afterwards: in a reused slot iff that was below the count, appended always, gained by growth never |
| GlobalRefs.LiveSlotReissuedIff | src/gcos_symbol_resolver.c:406-459 | a live slot is handed out a second time iff no slot is free and the count is short of the capacity |
| GlobalRefs.LiveSlotReissuedReached | src/gcos_symbol_resolver.c:406-459 | that happens: after any 64 creations on a new table all slots are live and the count is zero, and the next creation returns slot 0 |
| GlobalRefs.FollowsNullIff | src/gcos_symbol_resolver.c:438-449 | a creation follows a null pointer iff the extension is missing, all 64 base slots are live and counted, and the capacity is larger; never on a table that was not loaded from flash |
| GlobalRefs.OperableKept | src/gcos_symbol_resolver.c:406-490 | every other operation on any table, loaded ones with a missing extension included, leaves one fit for the next operation |
| GlobalRefs.FullReached | src/gcos_symbol_resolver.c:406-459 | after any 128 creations on a new table its 64 slots are live and all counted, so that the next one grows it |
| GlobalRefs.FirstReferenceDoesNotResolve | src/gcos_symbol_resolver.c:362-459 | on a new table the very first reference does not resolve |
| GlobalRefs.LocalResolves | src/gcos_symbol_resolver.c:396-403 | a compact address below 0x8000 resolves to the same number |
| GlobalRefs.DeletedDoesNotResolve | src/gcos_symbol_resolver.c:1146-1193 | a reference that resolved no longer does once its module is deleted |
| GlobalRefs.GrowthSteps | src/gcos_symbol_resolver.c:649-695 | a new table grows from 64 slots by 32 at a time up to 256, where growing fails |
| GlobalRefs.GoodStaysOverRuns | src/gcos_symbol_resolver.c:362-490 | a reference that resolves keeps resolving to its address and owner over any creations, growth and deletions of other modules: as coded |
| GlobalRefs.TrackedStep | src/gcos_symbol_resolver.c:406-490 | with the count raised past each slot handed out, live entries stay exactly the references issued and not recycled, each resolving, and a new reference never takes the index of a live one |
| GlobalRefs.IssuedReferencesStayGood | src/gcos_symbol_resolver.c:362-490 | the same over whole runs: every issued and unrecycled reference resolves to its own address |
| GlobalRefs.RecycledEntries | src/gcos_symbol_resolver.c:1146-1193 | deleting a module kills its own live entries and changes no other |
| GlobalRefs.InitialTracks | src/gcos_symbol_resolver.c:97-142 | a new table has issued nothing and has no live entry |
| GlobalRefImage.EntriesRoundTrip | src/gcos_symbol_resolver.c:697-884 | entries come back from their bytes |
| GlobalRefImage.LoadInvertsSave | src/gcos_symbol_resolver.c:697-884 | loading what was saved restores count, capacity and the first entries across the split of base and extension, and leaves the others alone |
| GlobalRefImage.NewTableImage | src/gcos_symbol_resolver.c:697-772 | the image of a new table, byte for byte: magic number low byte first, no entries, capacity 64, CRC |
| GlobalRefImage.LoadedShapeIff | src/gcos_symbol_resolver.c:845-884 | the loaded table has an extension whenever its capacity needs one iff the image reaches into it, there was one, or the capacity is the base one |
| GlobalRefImage.RestartKeeps | src/gcos_symbol_resolver.c:697-884 | saving any table and loading it into a new one keeps count, capacity and the entries below the count; nothing else is live, and the extension is there iff the count reaches into it |
| GlobalRefImage.ReferenceSurvivesIff | src/gcos_symbol_resolver.c:697-884 | as coded, a live reference survives a restart iff its slot is below the count |
| GlobalRefImage.FirstReferenceIsLost | src/gcos_symbol_resolver.c:697-884 | the first reference of a new table does not |
| GlobalRefImage.TrackedSurvive | src/gcos_symbol_resolver.c:697-884 | with the count raised past each slot handed out, all references issued and not recycled survive, and no other entry is live |
| GlobalRefImage.MissingExtensionReached | src/gcos_symbol_resolver.c:862-876 | a new table that has grown once comes back from a restart without its extension |
| GlobalRefImage.NullFollowed | src/gcos_symbol_resolver.c:438-449 | any 128 creations on a new table, the growth with which the next one saves it, and a restart: then the next creation follows a null pointer |
| GlobalRefImage.DamagedImageRefused | src/gcos_symbol_resolver.c:825-849 | a saved image changed within 32 consecutive bits anywhere, in capacity, entries or checksum or across them, is refused and the table left alone, if the count still reads the same |
| GlobalRefStore.RefTable.constructor | src/gcos_symbol_resolver.c:97-142 | 64 invalid entries, no extension |
| GlobalRefStore.RefTable.FindFreeSlot | src/gcos_symbol_resolver.c:466-490 | the search over base and extension stops at the first dead entry or where the extension is missing |
| GlobalRefStore.RefTable.Grow | src/gcos_symbol_resolver.c:649-695 | the capacity rises by a step up to 256 and a missing extension appears, before the save decides the result; on loaded tables too |
| GlobalRefStore.RefTable.CreateRef | src/gcos_symbol_resolver.c:406-459 | the in-place creation agrees with the specified one on every table, or follows a null pointer, with the count already raised, exactly where FollowsNull says |
| GlobalRefStore.RefTable.ResolveAddress | src/gcos_symbol_resolver.c:362-404 | the in-place lookup agrees with the specified one |
| GlobalRefStore.RefTable.DeleteModuleRefs | src/gcos_symbol_resolver.c:1146-1193 | the loops over both arrays recycle what the specification recycles, on every table, and the new table is written to flash iff anything was |
| GlobalRefStore.RefTable.SaveImage | src/gcos_symbol_resolver.c:697-772 | the bytes written are the specified image with its CRC-32 |
| GlobalRefStore.RefTable.LoadImage | src/gcos_symbol_resolver.c:774-884 | a good image replaces count, capacity and entries; a bad one changes nothing |
| Transactions.AllocCheckExactIff | src/gcos_memory.c:239-265 | the allocation check agrees with "the rounded block fits the heap" iff the true end of the block is below 2^32 |
| Transactions.WriteCheckExactIff | src/gcos_memory.c:185-206 | the write check agrees with "the bytes fit" iff the sum is below 2^32 or wraps to something still too large |
| Transactions.OverrunsIff | src/gcos_memory.c:239-265 | an operation passes its 32-bit check and writes outside its array iff the true end of its range reaches 2^32 and wraps to within the limit |
| Transactions.OverrunReached | src/gcos_memory.c:239-265 | that happens: on new memory a begin and allocations of 4 and of 2^32 - 4 bytes end in it |
| Transactions.OverrunStays | src/gcos_memory.c:239-265 | a run that ends without an overrun had none at any step |
| Transactions.BlockHoldsIff | src/gcos_memory.c:239-265 | an allocated block is at least as large as asked for iff the size plus 3 is below 2^32; else it is empty |
| Transactions.StepKeepsInv | src/gcos_transaction.c:113-197 | exactly the backup records below the depth are taken, and heap usage never falls from one open begin to the next, through every operation |
| Transactions.RunFollowed | src/gcos_transaction.c:113-197 | over every run the backup array holds, level by level, the data of the open begins, and the blocks allocated and not rolled back are pairwise disjoint and inside the used heap, those older than an open begin below its usage and the others above |
| Transactions.NewBlockDisjoint | src/gcos_memory.c:239-265 | a block allocated now is disjoint from every live one, whichever transaction that belongs to |
| Transactions.LowerBackupsUntouched | src/gcos_transaction.c:57-107 | while a transaction stays open nothing touches its record or those below it |
| Transactions.AbortRestoresBegin | src/gcos_transaction.c:171-197 | a begin, any operations that leave it the innermost open one, and an abort: heap, globals and both usage counters are those of the begin, and no transaction is open |
| Transactions.BeginAndCommitChangeNoData | src/gcos_transaction.c:113-169 | beginning and committing change no data, and a commit right after a begin undoes it |
| Transactions.InnerAbortEndsOuter | src/gcos_transaction.c:171-197 | an abort of an inner transaction ends all levels: the outer one can no longer be undone |
| Transactions.RunRaisesFloor | src/gcos_memory.c:239-265 | heap usage at the outermost open begin never falls over any run |
| Transactions.BlocksNeverOverlap | src/gcos_memory.c:239-265 | a block allocated before the outermost open begin is disjoint from every block any later run hands out, and those end inside the heap |
| Transactions.LevelBlocksNeverOverlap | src/gcos_memory.c:239-265 | the same of a block allocated before any open begin, for as long as that one stays open |
| MemoryContents.RunShows | src/gcos_transaction.c:57-197 | over every run without an overrun all answers, all heap and global bytes and both usage counters are those of a map from addresses to bytes: set by writes, zero over new blocks and after clearing, put back by an abort to what they were at the innermost begin |
| MemoryContents.StepShows | src/gcos_memory.c:185-345 | the same for one operation |
| MemoryContents.NewShows | src/gcos_transaction.c:46-47 | new memory holds zeros |
| MemoryContents.LastWriteWins | src/gcos_memory.c:326-345 | a byte of a block keeps what the last write that reached it wrote, through allocations, writes elsewhere, begins and commits |
| TransactionStore.VmMemory.constructor | src/gcos_transaction.c:46-47 | empty heap and globals, no backup |
| TransactionStore.VmMemory.BeginTransaction | src/gcos_transaction.c:113-142 | a snapshot of heap, globals and counters is pushed, or a fifth level is refused |
| TransactionStore.VmMemory.CommitTransaction | src/gcos_transaction.c:144-169 | the topmost snapshot is dropped and the data kept |
| TransactionStore.VmMemory.AbortTransaction | src/gcos_transaction.c:171-197 | the topmost snapshot is copied back and every level cleared |
| TransactionStore.VmMemory.Allocate | src/gcos_memory.c:239-265 | an aligned, zeroed block behind the last one, or zero, for every 32-bit size; a size whose sum wraps into the heap is reported as an overrun |
| TransactionStore.VmMemory.WriteHeap | src/gcos_memory.c:326-345 | the bytes at the address change and no others, or the write is refused; a wrapping sum that passes the check is reported as an overrun |
| TransactionStore.VmMemory.WriteGlobal | src/gcos_memory.c:185-206 | the bytes at the offset change and usage grows to their end, or the write is refused with an exception; a wrapping sum that passes the check is reported as an overrun |
| TransactionStore.VmMemory.ClearGlobalData | src/gcos_memory.c:215-224 | all global bytes are zero and unused |
| Tlv.DeleteParsesMeaning | src/gcos_delete_manager.c:36-86 | parsing the encoding of any list of tags and values, wherever it starts, gives what the list means to DELETE, bad AID lengths refused |
| Tlv.DeleteNamesFirstAids | src/gcos_delete_manager.c:36-86 | with well-sized AIDs that is the first sixteen AIDs in order, unknown tags skipped, and a failure without any |
| Tlv.DeleteFailsIff | src/gcos_delete_manager.c:36-86 | on any list DELETE fails iff there is no AID, or one that has not 5 to 16 bytes comes before sixteen have been collected |
| Tlv.InstallParsesMeaning | src/gcos_install_manager.c:49-134 | parsing the encoding of any list gives what the list means to INSTALL |
| Tlv.InstallNamesLast | src/gcos_install_manager.c:49-134 | with well-sized AIDs that is the last application AID, the last module AID and the last parameters, and a failure iff either AID is missing |
| Tlv.InstallRefusesSizes | src/gcos_install_manager.c:74-103 | an application or module AID that has not 5 to 16 bytes, anywhere in the list, makes INSTALL fail |
| Tlv.LoadParsesMeaning | src/gcos_load_manager.c:334-383 | the parser with an unbounded cursor, with which the one-byte cursor is compared below, gives what any list means, of any length |
| Tlv.ByteCursorParsesMeaning | src/gcos_load_manager.c:334-383 | on the encoding of any list that fits a command, wherever it starts, the one-byte cursor of INSTALL FOR LOAD ends, with what the list means |
| Tlv.MovesOnIff | src/gcos_load_manager.c:337-371 | on any bytes, the cursor leaves every item it visits behind iff it visits no parameter whose value carries it past 255 |
| Tlv.ByteCursorAgrees | src/gcos_load_manager.c:337-383 | in that case the parser ends, and with what a parser whose cursor is wide enough gives |
| Tlv.EndlessIff | src/gcos_load_manager.c:337-371 | on any bytes, the parser never ends iff its cursor visits an item twice, and iff it is still running after 256 items |
| Tlv.ReturningNeverEnds | src/gcos_load_manager.c:365-368 | a visited parameter whose value brings the cursor back to an item visited before keeps the parser forever |
| Tlv.ByteCursorStalls | src/gcos_load_manager.c:365-368 | in particular a parameter value of length 254 does, wherever it is visited: it returns the cursor to its own tag |
| Tlv.ParameterReturnsToStart | src/gcos_load_manager.c:337-371 | the data 4F 05 01 02 03 04 05 C4 F7 keep the parser forever |
| Tlv.ParameterChangesAid | src/gcos_load_manager.c:337-371 | the data 4F 05 4F 05 11 22 33 C4 F9 are accepted with the AID 11 22 33 C4 F9 instead of 4F 05 11 22 33 |
| Tlv.DeleteAidsSized | src/gcos_delete_manager.c:36-86 | on any bytes whatever, DELETE gets between one and sixteen AIDs of 5 to 16 bytes, or an error |
| Tlv.InstallAidsSized | src/gcos_install_manager.c:49-134 | on any bytes whatever, both AIDs INSTALL gets have 5 to 16 bytes |
| Tlv.PackageAidSized | src/gcos_load_manager.c:334-383 | on any bytes whatever, an AID that INSTALL FOR LOAD gets has 5 to 16 bytes |
| Tlv.ParseDeleteData | src/gcos_delete_manager.c:36-86 | the loop fills the output array with the AIDs the parse function gives, and ends |
| Tlv.ParseInstallData | src/gcos_install_manager.c:49-134 | the loop sets the outputs the parse function gives, and ends |
| Tlv.ParsePackageAid | src/gcos_load_manager.c:334-383 | the loop with its one-byte cursor gives the AID, a refusal, or the finding that it never ends, as the parse function does |
| SefLoader.LoadOfWritten | src/gcos_loader.c:485-590 | a written file, up to four stray bytes behind it, loads iff its major version is at most 1, every section is taken and the required ones are there; the sections visited are those written, in order |
| SefLoader.LoadReadsOnlyWritten | src/gcos_loader.c:485-590 | conversely a file that loads is, byte for byte, the header and the written form of the sections visited, but for fewer than five bytes at its end |
| SefLoader.WalkInvertsEncode | tests/generate_test_sef.c:300-351 | the walk over the little-endian encodings of any sections visits exactly those slices in order and terminates, from any offset |
| SefLoader.LoadedWasWritten | src/gcos_loader.c:512-590 | the same converse for the walk from any offset |
| SefLoader.HeaderReads | src/gcos_loader.c:103-140 | a written header is taken iff the major version is at most 1 |
| SefLoader.HeaderWritten | src/gcos_loader.c:103-140 | a header that is taken is the magic number and a version below 2.0.0.0 |
| SefLoader.CursorMovesIff | src/gcos_loader.c:512-590 | under the 32-bit bounds check the cursor moves past the header, and the section lies in the file, iff offset + 5 + size does not wrap; a size of 2^32 - 5 returns it to the same header |
| SefLoader.WalkReturns | src/gcos_loader.c:512-590 | a file of a supported version with one section of an unknown kind and size 2^32 - 5 passes every check and brings the cursor back to that section |
| SefLoader.CheckApps | src/gcos_loader.c:247-307 | the descriptor loop accepts what the descriptor predicate says |
| SefLoader.WrittenAppsOk | src/gcos_loader.c:247-307 | the written form of descriptors with AIDs of at most 16 bytes, as many as the section says, is taken |
| SefLoader.AppsWereWritten | src/gcos_loader.c:247-307 | and only such a form is |
| SefLoader.FirstSectionIff | src/gcos_loader.c:157-200 | a first section of four bytes, an AID behind its length and a rest is taken iff it has ten bytes |
| SefLoader.FirstSectionThere | src/gcos_loader.c:157-200 | and only a section of that form is |
| SefLoader.CheckSection | src/gcos_loader.c:157-480 | each section loader accepts exactly the contents its predicate describes |
| SefLoader.LoadSef | src/gcos_loader.c:485-612 | the loop with its three flags loads, refuses, or stops at a wrapping header as the specified walk does |
| UndoLog.UndoGivesFirst | src/gcos_load_manager.c:148-203 | a rollback leaves in every registry entry the value logged first, and entries never logged alone |
| UndoLog.WriteUndoneIff | src/gcos_load_manager.c:148-203 | a registry write is undone by the rollback iff that entry had been logged, or the write changed nothing |
| UndoLog.StepUndone | src/gcos_load_manager.c:54-140 | a log call, also one refused by a full log, and a write to something logged do not change what a rollback would restore |
| UndoLog.RollbackRestoresBegin | src/gcos_load_manager.c:40-203 | after any mix of log calls and writes since begin in which everything written had been logged, a rollback restores registry, module count and app count of begin and ends the transaction |
| UndoLog.LoggedChangesUndone | src/gcos_load_manager.c:54-203 | any list of registry and counter changes, each made only after its own log call succeeded and entries repeated at will, is undone; at most sixteen entries are logged |
| UndoLog.FreesInReverse | src/gcos_load_manager.c:160-172 | a rollback frees every logged flash space once, the last one first |
| UndoLogStore.LoadTransaction.Begin | src/gcos_load_manager.c:40-44 | the log is emptied and the transaction active, the tables untouched |
| UndoLogStore.LoadTransaction.LogRegistryUpdate | src/gcos_load_manager.c:78-93 | the entry's current value is appended, unless inactive or full |
| UndoLogStore.LoadTransaction.LogState | src/gcos_load_manager.c:103-117 | the current counters are appended, unless inactive or full |
| UndoLogStore.LoadTransaction.LogFlashAlloc | src/gcos_load_manager.c:54-68 | the space is appended, unless inactive or full |
| UndoLogStore.LoadTransaction.LogPersistence | src/gcos_load_manager.c:127-140 | the note is appended, unless inactive or full |
| UndoLogStore.LoadTransaction.UndoAll | src/gcos_load_manager.c:148-198 | the loop from the last entry to the first restores what the recursive undo restores and frees the same spaces |
| UndoLogStore.LoadTransaction.Rollback | src/gcos_load_manager.c:148-203 | tables, log, flag and freed spaces end as specified; without a transaction nothing happens |
| UndoLogStore.LoadTransaction.Commit | src/gcos_load_manager.c:210-217 | the log is dropped and the tables kept |
| CardRuns.AlwaysConsistent | src/gcos_app_manager.c:167-194 | after any commands from initialization on: each loaded module's instance list is free of duplicates and is exactly the installed applications linked to it, no application links to an unloaded entry, both counts are the numbers of loaded modules and installed applications, installed AIDs differ, and an open load session holds a free slot and an absent AID |
| CardRuns.ProcessKeeps | src/gcos_app_manager.c:167-194 | every single command, whatever its bytes and status word, keeps all that |
| CardRuns.InitialConsistent | src/gcos_app_manager.c:201-300 | the card after initialization satisfies it |
| CardRuns.InstancesExactly | src/gcos_module_registry.c:144-208 | membership in an instance list is the same as being installed and linked to that module |
| CardInvariant.LoadedAfter | src/gcos_load_manager.c:802-804 | replacing one registry entry changes the number of loaded modules by the difference of the two entries |
| CardInvariant.InstalledAfter | src/gcos_app_manager.c:386-387 | replacing one application slot changes the number of installed applications by the difference of the two |
| CardInvariant.FindModuleFirst | src/gcos_module_registry.c:113-128 | the lookup returns the first loaded module of exactly that AID, or there is none |
| CardInvariant.FindAppFirst | src/gcos_app_manager.c:401-426 | the lookup returns the first installed application whose AID starts with the given bytes, or there is none |
| CardInvariant.AttachKeeps | src/gcos_install_manager.c:264-339 | a new application in a free slot, listed last by a loaded module with room, keeps the card consistent if its AID is new |
| CardInvariant.DetachKeeps | src/gcos_app_manager.c:549-573 | clearing a slot and closing the gap in its module's list keeps the card consistent; the list loses that id and keeps its order |
| CardInvariant.DistinctDrop | src/gcos_module_registry.c:183-196 | closing the gap of one id keeps the others, each once, and no other |
| CardInvariant.SlotKeeps | src/gcos_load_manager.c:776-803 | registering a module in a free slot, or clearing one without instances, keeps the card consistent |
| CardInvariant.RenameKeeps | src/gcos_delete_manager.c:171-172 | renaming a loaded module keeps the card consistent unless it takes the AID of an open session |
| CardCommands.DeleteAppIs | src/gcos_app_manager.c:525-579 | on a consistent card deleting an installed application clears its slot, takes it out of its module's list, lowers the count by one without wrapping and does nothing else |
| CardCommands.DeleteAppKeeps | src/gcos_app_manager.c:525-579 | deletion works iff the slot is installed and not the issuer's domain; refused, it changes nothing |
| CardCommands.DeleteFirst | src/gcos_delete_manager.c:205-220 | deleting the first instance leaves the other ids in place and in order |
| CardCommands.DeleteEachDrains | src/gcos_delete_manager.c:205-226 | the loop over the copied ids empties the shifting list: every instance is gone, every other application, module and the session are unchanged, and the app count falls by their number |
| CardCommands.DeleteModuleIs | src/gcos_delete_manager.c:194-244 | a module unloads iff it has no instances or related applications may go, never with "in use"; then it and its instances are gone and nothing else has changed; refused, nothing has |
| CardCommands.DeleteModuleByAidKeeps | src/gcos_delete_manager.c:163-244 | deletion by AID answers OK or "conditions not satisfied", the latter iff the module has instances and leave was not given, never an execution error |
| CardCommands.DeleteAppByAidKeeps | src/gcos_delete_manager.c:128-161 | the first application whose AID starts with the given bytes goes, unless there is none or it is the issuer's domain; then nothing changes |
| CardCommands.DeleteAllKeeps | src/gcos_delete_manager.c:299-338 | over all AIDs of a DELETE the card stays consistent and the status word is never an execution error |
| CardCommands.InstallAppIs | src/gcos_install_manager.c:239-348 | INSTALL succeeds iff the module is loaded, no installed AID starts with the new one, a slot is free and the instance list has room, and then attaches exactly one application; otherwise, cleanup included, the card is exactly as before |
| CardCommands.UnregisterRestores | src/gcos_install_manager.c:300-305 | deleting an application whose instance could not be listed gives back the card before its registration |
| CardRuns.InstallKeeps | src/gcos_install_manager.c:197-349 | the whole INSTALL command on any bytes keeps the card consistent, never touches a load session, and without success changes nothing |
| CardRuns.DeleteKeeps | src/gcos_delete_manager.c:250-347 | the whole DELETE command on any bytes keeps the card consistent |
| CardRuns.InstallThenDelete | src/gcos_install_manager.c:239-348 | deleting by its AID the application an INSTALL made restores applications, both counts and every instance list |
| CardRuns.InstalledSelectableIff | src/gcos_app_manager.c:94-159 | after a successful INSTALL a SELECT of the new AID finds the new application, and succeeds iff it was installed to be selectable |
| CardRuns.OpenKeeps | src/gcos_load_manager.c:302-439 | opening a session changes nothing but the session, and refused not even that |
| CardRuns.FinishIs | src/gcos_load_manager.c:694-841 | FINALIZE leaves registry, applications and counts untouched, or turns exactly the session's slot, free until then, into a loaded module of the session's AID, the parsed version and no instances |
| CardRuns.SessionStep | src/gcos_load_manager.c:461-514 | any command either ends an open session, exactly when it is an overflowing block or a FINALIZE after a block, or keeps its slot and AID and adds exactly the bytes of an accepted block |
| CardRuns.SessionReserves | src/gcos_load_manager.c:302-514 | through any intervening commands the slot of an open session stays free, its AID absent, and its buffer is the concatenation of the blocks accepted |
| CardRuns.LoadAddsOneModule | src/gcos_load_manager.c:302-841 | a whole load from opening to successful FINALIZE, any other commands interleaved, adds one module in the slot and under the AID chosen at the start with the version parsed from the accepted blocks, and changes nothing else at that moment |
| CardRuns.DeletedNameIsGoneIff | src/gcos_delete_manager.c:163-244 | after a successful deletion by AID on any consistent card no module of that name is left iff no other loaded module has an all-zero AID of the same length and no two have that name |
| CardRuns.WrongModuleDeleted | src/gcos_delete_manager.c:171-184 | when such a module comes first it is the one deleted and the named one stays |
| CardRuns.MisdirectedDeleteExists | src/gcos_delete_manager.c:171-184 | with two modules named 00 00 00 00 00 and 01 02 03 04 05, deleting the second unloads the first |
| CardScenario.MisdirectedDeleteReached | src/gcos_delete_manager.c:171-184 | seven commands on a new card, two loads and that deletion, end there |
| CardScenario.RefusedReached | src/gcos_delete_manager.c:163-202 | on a new card eight commands, two loads, an INSTALL from the all-zero module and a DELETE of the other without leave, end with both modules under one name |
| CardScenario.NameLeftReached | src/gcos_delete_manager.c:163-202 | there the same DELETE with leave answers 9000, renames nothing, and leaves a loaded module of the deleted name |
| CardScenario.LoadWorks | src/gcos_load_manager.c:302-841 | on every consistent card without an open session, with a free slot and an AID no loaded module has, three commands load a module of that AID and any version, and change nothing else |
| CardRuns.NamesStayDistinct | src/gcos_load_manager.c:384-389 | a condition on LOAD alone: over runs in which no package with an all-zero AID is opened, loaded modules have pairwise different AIDs and no deletion renames one |
| CardRuns.ProcessNames | src/gcos_load_manager.c:384-389 | the same for one command |
| CardNames.DeletionKeepsNamesIff | src/gcos_delete_manager.c:163-244 | on a card with distinct names a deletion by AID leaves them distinct iff it does not rename an all-zero module and is then refused, which is when leave is missing and the first of the two modules so named has instances |
| CardNames.ProcessNamesIff | src/gcos_delete_manager.c:163-244 | a command leaves names distinct iff it is no DELETE with such a deletion among its AIDs |
| CardNames.NamesStayDistinctIff | src/gcos_delete_manager.c:163-244 | names stay distinct at every point of a run iff no DELETE in it has such a deletion |
| CardPackage.WrittenSectionsFit | src/gcos_load_manager.c:561-577 | the walk over section headers accepts every written list of sections, whatever follows |
| CardPackage.HeaderOfWritten | src/gcos_load_manager.c:528-580 | the header of a written package is in order, and its big-endian version read, iff it has 1 to 16 sections and at least 20 bytes |
| CardPackage.HeaderThere | src/gcos_load_manager.c:528-560 | conversely a header in order is magic number, big-endian version and a number of 1 to 16 sections, as written |
| CardPackage.FittingIsWritten | src/gcos_load_manager.c:561-577 | and the walk over section headers accepts only written sections: all that are announced, those up to the last eight bytes, or those before a header whose 32-bit sum wraps |
| CardPackage.ImportsOfWritten | src/gcos_load_manager.c:612-679 | written imports are read back in order, each bound to the first loaded module of its AID, iff each of those modules exists and is new enough; else the package is refused |
| CardPackage.ImportsBound | src/gcos_load_manager.c:591-680 | on any bytes whatever, each import recorded names a loaded module of its AID whose version is at least the one required |
| CardPackage.FinalizedImportsBound | src/gcos_load_manager.c:736-796 | a module that FINALIZE registers has as many imports as the count byte of its package says, at most eight, all bound to loaded modules that are new enough |
| CardPackage.FinalizeChecksImports | src/gcos_load_manager.c:591-680 | with the header in order and the written form of at most eight needs from byte 20 on, FINALIZE answers 9000 iff the first loaded module of each name is there and new enough, and then registers a module with exactly those names and versions, bound in order; otherwise it answers 6A88 and the tables are as before |
| CardPackage.ImportsWereWritten | src/gcos_load_manager.c:591-680 | conversely, imports that can be read are the written form of as many needs, all of them available |
| CardPackage.FinalizedWasWritten | src/gcos_load_manager.c:591-680 | so FINALIZE of a package of 23 bytes or more succeeds only on such a written form |
| CardPackage.FinalizeDispatches | src/gcos_load_manager.c:862-881 | LOAD with P1 = 2 is FINALIZE |
| CardDelete.DeleteCommandMeans | src/gcos_delete_manager.c:250-347 | a DELETE on any bytes does what its AIDs say, one after the other, each on the card left by those before: an AID that names no loaded module takes out the first installed application that it starts, except the issuer's domain, if bit 1 or 0 is given; one that names a module deletes it; unknown ones and those without leave change nothing; with the exact status words |
| CardDelete.DeleteOfOneApp | src/gcos_delete_manager.c:312-321 | one AID that names no loaded module, with leave: exactly the first installed application it starts is gone from its slot and its module's list, and 9000; without leave, for the issuer's domain or an unknown AID nothing changes, and 6985 or 6A82 |
| CardDelete.DeleteOfApps | src/gcos_delete_manager.c:250-347 | AIDs that name no loaded module, with leave, clear exactly the slots they take out in turn |
| CardDelete.SlotsMatch | src/gcos_delete_manager.c:128-161 | each such slot is that of an installed application, not slot 0, that one of the AIDs starts |
| CardDelete.InstallThenDeleteCommands | src/gcos_delete_manager.c:128-161 | as commands, INSTALL and then DELETE of the new AID restore the tables, unless the AID also names a loaded module: then the DELETE is refused and changes nothing |
| CardAnswers.InstallCommandMeans | src/gcos_install_manager.c:197-349 | INSTALL on any bytes: the exact status word, and on 9000 one new application in the first free slot, listed last by the first loaded module of the name, and nothing else |
| CardAnswers.OpenMeans | src/gcos_load_manager.c:302-439 | LOAD with P1 = 0: the exact status word, and on 9000 a session for the named AID in the first free entry |
| CardAnswers.LoadMeans | src/gcos_load_manager.c:461-735 | what the LOAD commands answer before anything is read from a package |
| CardAnswers.SelectMeans | src/gcos_app_manager.c:46-160 | SELECT finds the first installed application that the data starts, and answers 9000 iff it is selectable or personalized |
| CardAnswers.OtherInstructions | src/gcos_app_manager.c:167-194 | any other instruction is refused and changes nothing |
| CardStore.ShiftOut | src/gcos_module_registry.c:185-193 | the shifting loop drops one id, moves the later ones up and marks the last place unused |
| CardStore.ContentManager.constructor | src/gcos_app_manager.c:201-300 | 32 blank entries, the issuer's domain in slot 0, no session |
| CardStore.ContentManager.FindModuleByAid | src/gcos_module_registry.c:113-128 | the loop finds the module of the specified search |
| CardStore.ContentManager.FindAppByAid | src/gcos_app_manager.c:401-426 | the loop finds the application of the specified prefix search |
| CardStore.ContentManager.FindFreeModule | src/gcos_module_registry.c:28-35 | the loop finds the lowest free entry |
| CardStore.ContentManager.FindFreeApp | src/gcos_app_manager.c:27-34 | the loop finds the lowest free slot |
| CardStore.ContentManager.AddInstance | src/gcos_module_registry.c:144-170 | the id is appended, or the registry is unchanged with the reason |
| CardStore.ContentManager.RemoveInstance | src/gcos_module_registry.c:172-208 | the first place of the id is closed, or the registry is unchanged with the reason |
| CardStore.ContentManager.Unload | src/gcos_module_registry.c:224-258 | an entry without instances is no longer loaded, or the registry is unchanged with the reason |
| CardStore.ContentManager.RegisterApp | src/gcos_app_manager.c:312-399 | the lowest free slot is filled and the count raised, or the table is full |
| CardStore.ContentManager.DeleteApp | src/gcos_app_manager.c:525-579 | tables and count end as specified for every slot number |
| CardStore.ContentManager.InstallApp | src/gcos_install_manager.c:239-348 | tables, count and status word end as specified, cleanup included |
| CardStore.ContentManager.InstallCommand | src/gcos_install_manager.c:197-349 | the same from the command's bytes |
| CardStore.ContentManager.DeleteAppByAid | src/gcos_delete_manager.c:128-161 | tables, count and status word end as specified |
| CardStore.ContentManager.DeleteInstances | src/gcos_delete_manager.c:205-220 | the loop over the copied ids ends in the specified card |
| CardStore.ContentManager.DeleteModuleByAid | src/gcos_delete_manager.c:163-244 | tables, counts and status word end as specified, the renaming lookup included |
| CardStore.ContentManager.DeleteOneAid | src/gcos_delete_manager.c:98-161 | module before application, flags, status word and whether the command stops, as specified |
| CardStore.ContentManager.DeleteCommand | src/gcos_delete_manager.c:250-347 | tables, counts and status word end as specified from the command's bytes |
| CardStore.ContentManager.OpenLoad | src/gcos_load_manager.c:302-439 | session and status word end as specified, the one-byte cursor included |
| CardStore.ContentManager.LoadBlock | src/gcos_load_manager.c:461-514 | the block is appended to the buffer, or the session is refused or reset, as specified |
| CardStore.ContentManager.WalkSections | src/gcos_load_manager.c:561-577 | the loop over at most sixteen headers accepts as specified, with the 32-bit sum wrapping |
| CardStore.ContentManager.ParseSefHeader | src/gcos_load_manager.c:528-580 | the version, or a refusal, as specified |
| CardStore.ContentManager.ParseImportSection | src/gcos_load_manager.c:591-680 | the imports, each resolved to the first loaded module of its AID if that is new enough, or a refusal, as specified |
| CardStore.ContentManager.FinishLoad | src/gcos_load_manager.c:694-841 | tables, counts, session and status word end as specified |
| CardStore.ContentManager.Process | src/gcos_app_manager.c:167-194 | one command on the arrays ends in the card and status word of the specification, so that the theorems about runs hold of it |
| CardStore.ContentManager.SelectCommand | src/gcos_app_manager.c:46-160 | the status word is that of the specified lookup |

## Left out

- Machine.Decode: `OP_BEQZ_S16` and `OP_BNEZ_S16` are not dispatched by the program and count as unknown opcodes; instruction counters and timing are not modelled.
- PageCache.StepRefines: is for page addresses at least 464 bytes apart; a failing flash write is taken to leave flash as it was, not torn; the time of the last flush, which decides nothing, is not modelled.
- GlobalRefs.TrackedStep: is about the table with the count raised past the slot handed out, because as coded the property is false; the exact conditions for the table as coded are GlobalRefs.FreshReferenceResolvesIff and GlobalRefs.LiveSlotReissuedIff. An owner of 0xFF, which marks a dead entry, is excluded there.
- GlobalRefs.IssuedReferencesStayGood: is about the same table, for the same reason; GlobalRefs.GoodStaysOverRuns is about the table as coded.
- GlobalRefs.Create: tables with a count above the capacity or a capacity outside 64 to 256 are not modelled; no operation makes one and no table saved by one loads as one (GlobalRefs.OperableKept, GlobalRefImage.RestartKeeps). The flash offset the table was last saved at is not modelled; whether a save succeeds is a parameter.
- GlobalRefImage.DamagedImageRefused: keeps the count field, because it decides how many bytes the checksum covers.
- SefLoader.LoadSef: stops with its own outcome at a header whose 32-bit sum wraps, where the program would read past the file or loop; SefLoader.CursorMovesIff is the condition.
- SefLoader.Accepts: what the section loaders store is not modelled, only their checks. The application count check at src/gcos_loader.c:296-299 can never fail, an eight-bit count being compared with 512.
- Persistence.PrepareMetadata: the fields between magic number and checksum are taken as bytes; how they are filled from a module is not modelled. Neither is the mapping of modules to flash objects, which wraps a library that is not part of this model.
- CardCommands.DeleteAppIs: deselecting a selected application and cleaning up its module's global references are not modelled; neither touches the registry or the application table.
- CardStore.ContentManager.DeleteApp: leaves out the same.
- CardStore.ContentManager.RegisterApp: privileges, callbacks, data pointers and channel data of a slot, all set to constants, are not modelled.
- CardStore.ContentManager.InstallApp: the global data pointer of an instance is not modelled.
- CardStore.ContentManager.FinishLoad: module code and functions, the saving of metadata to flash, whose failure is not fatal, and linking imports to addresses are not modelled. Imports are looked for at the fixed offset 20 of a package, as in the program, and not in its import section; an imported module may be deleted later, which the program does not prevent.
- CardModel.SelectCommand: only the status word of a SELECT; which application a channel has selected is not modelled (an implicit SELECT does not update the channel entry).
- CardModel.Unload: `registry_count`, which FINALIZE does not raise, is not modelled; `module_count` is.
- CardModel.FinishLoad: the undo log (UndoLog) is not called in the model of the LOAD handlers. On every failing path of FINALIZE the log is empty or has been wiped before the rollback, which then does nothing, and the atomicity proved there comes from the order of the changes.
- Sockets, hardware abstraction, the shell and server programs, the T=0 byte protocol, the placeholder executor, security checks, system objects and the module function table.
- Control.ProgramRuns: POP.IS is not among the programs; the frame's base pointer is set as in the program and read by nothing that is modelled.
