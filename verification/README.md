# A verified model of the RP1 chain bootloader

The bootloader runs on a CM5 before Linux. It loads firmware into the RP1
southbridge over I2C, starts it, decides which RP1 devices Linux may drive,
patches the device tree accordingly and enters Linux, often over the network.
On the way it talks to a running RP1 through shared memory: a telemetry record
under a sequence lock, a command mailbox, a GDB server, a 64-bit timer behind
two 32-bit registers. This project models those algorithms and protocols and
proves what each promises, over every input, every interleaving and every run
in which any step may fail.

## How the model is laid out

| modules | subject |
|---|---|
| `Crc32`, `CrcBursts`, `CrcTable`, `CrcStandard`, `Rp1Image` | the CRC-32 of RP1.img, its linearity and burst detection, the code of section 8 of RFC 1952 and its polynomial remainder, and the image parser |
| `Prelude` | optional values, outcomes, bytes and 32-bit words |
| `WireWords`, `WordMix`, `SnapshotReply` | little-endian words, the rotate/multiply checksum, snapshot replies |
| `Seqlock`, `SeqlockReader` | the bounded reader against a concurrent writer |
| `Mailbox`, `MailboxCall`, `MailboxQuiet` | the command mailbox byte by byte: one command's answer and data, what else runs |
| `MailboxSession`, `MailboxBounds`, `MailboxServer` | whole sessions and their exact bounds, the program's two sessions |
| `MailboxOutcome`, `MailboxCommand` | which outcome a command has, told from the words it reads; the written loops |
| `GdbWire`, `ChunkedAccess` | packet framing, hexadecimal fields, chunked memory access |
| `Bootstrap`, `BootSafety` | loading and starting the firmware with failing writes |
| `Admission`, `ProbeCounts`, `TimeAnchor` | monitors and verdicts over histories; the timer read |
| `LittleEndian`, `Utf8`, `ElfSections`, `BootNote`, `ConfigText`, `ConfigSettings`, `ConfigPrint`, `Policy`, `MaskWords`, `DtbPatch`, `NotePolicy` | from an ELF note or a text file to masks to the device tree, and from end to end |
| `BumpAllocator`, `Gzip`, `AsciiIpv4`, `Dhcp`, `NetBoot` | the boot heap, the kernel's container, DHCP, and the network boot as a whole |

Code that updates state step by step is a class or a method with loops, proved
equal to a specification function or to a predicate on its whole history; the
properties are lemmas about those. Protocols with two parties are state
machines over single accesses - of a byte where the transport moves bytes, of a
word where it moves words - and the loops as they are written (`SeqlockReader`,
`MailboxCommand`) are proved to be runs of them.

## Assumptions stated in the model

- The values of the ABI crate are parameters: any distinct device numbers below
  64; any note name, type, magic (8 bytes), 16-bit version and size (at least
  80 bytes), and version kind; any mailbox status values.
- The seqlock's writer makes the sequence odd before its first store and even
  after its last, and both sides access whole words there. The mailbox's device
  reads command and arguments when SEQ differs from ACK, fills the data area,
  stores STATUS, then ACK, each as a whole word; the host moves every mailbox
  word byte by byte, lowest byte first.
- Accesses happen in the order the barriers give them.
- Counters of calls and records stay below 2^32; device numbers, sizes and
  addresses stay in the ranges the types allow.

## Where the code differs from what is promised

- The debug server starts counting at zero on the mailbox that the smoke test
  leaves at seven. Its answers are sure to be its own for six commands: if those
  time out, the seventh returns at once with the smoke test's last status
  (`MailboxServer.ServerBounds`, `MailboxServer.SeventhAnswerIsOld`). Its first
  command, the program's eighth, reuses number one
  (`MailboxServer.EighthCommandRunsAsOne`).
- For a session that begins at a mailbox left at any number w, the exact number
  of commands with answers of their own is `MailboxSession.AnswerBound(w)`: up to
  256, and w - 1 for w from 1 to 256 (`MailboxBounds.AnswersStayOwnIff`). ACK
  comes in byte by byte, so a change of it can be misread as the new number; that
  is the limit when the counter does not meet w.
- The number goes out byte by byte too, so the device can catch it half written:
  numbers within a session stay apart for 511 commands and not beyond, since
  command 512 can also run under 256. From a mailbox left at 256 or 258 to 511
  they do so for 256 only (`MailboxBounds.NumbersStayApartIff`,
  `MailboxQuiet.Call512RunsUnder256`). Over a transport whose accesses may fail
  the bound is 256, or 257 from a mailbox left at one; the program's own
  transport refuses an access for its address alone, so after a smoke test that
  passed no access to the mailbox fails.
- For a single command from any state, every status, and the data read after it,
  are its own exactly when neither the mailbox nor the device holds the new
  number and no change of ACK still to come can be misread as it
  (`MailboxCall.TrustedIffFresh`). On a settled, idle mailbox that comes down to
  ACK being another number (`MailboxCall.SettledTrustIff`).
- For a single command from any state, the device runs nothing but this command,
  whatever it is, exactly when everything asked for before has been run and SEQ
  changes in one byte at most (`MailboxQuiet.NothingElseRunsIff`). While a request
  is pending even one command can run twice (`MailboxQuiet.UnsettledRunsTwice`),
  and arguments that the server writes before its command can be taken by the
  pending one (`MailboxQuiet.NothingRunsBeforeIff`).
- With the debug stub, a build that continues after bootstrap failures can give
  the start command without the image in place, unless the target holds image
  and scratch words already; a build that stops cannot
  (`BootSafety.StubPathSafeIff`).
- A network boot of a plain debug-stub build serves the debugger after
  reloading RP1 and never enters Linux (`NetBoot.Boot.BootFromTftp`).
- A zero checksum field switches the check of RP1.img off
  (`Rp1Image.BurstIsRefused`).
- A valid note is documented to make the configuration file irrelevant. On the
  network path a malformed file refuses the boot all the same
  (`NetBoot.MalformedFileRefusesDespiteNote`).
- The boot heap gives space back for blocks freed in the opposite order exactly
  when none of them needed padding (`BumpAllocator.NestedRestoresIff`).
- `checked_add` cannot overflow in the note walk and the gzip header on a 64-bit
  machine, and the note walk's guard against standing still never fires: the
  offset grows by at least twelve each time.

## Model

| member | source | states |
|---|---|---|
| Crc32.Crc32Ieee | rp1_chainboot_poc/src/rp1_image.rs:300-310 | the nested loops compute the code defined on the payload's bits |
| Crc32.StepIsLinear | rp1_chainboot_poc/src/rp1_image.rs:305-306 | one shift step of the register is linear over xor |
| Crc32.UnstepUndoesStep | rp1_chainboot_poc/src/rp1_image.rs:305-306 | one shift step is a bijection, because the polynomial's top bit is set |
| Crc32.StepsZeroOnlyAtZero | rp1_chainboot_poc/src/rp1_image.rs:304-307 | no number of shift steps turns a non-zero register to zero |
| Crc32.ErrorShiftsCrc | rp1_chainboot_poc/src/rp1_image.rs:300-310 | an error pattern changes the checksum by a value that depends on the pattern alone |
| Crc32.CrcIsAffine | rp1_chainboot_poc/src/rp1_image.rs:300-310 | the checksum of the xor of three equally long payloads is the xor of their checksums |
| CrcBursts.BitsAreOneWord | rp1_chainboot_poc/src/rp1_image.rs:302-308 | feeding up to 32 bits equals xoring one word and then stepping once per bit |
| CrcBursts.FeedIsBitFeed | rp1_chainboot_poc/src/rp1_image.rs:302-308 | feeding bytes is feeding their bits, lowest first |
| CrcBursts.BurstChangesCrc | rp1_chainboot_poc/src/rp1_image.rs:300-310 | two payloads that differ only inside 32 consecutive bits have different checksums |
| CrcBursts.FourBytesAreABurst | rp1_chainboot_poc/src/rp1_image.rs:300-310 | any change confined to four consecutive bytes is such a burst |
| CrcBursts.GeneratorIsInvisible | rp1_chainboot_poc/src/rp1_image.rs:300-310 | 32 bits is the exact bound: one 33-bit burst is never noticed |
| CrcTable.BitwiseIsTableDriven | rp1_chainboot_poc/src/rp1_image.rs:300-310 | the bitwise loop computes the table form given in section 8 of RFC 1952 |
| CrcStandard.CrcIsStandard | rp1_chainboot_poc/src/rp1_image.rs:300-310 | the checksum is the whole `crc` of section 8 of RFC 1952, conditioning before and after included, on every input |
| CrcStandard.ComplementIsRemainder | rp1_chainboot_poc/src/rp1_image.rs:300-310 | the complement of the checksum is the remainder, by long division, of the message followed by 32 zero bits, its first 32 bits complemented |
| CrcStandard.LeadingZeroIsNoticed | rp1_chainboot_poc/src/rp1_image.rs:300-310 | a zero byte put in front of a payload changes its checksum |
| Rp1Image.ReplacedPayload | rp1_chainboot_poc/src/rp1_image.rs:226-269 | an accepted file with another payload of the same length is refused exactly when a checksum is stated and disagrees |
| Rp1Image.BurstIsRefused | rp1_chainboot_poc/src/rp1_image.rs:226-269 | a burst in the payload of an accepted file is refused if and only if the header states a checksum |
| Rp1Image.EncodeThenParse | rp1_chainboot_poc/src/rp1_image.rs:226-269 | every well-formed file is read back: payload, entry with the Thumb bit, stack |
| Rp1Image.AcceptedIff | rp1_chainboot_poc/src/rp1_image.rs:226-269 | a file is accepted exactly when it meets the format, written out in numbers, and states no checksum or the standard one of its payload |
| WordMix.MixSeparates | rp1_chainboot_poc/src/rp1_debug_stub.rs:854-856 | one mixing step is injective in the state and in the word, because the multiplier is odd |
| WordMix.FoldSeparatesWords | rp1_chainboot_poc/src/rp1_debug_stub.rs:755-758 | two word lists that differ in exactly one place have different checksums |
| WordMix.ChecksumRecord | rp1_chainboot_poc/src/rp1_inbound_monitor.rs:2404-2415 | the loop folds the covered words, four of them read as zero |
| WordMix.SingleWordChange | rp1_chainboot_poc/src/rp1_inbound_monitor.rs:2404-2415 | changing one word of a valid record goes unnoticed exactly outside the covered range or in three scratch words |
| SnapshotReply.ValidateSnapshotResponse | rp1_chainboot_poc/src/rp1_debug_stub.rs:730-762 | the checks and the checksum loop compute the validator's decision on the reply's bytes |
| SnapshotReply.ValidateInNumbers | rp1_chainboot_poc/src/rp1_debug_stub.rs:730-762 | acceptance with n entries in numbers: length, magic, version 2, the request's words, at most eight entries, checksum |
| SnapshotReply.AcceptsExactlyEncodings | rp1_chainboot_poc/src/rp1_debug_stub.rs:730-762 | a reply is accepted with n entries if and only if it is the encoding of some n entries, at most eight, for this request |
| SnapshotReply.SingleWordErrorIsRejected | rp1_chainboot_poc/src/rp1_debug_stub.rs:730-762 | a reply that differs from an accepted one in exactly one word is rejected |
| Seqlock.AcceptedCopyIsPublished | rp1_chainboot_poc/src/rp1_debug_stub.rs:320-338 | in every interleaving with fewer than 2^31 publications per attempt, an accepted copy is one whole published record |
| Seqlock.LoadsAreBounded | rp1_chainboot_poc/src/rp1_debug_stub.rs:320-338 | the reader makes at most 116 loads whatever the writer does |
| Seqlock.VerdictMeansPublished | rp1_chainboot_poc/src/rp1_debug_stub.rs:334-337 | a copy equal to the expected record proves that the record was published |
| Seqlock.QuietAttemptSucceeds | rp1_chainboot_poc/src/rp1_debug_stub.rs:320-338 | an attempt that the writer does not disturb succeeds with the current record |
| Seqlock.FailsAfterFourIff | rp1_chainboot_poc/src/rp1_debug_stub.rs:323-338 | in every run the reader gives up exactly when four attempts have each met an odd sequence word or a changed one |
| Seqlock.QuietAttemptDecides | rp1_chainboot_poc/src/rp1_debug_stub.rs:323-338 | if the writer is idle through any one of its attempts, the reader ends with the record of that time |
| Seqlock.TornCopyAtTheBound | rp1_chainboot_poc/src/rp1_debug_stub.rs:320-338 | the bound is exact: with 2^31 publications in one attempt a torn copy can be accepted |
| SeqlockReader.SharedRecord.LogScmiColdSample | rp1_chainboot_poc/src/rp1_debug_stub.rs:301-341 | the written checks and loop are a run of that model: a positive answer means a published record, a reader gives up exactly after four spoilt attempts, and an attempt through which the expected record stands still gives a positive answer; a record out of reach is not read at all |
| SeqlockReader.ReachableIff | rp1_chainboot_poc/src/rp1_debug_stub.rs:302-319 | a record is read exactly when its 108 bytes lie in the window, aligned and below the end of the address space |
| Mailbox.NextValue | rp1_chainboot_poc/src/rp1_debug_stub.rs:1168 | the carry from byte to byte is the wrapping increment |
| MailboxCall.ReturnedAnswerIsOwn | rp1_chainboot_poc/src/rp1_debug_stub.rs:1162-1194 | with a trusted number, a returned status is the one stored by this command's own, single execution, and data read after it are those it left, whatever changes between any two bytes |
| MailboxCall.TrustedIffFresh | rp1_chainboot_poc/src/rp1_debug_stub.rs:1162-1194 | from any state, every answer is the command's own, whatever the command, if and only if mailbox and device do not hold the new number and no coming change of ACK can be misread as it; so too for commands without arguments |
| MailboxCall.SettledTrustIff | rp1_chainboot_poc/src/rp1_debug_stub.rs:879-886 | on a settled, idle mailbox that means exactly that ACK holds another number |
| MailboxCall.TrustLasts | rp1_chainboot_poc/src/rp1_debug_stub.rs:967-969 | a number that can be trusted when a packet comes still can when its command is issued, and nothing has run under it |
| MailboxQuiet.NothingElseRunsIff | rp1_chainboot_poc/src/rp1_debug_stub.rs:1162-1180 | from any state, the device runs nothing but this command, at most once, whatever the command, if and only if the mailbox is settled at issue and SEQ changes in one byte at most |
| MailboxQuiet.NothingRunsBeforeIff | rp1_chainboot_poc/src/rp1_debug_stub.rs:967-969 | nothing runs while the server writes a command's arguments if and only if the mailbox is settled |
| MailboxQuiet.UnsettledRunsTwice | rp1_chainboot_poc/src/rp1_debug_stub.rs:1162-1180 | a command issued while an earlier request is pending can run twice, under the old number and its own |
| MailboxQuiet.TornNumberRunsToo | rp1_chainboot_poc/src/rp1_debug_stub.rs:545-553 | from a settled mailbox a command can run under a half-written number and under its own, if its number differs in several bytes |
| MailboxQuiet.Call512RunsUnder256 | rp1_chainboot_poc/src/rp1_debug_stub.rs:545-553 | the concrete case: command 512 also runs under 256 |
| MailboxSession.DistinctMeansNoRepeats | rp1_chainboot_poc/src/rp1_debug_stub.rs:1162-1194 | in a session that begins at any number, as long as SEQ never takes a value twice, half-written ones included, no number runs twice |
| MailboxBounds.NumbersStayApartIff | rp1_chainboot_poc/src/rp1_debug_stub.rs:1027-1042 | in a session that begins at a mailbox left at any number, after any history, no number of the session runs twice in so many commands if and only if they are at most the stated bound; for both clients, with and without failing accesses |
| MailboxBounds.AnswersStayOwnIff | rp1_chainboot_poc/src/rp1_debug_stub.rs:1027-1042 | no other command's answer is taken for this one's in so many commands if and only if they are at most the stated bound, for every number the mailbox was left at |
| MailboxServer.SmokeTestLeavesSeven | rp1_chainboot_poc/src/rp1_debug_stub.rs:572-659 | a smoke test that passes leaves an idle mailbox with SEQ and ACK at seven, wherever it began |
| MailboxServer.ServerBounds | rp1_chainboot_poc/src/rp1_debug_stub.rs:555-570 | after it, the server's answers are its own for exactly six commands and its numbers stay apart for exactly 511 |
| MailboxServer.SeventhAnswerIsOld | rp1_chainboot_poc/src/rp1_debug_stub.rs:1027-1042 | after six commands that time out the seventh returns the status that was there before, and nothing has run |
| MailboxServer.EighthCommandRunsAsOne | rp1_chainboot_poc/src/rp1_debug_stub.rs:879-886 | the server's first command can run under a number that has run before |
| MailboxOutcome.OutcomeIsDecided | rp1_chainboot_poc/src/rp1_debug_stub.rs:1162-1180 | the outcome of any command that ends, as a function of the words that it read: bus failure, timeout after 100000 reads, or the status after the first read of the number |
| MailboxOutcome.AnswerInTime | rp1_chainboot_poc/src/rp1_debug_stub.rs:1173-1178 | on a settled, idle mailbox a command answered after n polls returns for every n below 100000, and one not answered in 100000 polls times out |
| MailboxCommand.Commander.WriteU32 | rp1_chainboot_poc/src/rp1_debug_stub.rs:545-553 | four byte stores, lowest first, after which the whole field is written, or a failure |
| MailboxCommand.Commander.ReadAck | rp1_chainboot_poc/src/rp1_debug_stub.rs:1182-1187 | four byte loads, lowest first, put together to the word the poll compares |
| MailboxCommand.Commander.CommandWithArgs | rp1_chainboot_poc/src/rp1_debug_stub.rs:1162-1180 | the written stores and polls are a run of that model; it fails for the bus exactly if an access failed, times out exactly after 100000 reads of ACK without the number, and else returns the status read after the first that is the number, which for a trusted number is this command's own |
| MailboxCommand.Commander.WriteArg | rp1_chainboot_poc/src/rp1_debug_stub.rs:1050-1052 | an argument is written whole before the command, or the write fails; trust in the next number lasts |
| MailboxCommand.Commander.HandleReadMem | rp1_chainboot_poc/src/rp1_debug_stub.rs:941-989 | it answers exactly if no access failed and one of at most 100000 reads of ACK gave the number, with the expected status read then; the bytes sent are those that its own, single execution left, if the number could be trusted when the packet came |
| GdbWire.GdbServer.ReadPacket | rp1_chainboot_poc/src/rp1_debug_stub.rs:1078-1109 | the loops compute the outcome defined on the received bytes, and acknowledge exactly the good packets |
| GdbWire.GdbServer.SendPacket | rp1_chainboot_poc/src/rp1_debug_stub.rs:1111-1121 | the bytes sent are the frame of the payload |
| GdbWire.FrameOnTheLine | rp1_chainboot_poc/src/rp1_debug_stub.rs:1111-1121 | a frame is '$', the payload, '#' and two digits that denote the sum |
| GdbWire.FramedUnderSum | rp1_chainboot_poc/src/rp1_debug_stub.rs:1078-1109 | a payload framed under any sum byte is received exactly when the sum is its own |
| GdbWire.FrameRoundTrip | rp1_chainboot_poc/src/rp1_debug_stub.rs:1078-1121 | a payload of up to 768 bytes without '#' is received back after any noise without '$' |
| GdbWire.AlteredByteIsRejected | rp1_chainboot_poc/src/rp1_debug_stub.rs:1078-1109 | one payload byte replaced by another that is not '#' gives no packet |
| GdbWire.LongPayloadIsRejected | rp1_chainboot_poc/src/rp1_debug_stub.rs:1093-1095 | a longer payload gives no packet |
| GdbWire.HexDigitsAre | rp1_chainboot_poc/src/rp1_debug_stub.rs:1226-1233 | a byte is a digit of this value exactly when it stands at that place in "0123456789abcdef" or its upper-case form |
| GdbWire.ParseHexU32 | rp1_chainboot_poc/src/rp1_debug_stub.rs:1204-1212 | the value of the numeral exactly when it fits 32 bits and all digits are hexadecimal |
| GdbWire.DecodeHexBytes | rp1_chainboot_poc/src/rp1_debug_stub.rs:1214-1224 | succeeds exactly on pairs of hexadecimal digits of the right number, and stores their values |
| GdbWire.HexRoundTrip | rp1_chainboot_poc/src/rp1_debug_stub.rs:1214-1239 | decoding inverts encoding, byte by byte |
| ChunkedAccess.SramTransport.ReadMem32 | rp1_chainboot_poc/src/rp1_debug_stub.rs:1054-1064 | succeeds exactly when the range lies in the window or is empty, and then returns its bytes |
| ChunkedAccess.SramTransport.WriteMem32 | rp1_chainboot_poc/src/rp1_debug_stub.rs:1066-1076 | success stores the data and nothing else; failure leaves exactly the whole chunks that fit the window |
| ChunkedAccess.PassesWholeIff | rp1_chainboot_poc/src/rp1_debug_stub.rs:423-434 | a transfer goes through exactly when its range lies in the window |
| ChunkedAccess.WholeChunksPass | rp1_chainboot_poc/src/rp1_debug_stub.rs:1066-1076 | a transfer that leaves the window stops with the last chunk of 64 bytes that still fits |
| ChunkedAccess.TransferRoundTrip | rp1_chainboot_poc/src/rp1_debug_stub.rs:1054-1076 | a transfer inside the window reads back what it wrote |
| Bootstrap.Rp1Bootstrap.WriteMem | rp1_chainboot_poc/src/rp1_bootstrap.rs:112-122 | an oversized packet is refused before the bus; otherwise one write, which arrives at this address, and whose outcome is reported |
| Bootstrap.AddressArrives | rp1_chainboot_poc/src/rp1_bootstrap.rs:116-117 | the four big-endian bytes in front of a packet denote its address |
| Bootstrap.ChunkAt | rp1_chainboot_poc/src/rp1_bootstrap.rs:134-146 | chunk k of a payload starts 64 k bytes into it and has 64 bytes, or what is left |
| Bootstrap.Rp1Bootstrap.LoadImage | rp1_chainboot_poc/src/rp1_bootstrap.rs:134-146 | the writes follow the chunk plan and stop at the first failure, which the result names |
| Bootstrap.Rp1Bootstrap.ProgramScratch | rp1_chainboot_poc/src/rp1_bootstrap.rs:148-160 | the three scratch writes in order, stopping at the first failure |
| Bootstrap.Rp1Bootstrap.Start | rp1_chainboot_poc/src/rp1_bootstrap.rs:162-168 | the control and command writes in order, stopping at the first failure |
| Bootstrap.Rp1Bootstrap.LoadAndStart | rp1_chainboot_poc/src/rp1_bootstrap.rs:170-179 | the three parts in order; success exactly when every planned write succeeded |
| BootSafety.ChunksAreOneCopy | rp1_chainboot_poc/src/rp1_bootstrap.rs:134-146 | the chunks delivered in order equal one bulk copy of the payload |
| BootSafety.ScratchDecodes | rp1_chainboot_poc/src/rp1_bootstrap.rs:148-160 | unmasking the stored entry word gives the entry with the Thumb bit |
| BootSafety.LoadBeforeStart | rp1_chainboot_poc/src/rp1_bootstrap.rs:170-179 | whatever fails, the command register is written only when the payload is in place and scratch decodes to entry and stack |
| BootSafety.NothingElseChanges | rp1_chainboot_poc/src/rp1_bootstrap.rs:170-179 | no run, failed or not, changes memory outside the payload and the five registers |
| BootSafety.SuccessMeansStarted | rp1_chainboot_poc/src/rp1_bootstrap.rs:170-179 | a complete run leaves the payload and scratch in place and the start command given |
| BootSafety.ReadyMeans | rp1_chainboot_poc/src/rp1_bootstrap.rs:148-160 | a target is ready exactly when the payload is in place and the words at the literal addresses are magic, masked entry and stack |
| BootSafety.StartedMeans | rp1_chainboot_poc/src/rp1_bootstrap.rs:162-168 | a complete run leaves the payload, the scratch words, control and start command in place, as words at literal addresses |
| BootSafety.AcceptedImageStartsSafely | rp1_chainboot_poc/src/rp1_image.rs:238-268 | every accepted RP1.img loads clear of the registers, so all its runs start it only when it is in place |
| BootSafety.AcceptedFileIsStarted | rp1_chainboot_poc/src/rp1_image.rs:238-268 | and a complete run for it leaves its payload at the load address and its own entry and stack in scratch, as words at literal addresses |
| BootSafety.StartWithDebugStub | rp1_chainboot_poc/src/main.rs:749-764 | the stub path runs the three parts, going on after failures exactly if the build says so |
| BootSafety.StubPathSafeIff | rp1_chainboot_poc/src/main.rs:622-633 | on that path start commands are safe from failures if and only if the build stops at them or the target was ready before |
| Admission.R1Admission.Sample | rp1_chainboot_poc/src/scmi_linux_admission.rs:34-60 | true exactly while every call so far was in order, passed its checks and moved the watched counters |
| Admission.R1Admission.Complete | rp1_chainboot_poc/src/scmi_linux_admission.rs:62-67 | true exactly when the whole history is admissible: 31 good records and a rate within five per cent |
| Admission.ServiceAdmission.Sample | rp1_chainboot_poc/src/amp_service_admission.rs:23-48 | the same for the service monitor, which keeps only the words it compares |
| Admission.ServiceAdmission.Complete | rp1_chainboot_poc/src/amp_service_admission.rs:50-55 | true exactly when the whole history is admissible for the phase |
| Admission.UnknownPhaseNeverAdmits | rp1_chainboot_poc/src/amp_service_admission.rs:23-27 | a phase of two or more fails at the first record and never admits |
| Admission.AmpProc1Admission.Sample | rp1_chainboot_poc/src/amp_proc1_admission.rs:38-43 | the phase-1 trace so far and "held in reset at every sample" |
| Admission.AmpProc1Admission.Complete | rp1_chainboot_poc/src/amp_proc1_admission.rs:44 | phase-1 admission together with "held in reset at every sample" |
| Admission.AdmittedRateIsTrue | rp1_chainboot_poc/src/scmi_linux_admission.rs:62-67 | an admitted history bounds the true rate behind the wrapping counters |
| Admission.R1CountersAdvance | rp1_chainboot_poc/src/scmi_linux_admission.rs:34-60 | over an admitted history each of nine counters, named by its index, truly gained between 1 and 2^31 per record, wrap-around included |
| Admission.ServiceCountersAdvance | rp1_chainboot_poc/src/amp_service_admission.rs:23-48 | the same for the three counters of the service monitor |
| Admission.MovedIff | rp1_chainboot_poc/src/scmi_linux_admission.rs:34-60 | for counters, to have moved means to have truly gained between 1 and 2^31 |
| TimeAnchor.ReadRaw | rp1_chainboot_poc/src/rp1_time_anchor.rs:20-34 | the first stable attempt or the last of four, in at most twelve reads |
| TimeAnchor.StableReadIsExact | rp1_chainboot_poc/src/rp1_time_anchor.rs:13-34 | a stable read is the counter's exact value at the low read, for any monotone counter |
| TimeAnchor.StableWithin | rp1_chainboot_poc/src/rp1_time_anchor.rs:20-34 | an advance of at most (m-1)*2^32 over m attempts leaves one of them stable; below 2^32, attempt two at the latest |
| TimeAnchor.BoundIsExact | rp1_chainboot_poc/src/rp1_time_anchor.rs:20-34 | one tick more can leave all m attempts unstable |
| TimeAnchor.CleanIffOrdered | rp1_chainboot_poc/src/rp1_time_anchor.rs:48-82 | a run of samples is free of errors exactly when each is sound and each is later than its predecessor |
| TimeAnchor.FirstFaultIsTold | rp1_chainboot_poc/src/rp1_time_anchor.rs:48-82 | a sample's error is the text of the first of nine faults it has, or "none" |
| TimeAnchor.CleanMeansLater | rp1_chainboot_poc/src/rp1_time_anchor.rs:48-82 | then any two samples are ordered, with raw time non-decreasing and frequency and offset constant |
| Policy.MasksRecordOwners | rp1_chainboot_poc/src/rp1_dtb_policy.rs:89-100 | the owner looked up in the masks of a decision is the decision |
| Policy.ValidateIsPartition | rp1_chainboot_poc/src/rp1_dtb_policy.rs:67-87 | validation accepts exactly the partitions of the ten devices without a Linux-owned PIO |
| Policy.PositionsAreBits | rp1_chainboot_poc/src/rp1_dtb_policy.rs:42-51 | a mask word read from a note stands for exactly the positions of its set bits |
| MaskWords.WordsAreMasks | rp1_chainboot_poc/src/rp1_dtb_policy.rs:67-87 | the checks with and, or and not on words decide what the checks on sets of positions decide |
| MaskWords.OwnersAreOwners | rp1_chainboot_poc/src/rp1_dtb_policy.rs:89-100 | looking an owner up by a bit test gives the owner of the position |
| DtbPatch.DeviceTree.FindNode | rp1_chainboot_poc/src/dtb_patch.rs:168-175 | the first listed path that exists |
| DtbPatch.DeviceTree.ApplyRp1Policy | rp1_chainboot_poc/src/dtb_patch.rs:111-166 | tree and verdict are those of one pass over the table after validation |
| DtbPatch.PathsAreThese | rp1_chainboot_poc/src/rp1_dtb_policy.rs:137-224 | the three places where each device may be, as whole paths, in this order |
| DtbPatch.FirstPlaceIsTheNode | rp1_chainboot_poc/src/dtb_patch.rs:168-175 | a device's node is the first of those places that the tree has |
| DtbPatch.PlacesShowOwners | rp1_chainboot_poc/src/dtb_patch.rs:111-166 | after a successful patch the first existing literal place of each device shows its owner's status |
| DtbPatch.SharedPath | rp1_chainboot_poc/src/rp1_dtb_policy.rs:192-209 | only the two PIO blocks can resolve to the same node |
| DtbPatch.PatchSucceedsIff | rp1_chainboot_poc/src/dtb_patch.rs:111-166 | success exactly for a valid policy and a tree with a node for every device but the timer |
| DtbPatch.PolicyReachesTheTree | rp1_chainboot_poc/src/dtb_patch.rs:111-166 | then each node shows its owner's status and everything else is unchanged |
| DtbPatch.OrderDoesNotMatter | rp1_chainboot_poc/src/rp1_dtb_policy.rs:137-224 | any other order of the table, with repetitions, gives the same verdict, and on success the same tree |
| DtbPatch.PioOrderMattersIffStatusesDiffer | rp1_chainboot_poc/src/rp1_dtb_policy.rs:82-84 | without the PIO rule the order of the two entries matters exactly when their statuses differ |
| DtbPatch.PatchingTwiceIsPatchingOnce | rp1_chainboot_poc/src/dtb_patch.rs:111-166 | applying the policy again changes nothing |
| DtbPatch.OnlyStatusChanges | rp1_chainboot_poc/src/dtb_patch.rs:152-156 | no pass, complete or not, touches any other property |
| Utf8.EncodeThenDecode | rp1_chainboot_poc/src/rp1_config.rs:39 | the bytes of any text are decoded to that text |
| Utf8.DecodeThenEncode | rp1_chainboot_poc/src/rp1_config.rs:39 | nothing but the bytes of a text is decoded |
| ConfigText.ParseOptionalConfig | rp1_chainboot_poc/src/rp1_config.rs:35-85 | no file gives the default, bytes that are no text an error, and the loop over lines the reading defined line by line |
| ConfigText.ParseIff | rp1_chainboot_poc/src/rp1_config.rs:35-85 | a text is accepted exactly when each line is readable where it stands and no device is named twice; its masks are what it names, and its last `force_boot` line counts |
| ConfigText.CommentIsIgnored | rp1_chainboot_poc/src/rp1_config.rs:104-109 | "#" and any text after a line change nothing |
| ConfigSettings.LineEnds | rp1_chainboot_poc/src/rp1_config.rs:43 | a line ends with LF, with CR LF or with the text, and nothing else is taken from it |
| ConfigSettings.BlanksGoAway | rp1_chainboot_poc/src/rp1_config.rs:44 | blanks of any kind and number go away on both sides, those between stay |
| ConfigSettings.NumbersAreRead | rp1_chainboot_poc/src/rp1_config.rs:87-97 | every number spelled in decimal or in hexadecimal, signed or not, is read as itself exactly when it fits 32 bits |
| ConfigSettings.SettingIff | rp1_chainboot_poc/src/rp1_config.rs:61-76 | the settings that are accepted in front of the owner table, as literal keys and values |
| ConfigSettings.LastSettingsDecide | rp1_chainboot_poc/src/rp1_config.rs:60-76 | start contract, entry and stack override are those of the last line of their kind, or the defaults |
| ConfigText.ParsedOwnersAreDisjoint | rp1_chainboot_poc/src/rp1_config.rs:136-148 | accepted masks are pairwise disjoint and name only known devices |
| ConfigText.ConfigIsPolicyIff | rp1_chainboot_poc/src/rp1_dtb_policy.rs:53-65 | an accepted file is a policy exactly when it has an owner table, names all ten devices and keeps both PIO blocks from Linux |
| ConfigPrint.PrintThenParse | rp1_chainboot_poc/src/rp1_config.rs:35-85 | a decision written as an owner table, in any order, is read back as its masks |
| ConfigPrint.PolicySurvivesTheFile | rp1_chainboot_poc/src/rp1_dtb_policy.rs:53-65 | a valid policy written to the file comes back as the same policy |
| ElfSections.FindNoteSection | rp1_chainboot_poc/src/rp1_note.rs:32-59 | the checks and the loop over section headers find the section defined on the file's bytes |
| ElfSections.NoteIsFirstOfItsName | rp1_chainboot_poc/src/rp1_note.rs:32-59 | that is the data of the first header of that name, if all headers up to it can be read, and a piece of the file |
| ElfSections.WrittenNoteIsFound | rp1_chainboot_poc/src/rp1_note.rs:32-59 | from an ELF file written with section headers, a name table and a note section, the note's bytes come back |
| BootNote.ParseNoteSection | rp1_chainboot_poc/src/rp1_note.rs:61-112 | the offset walk reads inside the section, moves forward and computes the notes' reading |
| BootNote.FirstRp1NoteDecides | rp1_chainboot_poc/src/rp1_note.rs:61-112 | for any list of padded notes the result is the record of the first RP1 note, or Invalid |
| BootNote.AcceptedSectionsAreLists | rp1_chainboot_poc/src/rp1_note.rs:61-112 | only such lists are accepted, up to the bytes after the RP1 note |
| BootNote.RecordRoundTrip | rp1_chainboot_poc/src/rp1_note.rs:114-161 | a record with supported flags and kind is read back |
| BootNote.AcceptedRecordIsEncoding | rp1_chainboot_poc/src/rp1_note.rs:114-161 | only such records are accepted; two gaps and the tail are free |
| BootNote.EnforceNotePolicy | rp1_chainboot_poc/src/main.rs:1630-1670 | note and file are consulted in this order, with these errors |
| NotePolicy.NotePolicyIff | rp1_chainboot_poc/src/main.rs:1630-1670 | for an image that carries a boot note there is a policy exactly when the note's three words partition the ten device bits with no PIO bit for Linux, and each device then has the owner in whose word its bit is |
| NotePolicy.NoteReachesTheTree | rp1_chainboot_poc/src/rp1_dtb_policy.rs:41-51 | and in the patched tree the first literal place of a device says "okay" exactly when its bit is in the word for Linux |
| BootNote.BootPolicyIsValid | rp1_chainboot_poc/src/main.rs:1630-1670 | every policy that comes out is valid, and it is the file's exactly when there is no note section |
| BootNote.FileNeverOverridesANote | rp1_chainboot_poc/src/main.rs:1630-1670 | with a note section, good or bad, the file has no influence |
| BootNote.FilePolicyIff | rp1_chainboot_poc/src/main.rs:1649-1664 | without one, the file yields a policy exactly when it is a readable text that names each device once, forces the boot last and has an owner table for all ten devices without a Linux PIO |
| BumpAllocator.AlignUpIsNextMultiple | rp1_chainboot_poc/src/main.rs:1894 | for a power of two the mask gives the least multiple at or above |
| BumpAllocator.Heap.AllocBlock | rp1_chainboot_poc/src/main.rs:1888-1903 | address and new state of an allocation |
| BumpAllocator.Heap.DeallocBlock | rp1_chainboot_poc/src/main.rs:1905-1921 | state after a free; an address below the heap is ignored |
| BumpAllocator.AllocIsSound | rp1_chainboot_poc/src/main.rs:1888-1903 | success exactly when there is room; the block is aligned, in the heap and apart from all live blocks; failure changes nothing |
| BumpAllocator.FreeIsSound | rp1_chainboot_poc/src/main.rs:1905-1921 | the offset goes back exactly for the topmost block, and never below a live one |
| BumpAllocator.RunsStayValid | rp1_chainboot_poc/src/main.rs:1887-1922 | over every lawful run live blocks stay disjoint, aligned, in the heap and below the offset |
| BumpAllocator.NestedRestoresIff | rp1_chainboot_poc/src/main.rs:1887-1922 | freeing in the opposite order restores the offset exactly when nothing was padded |
| BumpAllocator.WrongOrderLeaks | rp1_chainboot_poc/src/main.rs:1914-1921 | freeing an older block first never gives back more, and gives back less for adjacent blocks |
| ProbeCounts.InteriorProbeCounts.RecordOne | rp1_chainboot_poc/src/rp1_inbound_monitor.rs:2815-2859 | the counters stay those of the history |
| ProbeCounts.InteriorProbeCounts.Verdict | rp1_chainboot_poc/src/rp1_inbound_monitor.rs:2861-2867 | the gate on the counters is a statement about every record made |
| ProbeCounts.EveryRecordIsCounted | rp1_chainboot_poc/src/rp1_inbound_monitor.rs:2815-2859 | samples of the three phases, boundary and unprobed add up to the records |
| ProbeCounts.LanesBalance | rp1_chainboot_poc/src/rp1_inbound_monitor.rs:2695-2732 | on every lane the four classes add up to the samples |
| ProbeCounts.CountersCount | rp1_chainboot_poc/src/rp1_inbound_monitor.rs:2695-2779 | each counter is the number of its phase's records in that class |
| ProbeCounts.CohortsAre | rp1_chainboot_poc/src/rp1_inbound_monitor.rs:2835-2858 | the cohort of a record from its literal phases and completion flag |
| ProbeCounts.IntactMeans | rp1_chainboot_poc/src/rp1_inbound_monitor.rs:2734-2779 | what an intact record reads on every lane |
| ProbeCounts.HoleMeans | rp1_chainboot_poc/src/rp1_inbound_monitor.rs:2789-2806 | what a record during the hole reads on every lane |
| ProbeCounts.GateIsProven | rp1_chainboot_poc/src/rp1_inbound_monitor.rs:2734-2867 | the gate is open exactly when all before and after records are intact, in the required numbers, and every record during shows all ones on the target page only |
| ProbeCounts.RawBounds | rp1_chainboot_poc/src/rp1_inbound_monitor.rs:2682-2693 | the raw fields hold exactly the bits common to all, the bits present in any, the sum modulo 2, the first and the last of the values read, and are zero before a read |
| Gzip.SkipCstr | rp1_chainboot_poc/src/gzip.rs:111-120 | the offset just after the first zero byte, or failure if there is none |
| Gzip.ParseGzip | rp1_chainboot_poc/src/gzip.rs:80-109 | a returned range is non-empty and within [10, len-8), and is the payload of the member |
| Gzip.EncodeThenParse | rp1_chainboot_poc/src/gzip.rs:80-109 | for every combination of optional fields, payload and length come back, unless the payload is empty |
| Gzip.AcceptedIsEncoding | rp1_chainboot_poc/src/gzip.rs:80-109 | nothing but such a member is accepted |
| AsciiIpv4.ParseAsciiIpv4 | rp1_chainboot_poc/src/dhcp_boot.rs:438-487 | the scan with its octet array computes the address the text denotes |
| AsciiIpv4.DottedIsAccepted | rp1_chainboot_poc/src/dhcp_boot.rs:438-487 | four numerals up to 255 joined by dots denote their values, whatever padding follows |
| AsciiIpv4.AcceptedIsDotted | rp1_chainboot_poc/src/dhcp_boot.rs:438-487 | nothing else is accepted |
| AsciiIpv4.DisplayThenParse | rp1_chainboot_poc/src/dhcp_boot.rs:489-495 | a displayed address with NUL or blank padding is read back |
| Dhcp.ParseDhcpOptions | rp1_chainboot_poc/src/dhcp_boot.rs:330-362 | the loop over the option bytes computes their reading |
| Dhcp.EncodeThenParse | rp1_chainboot_poc/src/dhcp_boot.rs:330-362 | options written out are read back as their meaning: the last occurrence of each, message types only if one byte long |
| Dhcp.AcceptedIsEncoding | rp1_chainboot_poc/src/dhcp_boot.rs:330-362 | nothing but a list of options, ended by END or the buffer, is accepted |
| Dhcp.OptionsWriter.OptionBytes | rp1_chainboot_poc/src/dhcp_boot.rs:266-281 | an option is appended, or nothing changes when it does not fit |
| Dhcp.OptionsWriter.Finish | rp1_chainboot_poc/src/dhcp_boot.rs:283-289 | the end mark is written after the options if there is room |
| Dhcp.EncodeDhcpMessage | rp1_chainboot_poc/src/dhcp_boot.rs:209-254 | encoding never fails, and the packet is header, options, end mark and zeros |
| Dhcp.MessageSaysWhatWasMeant | rp1_chainboot_poc/src/dhcp_boot.rs:209-254 | the message's options read back as its type and server identifier |
| NetBoot.MonitorIsSafe | rp1_chainboot_poc/src/net_boot.rs:84-193 | the monitor accepts exactly the traces in which every use, release, reset and entry is allowed |
| NetBoot.ResetNeedsReinit | rp1_chainboot_poc/src/net_boot.rs:190-192 | any use of the device after a reset follows a new initialisation |
| NetBoot.Boot.InitTftpGem | rp1_chainboot_poc/src/net_boot.rs:477-546 | the device is in use afterwards exactly when initialisation succeeded, after PCIe and device set-up in this order |
| NetBoot.Boot.StartRp1Image | rp1_chainboot_poc/src/main.rs:711-984 | after one reset the start hands control back, refuses, or serves the debugger for good, as its steps' outcomes and the build decide: a dead link ends it, four attempts at the window do too |
| NetBoot.Boot.BootRp1FromTftp | rp1_chainboot_poc/src/net_boot.rs:552-594 | coming back means that everything was fetched and the device released, in this order, before the one reset, and the policy is the files'; a debugger build does not come back |
| NetBoot.Boot.LoadRp1Policy | rp1_chainboot_poc/src/net_boot.rs:640-671 | the policy that ELF note and configuration file, if the server has one, amount to, or none, after its stages in this order; a missing flush file is no failure |
| NetBoot.Boot.BootKernelWithLease | rp1_chainboot_poc/src/net_boot.rs:233-307 | Linux is entered only after the image check, with the device released and the policy's tree |
| NetBoot.Boot.BootPreloaded | rp1_chainboot_poc/src/net_boot.rs:89-164 | the preloaded variants enter Linux after one reset without a new initialisation, the sealed one with the downloaded tree |
| NetBoot.Boot.BootFromTftp | rp1_chainboot_poc/src/net_boot.rs:84-193 | on every run the trace is safe, and a run that enters Linux is exactly the script of its variant: no stage skipped or out of order; if nothing outside fails, with or without the optional files on the server, Linux is entered exactly when the files amount to an applicable policy and the build is not a debugger's |
| NetBoot.LinuxSeesItsOwnDevices | rp1_chainboot_poc/src/net_boot.rs:349-375 | at entry every mapped node shows its owner's status, and no PIO block is Linux's |
| NetBoot.NoteDecidesForLinux | rp1_chainboot_poc/src/net_boot.rs:349-375 | with a boot note on board, at entry the first literal place of each device says "okay" exactly when its bit is in the note's word for Linux |
| NetBoot.MalformedFileRefusesDespiteNote | rp1_chainboot_poc/src/net_boot.rs:665-667 | with a note section present, a boot policy needs the file to be well formed although it is not used |

## Left out

Deliberate limits of single members:

- MailboxCall.TrustedIffFresh: the device's own accesses are whole words, as its core makes them; it is the assumed partner, not proved.
- Seqlock.AcceptedCopyIsPublished: barriers are modelled by the order of events, not by a relaxed memory model, and word loads are atomic.
- DtbPatch.DeviceTree.ApplyRp1Policy: the tree is a map from full paths to properties; aliases, phandles and the serialised form belong to a library.
- ProbeCounts.InteriorProbeCounts.Verdict: needs fewer than 2^32 records, because the counters wrap.
- Admission.R1Admission.Sample: needs fewer than 2^32 calls, because the call counter would overflow.
- BumpAllocator.RunsStayValid: alignment is that of offsets; where the linker puts the heap, and the default `realloc`, are not captured.
- MailboxCommand.Commander.HandleReadMem: the size limit of a packet and reads of the mailbox itself, which need no command, are not captured.
- NetBoot.Boot.BootFromTftp: downloads, board and clock checks, inflation and header checks are steps with any outcome; what they inspect is not captured.

Not modelled:

- Hardware effects: MMIO, I2C, AON, UART and SD drivers, PCIe set-up, caches, exception vectors and the EL2 jump appear only as steps that may fail.
- RP1 firmware: it is the stated writer and mailbox device, nothing about it is proved.
- Reset into the boot ROM: its retry loops decide nothing but whether the boot goes on.
- GDB memory writes: the bytes put into the data area before the command are not followed to the device, nor is the direct write that takes over when the command fails.
- The rest of GDB command dispatch (registers, continue): short compositions of the framing, hexadecimal, chunk and mailbox operations modelled here.
- Snapshot contents: the lists of expected addresses and values checked after validation.
- The `/chosen` properties, the board comparison and the digests of sealed files.
- ELF loading and the firmware-parts image: bounds checks settled by reading.
- TFTP transfers and their port counter, UDP framing, the DHCP retry loop and reply header, and the choice among server addresses: short cascades or library code.
- Diagnostic builds that end in a halt after reloading RP1 (final-record readers, clock and inbound-monitor runs, telemetry without Linux).
- Mode drivers of the inbound monitor other than the interior probes, feature combinations refused at build time, logging, delays and host tools.
