# Ternvale verification

A Dafny model of the parts of Ternvale whose correctness is hardest to see from
the code: the ACPI table builder and its linker/loader compiler, the reader and
checker of tables in guest memory, the AML encoder, the guest agent's framing,
session and reconnect loop, and the log follower.

`dafny verify dfyconfig.toml` checks everything.

## What is modelled

**Tables.** `bytes.dfy` holds little-endian integers, sums modulo 256 and
in-place patches. `sdt.dfy` holds table headers, the RSDP and the Generic
Address Structure. `aml.dfy`, `aml_loops.dfy`, `aml_paths.dfy` and `amltree.dfy`
hold the AML encoder, the grammar of its paths, and a decoder written from
sections 20.2.2 to 20.2.5 of ACPI 6.5.
`config.dfy`, `madt.dfy`, `leaf_tables.dfy` and `dsdt.dfy` hold each table's
encoder and decoder. `tables.dfy` lays them out.

**The loader.** `blobs.dfy` relates patches of one big buffer to patches of its
parts. `loader_command.dfy` is the 128-byte command format. `loader.dfy` says
what the compiler must produce; `loader_build.dfy` is the compiler's loops and
the exact input it accepts. `firmware.dfy` is the firmware's two-pass
interpreter and the run of the compiled script. `relocate.dfy` says what
relocation means without the script, and `rebuild.dfy` that relocating a build
equals building elsewhere. `install.dfy` is the second pass at every address of
the tables file, and `built_relocation.dfy` states both for the builder.

**Read-back.** `dump.dfy` is the pointer-chasing walk, the RSDP scan and the
table writer. `verify.dfy` is the drift check and what it decides between
configs; `coverage.dfy` is which bytes of any table list it fixes.

**Agent and logs.** `frame.dfy` is framing and both readers over a stream with
arbitrary chunks and failures. `session.dfy` is one session as a sequence of
steps. `reconnect.dfy` is the reconnect loop. `logs.dfy` is filtering, printing
and following.

## Reading the model

- Loops of the source are methods with invariants; each is tied by its `ensures`
  to a function or a predicate that the lemmas are about. State the source
  updates in place (`FrameReader`, `Backoff`, `LineFilter`, `Tail`, the session's
  connection, a RAM image) is a class or an array.
- Integers are unbounded. Widths appear where they matter: table addresses must
  stay below 2^64 where the loader adds them without a check, a relocated
  value must fit its field, the MCFG re-basing wraps at 64 bits, and backoff
  saturates.
- The unchecked additions to interrupt numbers, to the bus range and to image
  addresses wrap, as in a release build; a debug build stops instead. So SPI
  0xffff_ffff is interrupt 31 and passes `validate`, here as there.
- A signature is its bytes; the source's lossy text form is equal for the same
  ASCII bytes.
- Reads of guest memory are a function from address and length to bytes or
  failure. A socket is a byte string and a plan of how the coming reads behave.
- The stop flag, deadlines, write and action outcomes are arbitrary at every
  point where the source asks for them.
- JSON payloads, log header parsing, lossy decoding and escape stripping are
  function parameters: the results hold for every such function.

## Where the code and its documentation differ

- The firmware interpreter beside the loader's tests requires every allocation
  to be aligned as asked. A Ternvale XSDT lies 40 bytes after a 16-aligned base
  and is never 64-aligned, so the model leaves alignment to the allocator.
- `verify` is documented to fail unless the tables are exactly those of the
  config. It reads some bytes of some tables. `Coverage.PassingAndElsewhere`
  gives, for every table list, which bytes passing fixes, and
  `Coverage.BaudGoesUnnoticed` a list that passes and is not the build. Among
  tables some config builds only the PSCI conduit goes unnoticed:
  `Drift.VerifyDecides` gives that condition and `Drift.SampleGoesUnnoticed` a
  concrete config.

## Model

| member | source | states |
|---|---|---|
| Bytes.SealSumsToZero | ternvale-acpi/src/sdt.rs:113-122 | Storing the checksum of a buffer over its zero checksum byte brings the byte sum to zero modulo 256. |
| Bytes.SealUnique | ternvale-acpi/src/sdt.rs:118-122 | Only one value of the checksum byte brings a given buffer's sum to zero. |
| Sdt.FillHeader | ternvale-acpi/src/sdt.rs:72-84 | The field-by-field copies into a zeroed 36-byte buffer give the header encoding. |
| Sdt.HeaderRoundTrip | ternvale-acpi/src/sdt.rs:72-108 | Parsing inverts header encoding for every header, whatever follows it. |
| Sdt.TableFacts | ternvale-acpi/src/sdt.rs:131-158 | A built table carries its signature, its own total length and its body unchanged, parses back to the given header, and sums to zero. |
| Sdt.FillRsdp | ternvale-acpi/src/rsdp.rs:35-52 | Filling the RSDP in place, the second checksum over the first, gives the RSDP encoding. |
| Sdt.RsdpFacts | ternvale-acpi/src/rsdp.rs:35-58 | The RSDP has its signature, revision 2, a zero RsdtAddress, the given XsdtAddress, and both checksums hold. |
| Sdt.GasRoundTrip | ternvale-acpi/src/gas.rs:43-70 | Parsing inverts Generic Address Structure encoding, whatever follows. |
| AmlLoops.BuildPkgLength | ternvale-acpi/src/aml.rs:46-73 | The loop over the four forms, with its byte-pushing inner loop, computes the PkgLength that the next two rows are about. |
| Aml.PkgLengthRoundTrip | ternvale-acpi/src/aml.rs:46-73 | PkgLength succeeds exactly for contents up to 2^28 - 5, decodes to the content plus its own size whatever follows, and keeps bits 5-4 of a multi-byte lead zero. |
| Aml.PkgLengthShortest | ternvale-acpi/src/aml.rs:46-73 | No PkgLength of fewer bytes counts itself and the same content. |
| AmlLoops.BuildNameString | ternvale-acpi/src/aml.rs:98-139 | Stripping root and parent prefixes in place, then padding each segment, gives the NameString encoding, with the same errors. |
| AmlPaths.PathGrammar | ternvale-acpi/src/aml.rs:77-139 | A path parses to a name exactly when it spells it: the root or caret prefix followed by the dot-joined segments, each of one to four allowed characters and padded with `_` in the name. No segments only after a prefix. |
| AmlPaths.NameStringsAlike | ternvale-acpi/src/aml.rs:77-139 | Two paths encode alike exactly when they have the same prefix and as many segments, pairwise equal up to trailing `_`. |
| AmlTree.NameStringRoundTrip | ternvale-acpi/src/aml.rs:77-139 | A NameString decodes to the name its path spells (root, parents and padded segments, as the grammar row says) and ends exactly at the encoder's last byte. |
| AmlTree.IntegerRoundTrip | ternvale-acpi/src/aml_data.rs:42-51 | Every 64-bit integer decodes back, whatever follows. |
| AmlTree.TextRoundTrip | ternvale-acpi/src/aml_data.rs:115-127 | Every string that encodes decodes back, whatever follows. |
| AmlTree.BufferRoundTrip | ternvale-acpi/src/aml_data.rs:131-140 | Every buffer that encodes decodes back, whatever follows. |
| AmlTree.DataRoundTrip | ternvale-acpi/src/aml_data.rs:42-140 | Every tree of integers, strings, buffers and packages that encodes decodes back and stops at the encoder's last byte, whatever follows. |
| AmlTree.TermRoundTrip | ternvale-acpi/src/aml.rs:148-190 | Every tree of Name, Scope and Device terms that encodes decodes back, names up to padding, and stops at the encoder's last byte, whatever follows. |
| AmlTree.TermsRoundTrip | ternvale-acpi/src/aml.rs:148-190 | A whole term list decodes back to the list that was encoded. |
| AmlTree.TermsInjective | ternvale-acpi/src/aml.rs:148-190 | Two term lists with the same encoding are the same list, names up to padding. |
| Resource.WordBusNumberInjective | ternvale-acpi/src/aml_resource.rs:71-91 | Equal bus-range descriptors describe the same range. |
| Resource.DWordMemoryInjective | ternvale-acpi/src/aml_resource.rs:102-128 | Equal 32-bit memory window descriptors describe the same base and length. |
| Resource.Memory32FixedInjective | ternvale-acpi/src/aml_resource.rs:139-157 | Equal fixed memory descriptors describe the same base and length. |
| Resource.ExtendedInterruptInjective | ternvale-acpi/src/aml_resource.rs:161-175 | Equal interrupt descriptors name the same interrupt. |
| Resource.TemplateInjective | ternvale-acpi/src/aml_resource.rs:180-184 | Equal resource templates hold the same descriptors. |
| Dsdt.EisaIdInjective | ternvale-acpi/src/aml_data.rs:63-85 | Two EISA ids with the same packed value are the same id. |
| Dsdt.RoutesInjective | ternvale-acpi/src/pci_root.rs:69-79 | The routing table determines the four INTx interrupts. |
| Dsdt.PciRootWritesTree | ternvale-acpi/src/pci_root.rs:91-144 | The PCI root bridge bytes are the encoding of the device tree it describes. |
| Dsdt.BuildDsdt | ternvale-acpi/src/dsdt.rs:28-38 | Extending the device list only with the devices present, then wrapping it, gives the DSDT encoding, with the same errors. |
| Dsdt.DsdtBuilds | ternvale-acpi/src/dsdt.rs:28-38 | For every config the DSDT builds exactly when every resource range is representable, and is then at most 8 KiB. |
| Dsdt.ValidDescribable | ternvale-acpi/src/config.rs:146-231 | For a valid config that is exactly when the ECAM window, one MiB a bus, ends at or below 4 GiB. |
| Dsdt.BodyWritesTree | ternvale-acpi/src/dsdt.rs:28-38 | The DSDT body is the AML encoding of the config's device tree. |
| Dsdt.DsdtInjective | ternvale-acpi/src/dsdt.rs:28-38 | Configs with the same DSDT agree on PCI, ECAM, USB, and the TPM window. |
| Dsdt.SameAmlSameDsdt | ternvale-acpi/src/dsdt.rs:28-38 | Configs that agree on those fields have the same DSDT. |
| Madt.BuildMadt | ternvale-acpi/src/madt.rs:64-100 | The loop that patches and appends one GICC per CPU, then the GICD and GICR, gives the MADT encoding. |
| Madt.DecodeMadt | ternvale-acpi/src/decode.rs:141-188 | The structure loop terminates on every byte string and returns the same result as the tiling-based reading. |
| Madt.DecodedMadtLists | ternvale-acpi/src/decode.rs:88-188 | Past the header check, decoding succeeds exactly when the bytes from offset 44 tile into at most 4096 structures of length at least 2 with GICC, GICD and GICR ones long enough, and then lists those in table order. |
| Madt.MadtRoundTrip | ternvale-acpi/src/madt.rs:64-100 | Decoding the MADT of a valid config returns its CPUs in order and its GIC windows; the table sums to zero and states its own length. |
| Gtdt.BuildGtdt | ternvale-acpi/src/gtdt.rs:32-55 | The loop that patches four timer slots gives the GTDT encoding, with the PPI range error. |
| Gtdt.GtdtRoundTrip | ternvale-acpi/src/decode.rs:192-201 | Decoding a GTDT returns the config's four timer interrupts and flags. |
| Mcfg.McfgRoundTrip | ternvale-acpi/src/mcfg.rs:25-52 | Decoding an MCFG returns the one allocation, based at bus 0. |
| Spcr.BuildSpcr | ternvale-acpi/src/spcr.rs:46-59 | The in-place patches of a zeroed body give the SPCR encoding. |
| Spcr.SpcrRoundTrip | ternvale-acpi/src/decode.rs:225-233 | Decoding an SPCR returns the PL011 type, the UART address and its interrupt. |
| Dbg2.DecodeDbg2 | ternvale-acpi/src/decode.rs:237-264 | The device loop returns the recursive reading of the device list, errors included, for every byte string. |
| Dbg2.Dbg2RoundTrip | ternvale-acpi/src/dbg2.rs:47-77 | Decoding a DBG2 returns the one debug port with the UART's base and length. |
| Tpm2.Tpm2RoundTrip | ternvale-acpi/src/tpm2.rs:71-126 | Decoding a TPM2 table returns the control area and start method. |
| Fadt.BuildFadt | ternvale-acpi/src/fadt.rs:70-90 | The in-place patches of a zeroed body give the FADT encoding. |
| Fadt.FadtFacts | ternvale-acpi/src/fadt.rs:70-90 | The FADT's only non-zero table pointer is X_DSDT, which is the given address. |
| Xsdt.XsdtFacts | ternvale-acpi/src/xsdt.rs:17-26 | Entry i of the XSDT is the i-th given address; the table sums to zero and states its own length. |
| Layout.Addresses | ternvale-acpi/src/tables.rs:109-130 | The bump-allocation loop gives every table the closed-form offset, and overflows exactly when the layout does not end below 2^64. |
| Layout.LayOut | ternvale-acpi/src/tables.rs:109-177 | The three outcomes (overflow, too small, the table set) are decided exactly by the closed-form total. |
| Layout.LayoutIsGood | ternvale-acpi/src/tables.rs:109-177 | In any layout tables are in order, 8-aligned, disjoint and inside the region, and every RSDP, XSDT and X_DSDT pointer is the start of the table it names. |
| Tables.Build | ternvale-acpi/src/tables.rs:92-178 | `build` returns, for every base, size and config, the closed-form result or the first failing check's error. |
| Tables.PartsAreSound | ternvale-acpi/src/tables.rs:98-108 | Every table built from a valid config states its own signature and length, sums to zero and is at most 1 MiB. |
| Tables.LayoutHolds | ternvale-acpi/src/tables.rs:92-178 | Whenever `build` succeeds the layout is good and has nine tables, or ten with a TPM. |
| Tables.OffsetsIndependent | ternvale-acpi/src/tables.rs:92-178 | Offsets from the base do not depend on the base or the size. |
| LoaderCommands.CommandRoundTrip | ternvale-acpi/src/loader_command.rs:61-136 | Every command that encodes decodes back from its 128-byte entry. |
| LoaderCommands.EncodeAll | ternvale-acpi/src/loader.rs:207-213 | A script encodes exactly when every name is non-empty, at most 55 bytes and free of NUL, into 128 bytes a command. |
| LoaderCommands.EncodeScript | ternvale-acpi/src/loader.rs:207-213 | The appending loop gives that encoding, or its first error. |
| LoaderCommands.ScriptRoundTrip | ternvale-acpi/src/loader_command.rs:61-156 | Splitting an encoded script into 128-byte entries and decoding each returns the command list. |
| Loader.FieldsAreSeparate | ternvale-acpi/src/loader.rs:228-245 | A table's pointer fields are disjoint, inside the table and outside its header. |
| LoaderBuild.Place | ternvale-acpi/src/loader.rs:117-138 | The placing loop accepts sorted tables exactly when they are whole, disjoint and within 1 MiB, and then holds each at its offset with zeros between. |
| LoaderBuild.Patch | ternvale-acpi/src/loader.rs:139-163 | Patching one table's pointers in the blob succeeds exactly when each non-zero one names a table start, and then stores exactly the relative values and emits one command per non-zero field. |
| LoaderBuild.Link | ternvale-acpi/src/loader.rs:152-163 | The pointer loop over all tables leaves every table relative and the commands of every table in order. |
| LoaderBuild.ClearChecksums | ternvale-acpi/src/loader.rs:164-167 | The checksum loop zeroes each table's checksum byte and emits its command, and changes nothing else. |
| LoaderBuild.Build | ternvale-acpi/src/loader.rs:100-203 | `build` succeeds exactly on the accepted sets and then returns the specified blobs and script; every failure is the loader error. |
| LoaderInput.AcceptsIsLinkable | ternvale-acpi/src/loader.rs:101-176 | A set is accepted (one 36-byte RSDP; at least one other table; all whole, pairwise disjoint and ending within 1 MiB of the lowest; every non-zero pointer naming a table start) exactly when its sorted tables link. |
| LoaderInput.OrderIndependent | ternvale-acpi/src/loader.rs:101-176 | Acceptance and the result do not depend on the order of the tables. |
| Relocation.ScriptRelocates | ternvale-acpi/src/loader.rs:7-14 | Executing the compiled script completes exactly when every relocated value fits its field, and then leaves the sealed, moved files. |
| Moving.SealedPartMoved | ternvale-acpi/src/loader.rs:152-167 | After a run a table has each non-zero pointer moved by exactly the new base minus the lowest address, sums to zero, and no other byte has changed. |
| Moving.SealedRsdpMoved | ternvale-acpi/src/loader.rs:168-190 | The same for the RSDP, with both its checksums. |
| Moving.MovedOnce | ternvale-acpi/src/loader.rs:152-167 | At most one byte string is a given table moved in that sense. |
| RelocatedSets.ScriptMeaning | ternvale-acpi/src/loader.rs:117-203 | For every accepted set and every base: no command is out of range exactly when all moved pointers fit, and then both files are at their bases, every table is moved in place, and the bytes between are zero. |
| RelocatedSets.RelocatedOnce | ternvale-acpi/src/loader.rs:117-203 | Only one memory satisfies that description. |
| ScriptFile.ScriptFileReads | ternvale-acpi/src/loader.rs:207-213 | The script of every accepted set encodes, and the file decodes back to it. |
| BuiltSets.SetAccepted | ternvale-acpi/src/loader.rs:100-203 | Every table set the builder lays out is accepted, with its tables already in order. |
| Rebuild.TablesMove | ternvale-acpi/src/tables.rs:118-171 | Tables built at two bases differ only in pointers, by the distance between the bases, and in checksums. |
| Rebuild.RunRebuilds | ternvale-acpi/src/loader.rs:100-203 | The script compiled at one base, run at another, leaves exactly the RSDP and the memory image built there. |
| BuiltRelocation.RelocatingIsRebuilding | ternvale-acpi/src/loader.rs:100-203 | For every config and any two bases where `build` succeeds, running the script compiled from the first build with the tables file where the second puts its XSDT leaves the second build, table by table and byte for byte. |
| Installing.FitsWhen | ternvale-acpi/src/loader.rs:100-203 | For a laid-out set and every address of the tables file, all moved pointers fit exactly when the last table then starts below 2^64. |
| Installing.InstalledIsAll | ternvale-acpi/src/loader.rs:11-13 | When the script's targets are distinct the second pass looks at every one. |
| BuiltRelocation.InstallsAllButRoots | ternvale-acpi/src/loader.rs:11-13 | For every build and every address of the tables file: the compiled script runs to completion exactly when the last table then starts below 2^64; the set is then relocated there, and the second pass installs the FADT, every leaf and the DSDT, each as it lies in the file and exactly once, and neither the XSDT nor anything else. |
| BuiltRelocation.InstallsRebuilt | ternvale-acpi/src/loader.rs:11-13 | With the tables file where a second build puts its XSDT, the installed tables are that build's, byte for byte. |
| Dump.Walk | ternvale-acpi/src/dump.rs:87-171 | The walking loop returns the recursive reading for every reader, errors included. |
| Dump.WalkIsBounded | ternvale-acpi/src/dump.rs:87-171 | Whatever the reader returns, a successful walk gives a checked RSDP, its XSDT, and at most two tables an entry for at most 64 entries, each exactly as read and at most 1 MiB. |
| Dump.WalkFindsAll | ternvale-acpi/src/dump.rs:87-171 | From any memory holding a laid-out set the walk returns that set in order. |
| GuestMemory.Write | ternvale-acpi/src/tables.rs:208-240 | The writing loop succeeds exactly when every table is in the image and then puts each at its address; on failure only the tables before the failing one are written. |
| GuestMemory.WrittenReads | ternvale-acpi/src/tables.rs:208-240 | Disjoint tables can all be read back after the last is written. |
| GuestMemory.WalkUndoesBuild | ternvale-acpi/src/dump.rs:87-171 | `walk` undoes `build`: from any memory holding the built tables it returns the same signatures, addresses and bytes in the same order, for every config and base. |
| GuestMemory.WalkUndoesWrite | ternvale-acpi/src/dump.rs:87-171 | Build, write into any image with room, walk: the same tables come back. |
| RsdpScan.NextSignature | ternvale-acpi/src/dump.rs:182-189 | The first signature at or after an offset, or none. |
| RsdpScan.FindRsdp | ternvale-acpi/src/dump.rs:182-201 | The addresses found are exactly those of the whole RSDPs with the signature and both checksums, once each and in image order, for every image and base. |
| RsdpScan.WalkImage | ternvale-acpi/src/dump.rs:211-236 | For every image and base: the tables of the first candidate that walks cleanly, or NoRsdp exactly when none does. |
| RsdpScan.WrappedFails | ternvale-acpi/src/dump.rs:182-223 | A candidate whose address wraps past 2^64 lies below the image and never walks. |
| Verify.FirstDifference | ternvale-acpi/src/verify.rs:184-189 | The position returned is the first where the strings differ, the end of the shorter one counting; none exactly when they are equal. |
| Verify.CheckMadt | ternvale-acpi/src/verify.rs:65-87 | No problem exactly when the table decodes to the config's GIC windows and CPUs, in order, count included. |
| Verify.CheckGtdt | ternvale-acpi/src/verify.rs:88-103 | No problem exactly when all four interrupts and flags are the config's. |
| Verify.CheckMcfg | ternvale-acpi/src/verify.rs:104-122 | No problem exactly when the one window, re-based to its first bus, is the config's. |
| Verify.CheckDsdt | ternvale-acpi/src/verify.rs:123-140 | No problem exactly when the config's DSDT builds and the found bytes are that DSDT. |
| Verify.CheckSpcr | ternvale-acpi/src/verify.rs:141-151 | No problem exactly when type, address, interrupt type and interrupt are the config's. |
| Verify.CheckDbg2 | ternvale-acpi/src/verify.rs:152-162 | No problem exactly when the one device is the config's UART. |
| Verify.CheckTpm2 | ternvale-acpi/src/verify.rs:163-170 | No problem exactly when the table decodes and, where the config has a TPM, describes it. |
| Verify.CheckSums | ternvale-acpi/src/verify.rs:52-57 | No problem exactly when every table's checksum holds, both for the RSDP. |
| Verify.Check | ternvale-acpi/src/verify.rs:44-180 | For every table list and config, `verify` returns Ok exactly when the table set, all sums and all seven contents match. |
| Drift.MadtDecides | ternvale-acpi/src/verify.rs:65-87 | A built MADT passes exactly when GIC and CPUs agree. |
| Drift.DsdtDecides | ternvale-acpi/src/verify.rs:123-140 | A built DSDT passes exactly when PCI, ECAM, USB and the TPM window agree. |
| Drift.VerifyDecides | ternvale-acpi/src/verify.rs:44-180 | Tables built from one config and read back pass against any config exactly when the two agree on every field but the PSCI conduit. |
| Drift.ConduitGoesUnnoticed | ternvale-acpi/src/verify.rs:37-44 | Every build passes against the config with the other conduit, although that config's build has another FADT. |
| Drift.SampleGoesUnnoticed | ternvale-acpi/src/verify.rs:37-44 | A concrete config for which tables other than the expected ones pass. |
| Coverage.PassingAndElsewhere | ternvale-acpi/src/verify.rs:37-180 | For every table list: it is the build exactly when it passes and also agrees with the build in addresses, lengths and the bytes and flag bits `verify` never reads. So passing fixes all the other bytes. |
| Coverage.FreeTables | ternvale-acpi/src/verify.rs:45-64 | In a list that passes, the XSDT or the FADT may be replaced by any bytes that sum to zero. |
| Coverage.BaudGoesUnnoticed | ternvale-acpi/src/verify.rs:141-151 | Every build with its SPCR baud rate set to zero and the table resealed still passes. |
| Frames.FrameRoundTrip | ternvale-agent-proto/src/frame.rs:82-102 | An encoded frame reads back, whatever follows, exactly when its payload is not empty. |
| Frames.FramesRoundTrip | ternvale-agent-proto/src/frame.rs:82-136 | A stream of encoded frames gives back their payloads, decoded, in order, then a clean close. |
| Frames.FrontStays | ternvale-agent-proto/src/reader.rs:55-66 | A whole frame or a bad length at the front does not depend on what follows. |
| Streams.ReadFully | ternvale-agent-proto/src/frame.rs:108-136 | On every stream: the bytes asked for, or all there are at the end of the stream, or the first failure other than an interruption; nothing is reordered or invented. |
| Streams.ReadMessage | ternvale-agent-proto/src/frame.rs:108-124 | On every stream, `read_message` returns the first item and consumes exactly its frame, or the four prefix bytes of a bad length; or it passes on a failure of the stream. |
| Streams.ReadAllMessages | ternvale-agent-proto/src/frame.rs:108-136 | Repeated `read_message` gives the items of the stream up to and including the one that ends it; a failure of the stream only cuts the list short. |
| Streams.FrameReader.TakeFrame | ternvale-agent-proto/src/reader.rs:55-66 | A frame is taken exactly when one is whole in the buffer; otherwise the buffer is kept. |
| Streams.FrameReader.Read | ternvale-agent-proto/src/reader.rs:36-53 | Whatever the chunks and failures, the next item is the first of the bytes buffered and still to come, no byte is lost, and the buffer stays within MAX_FRAME + 4099 bytes. |
| Streams.ReadAllBuffered | ternvale-agent-proto/src/reader.rs:36-66 | Chunk independence: retried after every timeout, the buffered reader gives the same items as repeated `read_message`, for every split and every placement of timeouts; any other failure only cuts the list short. |
| Protocol.Negotiate | ternvale-agent-proto/src/lib.rs:63-74 | The negotiated version is the lower of the two, refused exactly below the minimum. |
| Session.NextMessage | ternvale-agent/src/session.rs:228-252 | The next valid message in the stream, with frames that are not one skipped and nothing lost on a tick, a stop or a timeout; a disconnect means no message was left, and ticks come only from timeouts of the stream. |
| Session.Handshake | ternvale-agent/src/session.rs:63-112 | Only Hello is sent; messages before the first Welcome or Reject are ignored and that one decides; unread messages stay with the reader, and none is left after a disconnect; which errors are possible. |
| Session.Handle | ternvale-agent/src/session.rs:140-196 | What each request sends and does, and exactly when the session ends there. |
| Session.PushClipboard | ternvale-agent/src/session.rs:199-218 | At most one clipboard is pushed, never above the cap. |
| Session.ServeRequests | ternvale-agent/src/session.rs:114-197 | The requests handled are exactly the next messages of the stream, in order; all of them unless a step, a stop, a timeout or a failing stream ended the session; nothing follows the step that ended it. |
| Session.Serve | ternvale-agent/src/session.rs:31-60 | Over every session: nothing but Hello before an acceptable Welcome; then the messages after it in order, and every one when the stream ended it; on the whole log the Pongs answer the Pings, the actions are those requested, each once and in order, and powering off is at most once and last; a shutdown end means Shutdown was the last request. |
| Protocol.PongsAnswerPings | ternvale-agent/src/session.rs:140-148 | The Pongs tried are the Pings in order, and those sent are all of them or all but the last. |
| Protocol.ActionsFollowRequests | ternvale-agent/src/session.rs:140-188 | The actions run are those the requests ask for, in request order, each once. |
| Protocol.PowerOffIsLast | ternvale-agent/src/session.rs:175-178 | Powering off happens at most once and is the last thing a session does. |
| Reconnect.DelayDoubles | ternvale-agent/src/backoff.rs:28-32 | One more failure doubles the delay up to the limit, also where the multiplication saturates. |
| Reconnect.Backoff.NextDelay | ternvale-agent/src/backoff.rs:28-32 | After k failures in a row the delay is min(initial * 2^k, max). |
| Reconnect.Backoff.Reset | ternvale-agent/src/backoff.rs:36-41 | The count of failures in a row starts again. |
| Reconnect.Run | ternvale-agent/src/lib.rs:76-104 | Over every run, the delay after the k-th failure since the start or the last handshaken session is min(initial * 2^(k-1), max) and the counter is that k; the loop ends at the first stop or host shutdown. |
| Reconnect.Sleep | ternvale-agent/src/lib.rs:106-114 | Every nap is at most 20 ms and all but the last exactly that; they add up to the whole delay unless stopped, and to less if stopped. |
| LogFormat.UnderIsByComponent | ternvale-cli/src/logfmt.rs:79-87 | For paths whose components hold no colon, a target is under a prefix exactly when the prefix's `::`-components begin the target's. |
| LogFormat.MatchesByComponent | ternvale-cli/src/logfmt.rs:79-87 | A wanted target matches exactly when its components begin the record's, with or without the leading `ternvale`. |
| LogFormat.WiderShowsMore | ternvale-cli/src/logfmt.rs:63-73 | More wanted targets, a lower level or no level never hide a record that was shown. |
| LogTail.LineFilter.Accept | ternvale-cli/src/logfmt.rs:106-111 | A header line decides; any other line follows the last decision. |
| LogTail.LineFilter.EmitLines | ternvale-cli/src/logs.rs:217-220 | Cutting after each newline and emitting gives the output of the line list and leaves its filter state. |
| LogTail.ContinuationsFollow | ternvale-cli/src/logfmt.rs:89-111 | The continuation lines of a record are all shown or all hidden with it. |
| LogTail.LinesJoin | ternvale-cli/src/logs.rs:214-221 | The lines of a content are that content, cut. |
| LogTail.LinesAppend | ternvale-cli/src/logs.rs:214-221 | Lines of whole lines and what follows them are the lines of each. |
| LogTail.PrintFile | ternvale-cli/src/logs.rs:109-128 | Printing shows the filtered lines of the whole content. |
| LogTail.Tail.Poll | ternvale-cli/src/logs.rs:186-223 | A poll emits exactly the lines completed by the new bytes, keeps the rest, and starts over after a truncation. |
| LogTail.GrowingOffersAll | ternvale-cli/src/logs.rs:186-223 | While a file only grows, what the polls have offered is the lines of its content up to the last newline. |
| LogTail.Follow | ternvale-cli/src/logs.rs:134-223 | For every sequence of contents the output is the filtered printing of the lines offered, a truncation starting over from an empty file; for a file that only grows it is what printing the content up to the last newline seen would show. |
| LogNames.StampIsExact | ternvale-cli/src/logs.rs:34-43 | A file name has a stamp for a VM exactly when it is that VM's log name with a well-formed stamp. |
| LogNames.OneVmPerLog | ternvale-cli/src/logs.rs:4-5 | No file is a log of two VMs. |

## Left out

- LoaderBuild.Build: requires that a table's offset from a lower one plus its length stays below 2^64, because the source adds them without a check and there either stops or resizes its buffer to that offset.
- Verify.Check: the texts and the order of the reported problems are not modelled.
- Reconnect.Run: over the sequence of what its turns meet, of any finite length, because the loop itself need not end.
- LogTail.Follow: one file; switching to a newer log on rotation and failing writes are not modelled.
- Straight-line buffers filled by appends or copies (MCFG, DBG2, TPM2, resource descriptors, data objects, single commands) are modelled as the byte string they end up as, not as a sequence of updates.
- Sorting by address is modelled as a stable insertion sort; the tables' addresses are distinct whenever the set is accepted.
- JSON inside frames, `Message::validate`, and the message texts of errors.
- Choosing the highest protocol version on the host's side, and the host's half of the session.
- Sockets, vsock, virtio-serial, services and the other platform calls behind the agent.
- `parse`, `find_target` and `strip_ansi` in the log formatter, and listing log files in a directory.
- `compare.rs`, `summary.rs`, status rendering and tracing.
- The virtual machine itself, its devices, the control server, the command-line tools and release scripts.
