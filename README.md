# Linux-on-LiteX-VexRiscv helpers: a Dafny model

This project models the small pieces of gateware and build logic that this
Linux-on-LiteX-VexRiscv fork adds on top of migen/LiteX, and proves
properties of each piece:

- **CSRTransform** (`CSRTransform.py`) is a module transformer. It
  captures a module's control/status registers and disables `get_csrs`.
  It exposes each register as a module attribute, turns off
  `finalize` on compound registers and hands them to the parent as
  submodules. For every `CSRStorage` it adds a delayed write strobe and
  writable staging signals (`dat_w`), one per field or one for the whole
  register, that load `storage` when `re` is pulsed.
- **StreamGenerator** (`stream_gen.py`) is a two-state FSM (INIT,
  ADD_CHAR). On a rising edge of `start` it presents the bytes of the
  read-only buffer `"root\n"` on a ready/valid stream. A 32-bit countdown
  of 20 clocks separates two transfers.
- **add_fsm_state_names** (`lcd_test.py`) replaces migen's FSM control
  lowering. `NextState` drives both the numeric next-state register and a
  `next_state_name` register holding the state's name as a big-endian
  integer. `NextValue` targets are kept in a registry of
  (target, enable, value) signals.
- **make.py** contributes the following:
  - the HADBadge `flash()` image layout: regions shifted below the DFU
    base, each written as a `<len><crc32><payload>` block at its address,
    and the size report;
  - the hexadecimal offset literals;
  - board selection, the per-board SoC options, and the SPI-flash setup
    in `main()`.

How operations are modelled:

- Operations that change state in the source are classes whose methods
  update fields:
  - `Transformer.TransformInstance`;
  - `StorageRegister.Step`;
  - `StreamGenerator.Step`;
  - `LowerNext.VisitUnknown`;
  - `NamedFsm.Step`.
- Loops in the source are methods with loops, proved against
  specification functions:
  - `GetRegisterControl`;
  - `Transformer.BindRegisters`;
  - `Flash`, `RegionTable` and `WriteImage`.
- The rest is pure functions with lemmas.

Stubs and parameters:

- File contents and `binascii.crc32` are parameters of the flash model.
- migen's `_target_eq` is a parameter of the lowering.
- Signals created by the lowering are numbered instead of allocated.

## Model

| member | source | states |
|---|---|---|
| Bytes.FromBigEndian | lcd_test.py:89 | `int.from_bytes(name, "big")` of an n-byte name is below 256^n |
| Bytes.BigEndianRoundTrip | lcd_test.py:89 | decoding the n bytes of the integer gives back the encoded name: the name register loses no information |
| Bytes.MinimalDecodeIff | lcd_test.py:89 | the shortest byte string of the encoded integer is the name itself exactly when the name has no leading NUL byte |
| Bytes.Pow2OfBytes | lcd_test.py:104-105 | a register of 8·k bits holds exactly the values below 256^k |
| Bytes.LittleEndian32 | make.py:230-231 | `struct.pack('<I', x)` is four bytes |
| Bytes.LittleEndian32Bytes | make.py:230-231 | the four bytes are the base-256 digits of x, least significant first |
| Bytes.LittleEndian32RoundTrip | make.py:230-231 | unpacking `struct.pack('<I', x)` gives x back for every 32-bit x |
| Bytes.LittleEndian32Decode | make.py:230-231 | every 4-byte header is the packing of the value it decodes to, so the header encoding is a bijection |
| CsrTransform.StagingLatches | CSRTransform.py:56-57 | one staging signal per field, in field order, named `<reg>_<field>0` and as wide as the field |
| CsrTransform.Bind | CSRTransform.py:28-67 | a plain CSR is bound unchanged. Every other register has `finalize` neutered. Exactly the `CSRStorage` registers get the `re0`/`re` strobes and a staging signal for each field, under the field's name and as wide as the field, or one `dat_w` as wide as the register when it has no fields |
| CsrTransform.BindAllByName | CSRTransform.py:22-28 | after the loop, an attribute exists iff it existed before or some register has that name. The last register with a name is the one bound, and other attributes are untouched |
| CsrTransform.Compounds | CSRTransform.py:30-41 | the parent gains at most one submodule per register |
| CsrTransform.CompoundsAreClosed | CSRTransform.py:30-41 | the parent's new submodules are exactly the non-plain registers, each with `finalize` neutered |
| CsrTransform.Transformer.BindRegisters | CSRTransform.py:22-41 | the loop leaves the attributes bound as the registers say, in order, and the parent's submodules grown by exactly the compound registers. It does not touch `get_csrs`, and when the parent is another module it changes nothing else |
| CsrTransform.Transformer.TransformInstance | CSRTransform.py:17-41 | consumes `get_csrs`. Attributes become the bound registers and the parent's submodules grow by the compound registers. A second call finds `get_csrs` gone and changes nothing |
| CsrTransform.Lanes | CSRTransform.py:54-67 | the storage write lanes: the fields' `[offset, offset+size)` ranges, or the whole register without fields |
| CsrTransform.WriteSlice | CSRTransform.py:60 | `storage[a:b].eq(s)` changes exactly the bits of the slice that exist and keeps all other bits |
| CsrTransform.Commit | CSRTransform.py:59-61 | a commit keeps the width of `storage` |
| CsrTransform.CommitBits | CSRTransform.py:59-61 | after a commit each bit holds the value of the last lane covering it, or its old value if no lane covers it |
| CsrTransform.FieldCommit | CSRTransform.py:56-61 | with disjoint fields, every field bit holds its staging value and every other bit keeps its old value |
| CsrTransform.WholeCommit | CSRTransform.py:64-67 | without fields, a commit loads the whole `dat_w` into `storage` |
| CsrTransform.StagingFitsLanes | CSRTransform.py:54-67 | the staging signals the transform creates are exactly as wide as the lanes they load |
| CsrTransform.StorageRegister.Step | CSRTransform.py:44-67 | on a clock edge `re0` takes `re`. Storage takes the commit of the staging values when `re` is high and is held otherwise |
| StreamGen.ReadPort | stream_gen.py:40-50 | the buffer yields its byte for addresses 0..4 and nothing defined beyond |
| StreamGen.ResetSatisfiesInv | stream_gen.py:17-54 | the reset state (INIT, counter and cursor zero, latch low) satisfies the machine's invariant |
| StreamGen.NextPreservesInv | stream_gen.py:24-81 | every clock edge keeps the countdown within 20 and the cursor within 5 while presenting bytes. In ADD_CHAR the edge latch is high |
| StreamGen.Output | stream_gen.py:67-70 | a valid output only comes from ADD_CHAR and carries the buffer byte at the cursor. An invalid output drives data 0 |
| StreamGen.Next | stream_gen.py:24-81 | INIT clears the cursor and latches `start`. ADD_CHAR holds the latch, and without a handshake it also holds the state and the cursor |
| StreamGen.CounterRule | stream_gen.py:24-34 | the countdown reloads to 20 exactly on a handshake, otherwise counts down and stops at zero. A handshake needs `counter_done` |
| StreamGen.InitSamplesStart | stream_gen.py:54-62 | in INIT the cursor is cleared and `start` is latched. The machine leaves INIT iff `start` rises, and nothing is valid |
| StreamGen.AddCharIgnoresStart | stream_gen.py:67-81 | in ADD_CHAR the next state does not depend on `start`, and the latch is held |
| StreamGen.ValidOnlyWhenDue | stream_gen.py:67-70 | `valid` is high iff the machine is in ADD_CHAR and the countdown is zero; it then carries the buffer byte at the cursor |
| StreamGen.CursorRule | stream_gen.py:71-77 | the cursor advances by one exactly on a handshake. The machine returns to INIT iff a handshake happens with the cursor past index 4 |
| StreamGen.AddCharStep | stream_gen.py:67-77 | a handshake in ADD_CHAR reads the byte at the cursor and advances it, returning to INIT iff the cursor was 5. Without a handshake cursor and state are held |
| StreamGen.CountdownSilences | stream_gen.py:24-34 | during the countdown no byte is valid, and the counter falls by one per clock |
| StreamGen.HandshakeThenSilence | stream_gen.py:24-77 | after a transfer the output stays invalid for 20 clocks, then the countdown is done. If the transfer left the cursor at 5 or below, the machine is still in ADD_CHAR and the output is valid with the next byte |
| StreamGen.PassHandsOverRemaining | stream_gen.py:67-81 | whatever the consumer does, the transferred bytes are a prefix of the bytes still due. The machine is back in INIT iff all of them were transferred |
| StreamGen.FullPassTransfers | stream_gen.py:40-44 | a full pass makes six transfers: `r o o t \n` then one read past the end |
| StreamGen.AlwaysReadyCompletes | stream_gen.py:24-81 | with an always-ready consumer a pass ends within a bounded number of clocks |
| StreamGen.StartPulseRunsOnePass | stream_gen.py:54-81 | a rising `start` followed by an always-ready consumer transfers one full pass and returns to INIT |
| StreamGen.NoRetriggerOnReturn | stream_gen.py:58-61 | on the return to INIT the latch is high, so a held `start` does not begin another pass |
| StreamGen.StreamGenerator.Outputs | stream_gen.py:67-70 | the registers drive the stream output: `valid` iff ADD_CHAR with `counter_done` |
| StreamGen.StreamGenerator.Step | stream_gen.py:24-81 | a clock edge updates the registers as the transition function says and keeps the invariant |
| FsmNames.MaxLen | lcd_test.py:104 | `len(max(encoding, key=len))` is at least the length of every state name, and is reached by one of them |
| FsmNames.NameFits | lcd_test.py:104-105 | every state's encoded name fits the 8-bits-per-character name registers |
| FsmNames.Resolve | lcd_test.py:83-86 | a state without an alias stands for itself, and an aliased state resolves to its own alias target |
| FsmNames.NextStateValues | lcd_test.py:82-90 | `NextState` resolves through the aliases and lowers iff the resolved state is encoded; otherwise it is a KeyError naming the resolved state |
| FsmNames.NextStateValuesAgree | lcd_test.py:82-90 | both lowered values describe the same state: its number, and an integer whose shortest byte string is that state's name |
| FsmNames.FirstMatch | lcd_test.py:75-79 | the first registry entry whose target matches, or none iff no entry matches |
| FsmNames.LowerNext.GetRegisterControl | lcd_test.py:75-79 | returns the (enable, value) pair of the first matching entry, and raises KeyError iff no entry matches |
| FsmNames.LowerNext.VisitUnknown | lcd_test.py:81-101 | `NextState` becomes the two register assignments. `NextValue` reuses the target's entry, or appends a fresh one the first time the target is seen. It assigns the value and sets the enable. Other nodes pass through unchanged |
| FsmNames.NamedFsm.constructor | lcd_test.py:104-105 | both registers reset to the reset state's number and encoded name |
| FsmNames.NamedFsm.Step | lcd_test.py:106-107 | with no `NextState` both registers hold. With one, both take the resolved target, so `state_name` always names the current state |
| FlashImage.HexValue | make.py:210 | a hex digit has value below 16 |
| FlashImage.HexDigitValues | make.py:210 | exactly 0-9, a-f and A-F are digits; they are worth 0-9 and 10-15, in either case |
| FlashImage.DigitsValue | make.py:210 | n hex digits have value below 16^n |
| FlashImage.DigitsValueDefined | make.py:210 | a digit string has a value iff every character is a hex digit |
| FlashImage.ParseHex | make.py:210 | like `int(s, 16)`, it rejects the empty literal and a bare `0x` prefix |
| FlashImage.ParseHexDefined | make.py:210 | `int(s, 16)` accepts a literal iff at least one character follows the optional `0x`/`0X` prefix and all of them are hex digits. Anything else is a `ValueError` |
| FlashImage.ParseHexBound | make.py:210 | a literal of n characters parses to a value below 16^n |
| FlashImage.FormatThenParse | make.py:208-210 | `int("0x" + digits, 16)` inverts formatting a value as fixed-width hex digits |
| FlashImage.KernelOffset | make.py:188 | the kernel offset literal parses to 0x400000 |
| FlashImage.RootfsOffset | make.py:189 | the rootfs offset literal parses to 0x880000 |
| FlashImage.DeviceTreeOffset | make.py:190 | the device-tree offset literal parses to 0xf00000 |
| FlashImage.EmulatorOffset | make.py:191 | the emulator offset literal parses to 0xf01000 |
| FlashImage.RegionOffset | make.py:188-191 | each HADBadge offset literal parses to its region's DFU-relative address plus the DFU base 0x200000 |
| FlashImage.Put | make.py:212 | dictionary assignment: overwrites the entry of an existing key in place, appends a new key at the end, and leaves other entries alone |
| FlashImage.ShiftRegions | make.py:208-212 | the shifting loop can fail only with an invalid literal, and only when some region's literal does not parse |
| FlashImage.ShiftRegionsFails | make.py:209-210 | a region whose offset is not a hex literal makes `flash()` fail |
| FlashImage.ShiftRegionsDistinct | make.py:203-212 | with distinct file names and valid literals, the table maps each file, in order, to its offset minus the DFU base 0x200000 |
| FlashImage.HadBadgeAddresses | make.py:184-212 | the HADBadge table is Image→0x200000, rootfs→0x680000, dtb→0xd00000, emulator→0xd01000 |
| FlashImage.Block | make.py:229-232 | a block is 8 + len bytes. Its first word decodes to the payload length, its second to the CRC, and the payload follows |
| FlashImage.WriteAt | make.py:240-241 | `seek` then `write` puts the data at the position, zero-fills any gap past the end, and keeps every other byte |
| FlashImage.WriteBlocks | make.py:225-243 | writing the blocks can fail only because `struct.pack` overflows or `seek` gets a negative address |
| FlashImage.WriteBlocksSucceeds | make.py:225-243 | writing the blocks fails iff some payload exceeds 32 bits or some address is negative |
| FlashImage.WriteBlocksTotal | make.py:243 | `total_len` is the sum of 8 + len over the blocks |
| FlashImage.WriteBlocksKeeps | make.py:224-241 | the image only grows, and bytes outside every block are unchanged |
| FlashImage.WriteAtSlice | make.py:240-241 | the written data reads back at its position |
| FlashImage.WriteBlocksIntact | make.py:225-243 | a block that no later block overlaps is found intact at its address in the final image |
| FlashImage.DisjointBlocksIntact | make.py:222-243 | when no two blocks of a table overlap, writing succeeds and every block is found intact at its address |
| FlashImage.FlashPlan | make.py:199-256 | on success, total = 16 MiB − 0x200000 and remain = total − total_len |
| FlashImage.Flash | make.py:199-256 | the imperative `flash()` computes exactly the planned image and report |
| FlashImage.RegionTable | make.py:203-212 | the shifting loop builds exactly the specified region table, or fails on the first bad literal |
| FlashImage.WriteImage | make.py:222-243 | the writing loop produces exactly the specified image and total length, or fails on the first unwritable block |
| FlashImage.HadBadgeNoOverlap | make.py:184-212 | if the payloads fit their regions, no two HADBADGE blocks overlap |
| FlashImage.HadBadgeWrites | make.py:222-243 | the four HADBadge blocks are written without failure, total_len is 32 plus the payload sizes, and each block sits intact at its address |
| FlashImage.HadBadgeImage | make.py:199-256 | with payloads that fit their regions, `flash()` succeeds. total_len is 32 plus the four payload sizes, and every block sits intact at its shifted address |
| Boards.LowerAscii | make.py:375 | lowering keeps the length and the spaces and leaves no upper-case letter. Each upper-case letter becomes its lower-case letter and other characters are kept |
| Boards.ReplaceSpaces | make.py:376 | replacing spaces keeps the length and leaves no space. Each space becomes `_` and nothing else changes |
| Boards.Normalize | make.py:375-376 | the normalised name has the same length and is lower-case without spaces. Each upper-case letter becomes its lower-case letter, each space becomes `_`, and every other character is kept |
| Boards.NormalizeFixesExactlyNormal | make.py:375-376 | normalisation leaves a name unchanged iff it is already lower-case without spaces |
| Boards.NormalizeIdempotent | make.py:375-376 | normalising twice is normalising once |
| Boards.Lookup | make.py:379 | `supported_boards[name]` finds a board with that name, or none iff no board has it |
| Boards.SelectBoards | make.py:372-379 | `all` selects every board. Otherwise exactly one board is selected iff its name is the normalised argument, else the lookup fails with the normalised name |
| Boards.NamesDistinct | make.py:331-352 | the board names are distinct |
| Boards.NamesNormal | make.py:331-352 | every board name is already normalised and none is `all` |
| Boards.SelectsByOwnName | make.py:331-379 | each board is selected by its own name, alone |
| Boards.AllIsCaseSensitive | make.py:372-376 | `ALL` and `All` are not `all`: they are normalised and rejected |
| Boards.SelectsNormalisedSpelling | make.py:375-379 | `Nexys Video` selects `nexys_video` |
| Boards.SocKwargs | make.py:380-386 | every board gets a 0x8000 integrated ROM. Exactly versa_ecp5, ulx3s, hadbadge and orangecrab get the trellis toolchain. Only de0nano gets an L2 size, of 2048, and only kc705 gets a UART baud rate, of 500000 |
| Boards.SocKwargsByFamily | make.py:380-386 | trellis is chosen only for Lattice boards, the L2 size only for Altera and the UART baud rate only for Xilinx. camlink_4k is the Lattice board without trellis, and no board gets two extra options |
| Boards.OffsetConstants | make.py:392-394 | one `<NAME>_FLASH_OFFSET` constant per region, in order, with the parsed offset. Fails iff some literal does not parse |
| Boards.OffsetsMatchFlashedAddresses | make.py:392-394 | each offset constant the firmware sees equals the address `flash()` writes that region at, plus the DFU base |
| Boards.FlashSetup | make.py:388-394 | flash is set up iff the board has the spiflash capability. It then carries the board's dummy cycles and page and sector sizes, followed by the offset constants |
| Boards.FlashSetupValue | make.py:388-394 | a board with the spiflash capability, its attributes and parsable regions gets its dummy cycles, then page and sector size, then the offset constants |
| Boards.EveryBoardSetsUpFlash | make.py:388-394 | every supported board with the spiflash capability has the SPI-flash attributes, so setup never fails on a supported board |
| Boards.HadBadgeFlashConstants | make.py:181-191 | HADBADGE gets 6 dummy cycles, page size 256, sector size 65536 and the four offsets 0x400000, 0x880000, 0xf00000 and 0xf01000 |

### Behaviour worth knowing

- **Bytes per pass.** The machine returns to INIT only on a handshake with
  `idx > 4` (stream_gen.py:76-77). A pass therefore makes six handshakes,
  and the sixth reads address 5, past the end of the five-entry buffer.
  `StreamGen.FullPassTransfers` and `StreamGen.PassHandsOverRemaining`
  state this.
- **Start during a pass.** `start` is sampled only in INIT, and the latch
  still holds the `start` that began the pass when the machine returns
  (stream_gen.py:58-61). A start pulse during a pass is therefore lost,
  not deferred, and a held `start` does not begin a second pass.
  `StreamGen.AddCharIgnoresStart` and `StreamGen.NoRetriggerOnReturn`
  state this.

### A consequence of the HADBadge layout

The device-tree region starts 0x1000 bytes below the emulator region. Its
block therefore stays intact only if the `.dtb` is at most 4088 bytes:
4096 bytes minus the 8-byte header. A larger file is partly overwritten
by the emulator block, which is written after it. `FlashImage.HadBadgeImage`
assumes these bounds (`HadBadgeFits`). `FlashImage.WriteBlocksIntact`
states the general rule: a block survives only if no later block
overlaps it.

## Left out

- The UART stream bridge (`uartstream.py`) is not part of this model. It
  wires LiteX FIFOs, events and CSRs, whose code is not available, across
  the sys/pix clock domains. That is concurrency this model does not
  cover. Because of the constant-false clause at uartstream.py:71, only
  `ev.rx.clear` dequeues received data.
- Host I/O in `make.py` is not modelled: `argparse`, `os.system`, printing,
  the LiteX `Builder`/`SoCLinux` calls and reading files. File contents and
  `binascii.crc32` are parameters of `FlashImage.Flash`. A failure leaves a
  partly written output file, which is not modelled.
- The floating-point statistics in `flash()` (megabits, megabytes) are
  left out; only the byte counts are modelled.
- `Boards.SocKwargs`: models kc705's `uart_baudrate` of 500e3 as the
  integer 500000, not as a Python float.
- `Boards.LowerAscii`: models `str.lower` on ASCII letters only. Other
  characters are kept as they are.
- Board capabilities other than `spiflash` (`ethernet`, `leds`,
  `framebuffer`, `xadc`, `usb_cdc` and so on) are not modelled: they only
  call into LiteX.
- The other boards' `load`/`flash` methods and the HADBadge bitstream
  compression step are not modelled: they only run external tools.
- `FlashImage.ParseHex`: accepts an optional `0x`/`0X` prefix and one or
  more hex digits. This is the subset of `int(s, 16)` that the offset
  literals use. Whitespace, signs and underscores are rejected, although
  Python accepts them.
- `FlashImage.HexValue`, `FlashImage.DigitsValue`: their own contracts
  state only the bounds. Which characters are digits and what they are
  worth is stated by `FlashImage.HexDigitValues`,
  `FlashImage.DigitsValueDefined` and `FlashImage.ParseHexDefined`. As
  ensures, these facts would be axioms on every character of every offset
  literal, and they make the literal proofs too costly.
- `StreamGen.ReadPort`: a read past the end of the buffer yields an
  unspecified byte, shown as `None`. The read latency of the memory port is
  abstracted away: the port delivers the byte at the cursor in the same
  clock.
- The unused declarations in `stream_gen.py` (the 16-bit `idx` that is
  shadowed by the 32-bit one, and `char`) have no effect and are omitted.
- `FsmNames.NameFits`: names are their ASCII bytes. For non-ASCII names
  `len()` counts characters, not UTF-8 bytes, so the register could be too
  narrow; this model does not cover that case.
- Installing the lowering by replacing `FSM._lower_controls` globally, and
  migen's `NodeTransformer` traversal, are not modelled. The model gives
  each lowering its own `LowerNext` instance. `_target_eq` is a parameter,
  state numbering is taken as an input map, and new signals are numbered.
- The signal widths and signedness that `value_bits_sign` gives the
  `NextValue` registers are not modelled.
- `CsrTransform.Compounds`: its own contract states only the length bound.
  Which registers it holds is stated by `CsrTransform.CompoundsAreClosed`
  and by the loop's step lemma `CsrTransform.BindStep`. A richer contract
  on this recursive function would be an axiom in every proof that mentions it, and makes the loop
  proof of `BindRegisters` too costly.
- `CsrTransform.BindAll` has no contract of its own for the same reason.
  `CsrTransform.BindAllByName` and `CsrTransform.BindStep` state what it
  computes.
- `CsrTransform.Commit`: its own contract states only the width.
  `CsrTransform.CommitBits` states the value of every bit.
- The `CSRStorage` bus-side logic and the `Record` container of `dat_w`
  belong to LiteX and are not modelled. Only the staging signals and the
  commit into `storage` are.
- `lcd_test.py` builds `StreamGenerator()` without the `start` argument
  that the constructor requires. The model takes `start` as an input on
  every clock.
