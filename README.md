# Embedded Controller simulator: register-level model

This project models the Embedded Controller (EC) that the emulator shows to a guest
through x86 I/O ports. The EC is a small register-level state machine with these parts:

- a SuperIO register file behind ports 0x2E (selector) and 0x2F (data);
- a data/command register pair behind ports 0x62 (data) and 0x66 (command). A
  host command switches the state; data bytes then do the work:
  - ACPI shadow memory get/set, with the 0xB1 "read address" record at 0xF8..0xFD;
  - readout of the project name "N130ZU" and the version "07.02", each ended by '$';
  - an SPI flash front end with a status register, a write-enable latch, the
    JEDEC ID FF FF FE FF and a 24-bit address accumulator;
- an optional bypass to a low-level emulator over a datagram socket. Every access
  goes to the peer first, and a failed send or receive closes the socket for good.

Files:

- `bytes.dfy` (module `Bytes`): C's `uint8_t`/`uint16_t`/`uint32_t` as bounded
  integers, and the single-bit operations (`|= 1 << k`, `&= ~(1 << k)`).
- `ec_spec.dfy` (module `EcSpec`): the EC as a value `EcState` and every transition as a
  pure function: `Initial` (ec_new), `AcpiCommand` (ec_acpi_cmd), `IoRead`
  (ec_io_read), `IoWrite` (ec_io_write) and the state-by-state pieces they are
  made of. `Valid` is the invariant every reachable state keeps.
- `ec_sim.dfy` (module `EcSim`): the `struct Ec` as a class `Ec`. Its three buffers
  are arrays and its methods update fields in place as the C functions do. Each
  method is proved to produce exactly the state the matching `EcSpec` function
  gives.
- `ec_trace.dfy` (module `EcTrace`): sequences of port accesses (`Run`), the
  invariant of every reachable state, and the bypass behaviour over a whole run.
- `ec_properties.dfy` (module `EcProperties`): the host-visible protocols, each
  stated as a lemma.

The bypass transport is a parameter. A `Transport` value says what the peer did with
one request: it replied with a byte, or the send failed, or the receive failed.
`lleConnected` stands for `lle_socket >= 0`.

Two details of `ecsim.c` worth noting:

- The sector-erase and high-speed-read address has 3 bytes, not 4. Each byte needs a
  control byte 0x03 of its own: after one byte the state drops back to
  `SpiSectorErase`/`SpiHsRead`. The bytes fill slots 2, 1, 0, so slot 3 stays 0.
- SPI bytes are taken only on the command port. A data-port write in an SPI state
  is ignored.

## Model

| member | source | states |
|---|---|---|
| Bytes.SetBit | ecsim.c:439 | `x \| (1 << k)`: bit k is set and every other bit is as in x |
| Bytes.ClearBit | ecsim.c:430 | `x & ~(1 << k)`: bit k is clear and every other bit is as in x |
| EcSpec.Zeros | ecsim.c:93-118 | a zero-initialised buffer of n bytes: length n and every byte 0 |
| EcSpec.LleRequest | ecsim.c:58-91 | a reply exists exactly when the socket is open and the peer answered, and it is the peer's byte; the socket stays open exactly when a reply was obtained |
| EcSpec.Initial | ecsim.c:93-162 | the initial state satisfies the invariant; the bypass is on exactly when the connect worked and the peer answered the init request; state NONE, cmd 0, SPI status 0x1C, EC ID 0x85 0x87 at SuperIO 0x20/0x21, ACPI 0x10 = 0x05 and 0xE5 = 0x80 |
| EcSpec.AcpiCommand | ecsim.c:171-208 | only byte 0xF9 can change; for command 0xB1 with d3 = 0 it becomes 6 when (d1 << 8) \| d2 is 0x2002 and 0 otherwise; any other record leaves the space unchanged |
| EcSpec.StageString | ecsim.c:218-241 | staging keeps the invariant and changes only data, cmd, state and the two cursors; with a byte already staged, or outside a readout, it changes nothing; the state stays or returns to NONE (the staged character, the '$' at the NUL, the flag and the cursor step are proved in `StringStep` and `CommandPortPollStages`) |
| EcSpec.PortRead | ecsim.c:243-261 | 0x2E returns the selector; 0x2F returns the selected SuperIO register; 0x62 returns the staged byte and empties the register and flag; 0x66 returns the flag; any other port returns 0; only 0x62 changes the state |
| EcSpec.EmulatedRead | ecsim.c:216-261 | an emulated read keeps the invariant and does not touch the bypass |
| EcSpec.IoRead | ecsim.c:210-262 | a read the peer answers returns the peer's byte and changes nothing; with the socket closed the emulation answers; a failing transport closes the socket and the emulation answers the same read |
| EcSpec.DataWrite | ecsim.c:277-305 | in GET_ACPI the indexed byte is staged with the flag set and the state returns to NONE; in SET_ACPI the index is saved; in SET_ACPI_INDEX the byte is stored (the 0xF8 record is then run, which can change only 0xF9); every other state ignores the write |
| EcSpec.SpiControl | ecsim.c:310-378 | in the SPI follow states: 0x01 follows, 0x02 enters the command phase, 0x05 returns to NONE; 0x03 moves WRITE_STATUS, SECTOR_ERASE and HS_READ to their write phase and does nothing elsewhere; 0x04 stages the status, the next JEDEC byte (until all 4 are out, then nothing) or 0xFF for a high-speed read, and does nothing in other states; any other byte changes nothing |
| EcSpec.SectorEraseAddressByte | ecsim.c:385-400 | one address byte fills the next slot down; the state is SpiFollow once the counter reaches 0 and SpiSectorErase before |
| EcSpec.HsReadAddressByte | ecsim.c:401-420 | with the counter at 0 the byte is the dummy and the data phase begins; otherwise the byte fills the next slot down and the state is SpiHsRead |
| EcSpec.SpiOpcode | ecsim.c:421-474 | 0x06 sets and 0x04 clears bit 1 of the status and leaves the other bits, both returning to SPI follow and changing nothing else; 0x01 enters write-status, 0x05 read-status, 0xAD AAI programming; 0x0B and 0x20/0xD7 enter high-speed read and sector erase with the address cleared and the counter at 3; 0x9F rewinds the JEDEC cursor; any other opcode changes nothing, and no opcode but 0x04/0x06 touches the status |
| EcSpec.HostCommand | ecsim.c:485-530 | 0x01 enters the SPI protocol; 0x80/0x81 start an ACPI get/set; 0x92/0x93 start a readout from the first character; 0xDE/0xF0 return to NONE; 0xDC stages 0x33 with the flag set; only 0xDC touches data or flag; unknown commands change nothing |
| EcSpec.CommandWrite | ecsim.c:306-533 | a command-port write keeps the invariant and never touches the SuperIO file, the ACPI space or the bypass; in WRITE_STATUS_DATA the byte replaces the whole status register |
| EcSpec.EmulatedWrite | ecsim.c:271-536 | 0x2E latches the selector; 0x2F writes the selected register; writes to unknown ports are ignored; the invariant is kept |
| EcSpec.IoWrite | ecsim.c:264-269 | a write the peer answers changes nothing; otherwise the emulation handles it, with the socket closed if the transport failed |
| EcSim.Ec.constructor | ecsim.c:93-162 | the new object holds exactly `Initial`'s state and satisfies the invariant, and its three buffers are freshly allocated |
| EcSim.Ec.LleRequest | ecsim.c:58-91 | updates the socket flag and returns the reply as `EcSpec.LleRequest` says |
| EcSim.Ec.AcpiCmd | ecsim.c:171-208 | the ACPI array afterwards is `AcpiCommand` of its old contents |
| EcSim.Ec.StageString | ecsim.c:218-241 | the object afterwards holds `EcSpec.StageString` of its old state |
| EcSim.Ec.IoRead | ecsim.c:210-262 | state and returned byte are those of `EcSpec.IoRead` |
| EcSim.Ec.DataWrite | ecsim.c:277-305 | the object afterwards holds `EcSpec.DataWrite` of its old state |
| EcSim.Ec.SpiControl | ecsim.c:310-378 | the object afterwards holds `EcSpec.SpiControl` of its old state |
| EcSim.Ec.SectorEraseAddressByte | ecsim.c:385-400 | the object afterwards holds `EcSpec.SectorEraseAddressByte` of its old state |
| EcSim.Ec.HsReadAddressByte | ecsim.c:401-420 | the object afterwards holds `EcSpec.HsReadAddressByte` of its old state |
| EcSim.Ec.SpiOpcode | ecsim.c:421-474 | the object afterwards holds `EcSpec.SpiOpcode` of its old state |
| EcSim.Ec.HostCommand | ecsim.c:485-530 | the object afterwards holds `EcSpec.HostCommand` of its old state |
| EcSim.Ec.CommandWrite | ecsim.c:306-533 | the object afterwards holds `EcSpec.CommandWrite` of its old state |
| EcSim.Ec.IoWrite | ecsim.c:264-537 | the object afterwards holds `EcSpec.IoWrite` of its old state |
| EcTrace.Run | ecsim.c:553-559 | a run of accesses keeps the invariant, never reopens a closed socket, and returns at most one byte per access |
| EcTrace.RunAppend | ecsim.c:553-559 | running a then b is running a + b |
| EcTrace.Reachable | ecsim.c:93-537 | every state reachable from ec_new keeps the invariant: cmd is 0 or 1, the address counter is at most 3, the JEDEC cursor is at most 4, and a readout cursor never passes the NUL |
| EcTrace.ClosedBypassIgnoresTransport | ecsim.c:58-91 | once the socket is closed, the transport is never consulted: runs of the same requests agree whatever the transport does |
| EcTrace.BypassFallback | ecsim.c:58-91 | an access the peer answers leaves the EC untouched and returns the peer's byte; when the next access fails, the rest of the run from it on is exactly the emulation's with the socket closed |
| EcSpec.SpiAddress | ecsim.c:392-396 | the accumulator's slot 0 is the low byte of the address, and with slot 3 clear the address fits in 24 bits |
| EcProperties.AddressBytesOfSpiAddress | ecsim.c:392-396 | assembling the 4 slots into a 32-bit address and splitting it again gives back the slots |
| EcProperties.SpiAddressOfAddressBytes | ecsim.c:392-396 | splitting a 32-bit address into bytes and assembling them gives it back |
| EcProperties.SuperioAddressLatch | ecsim.c:271-273 | a selector write changes only the selector, and reading the selector (read branch, ecsim.c:243-245) returns it |
| EcProperties.SuperioDataRoundTrip | ecsim.c:271-276 | select a, write v, select a, read data (read branch, ecsim.c:243-248): the read returns v, and only register a and the selector changed |
| EcProperties.RegisterReads | ecsim.c:249-256 | outside a readout, a data-port read returns the staged byte and empties the register, and a command-port read returns the flag (0 or 1) and changes nothing |
| EcProperties.CommandPortPollStages | ecsim.c:218-241 | during a readout with nothing staged, a command-port poll stages the next character and returns 1 |
| EcProperties.AcpiSet | ecsim.c:287-299 | command 0x81, index i, value v: the space holds v at i and the state is NONE; for i other than 0xF8 only byte i changed; for 0xF8 the record is then run |
| EcProperties.AcpiGet | ecsim.c:281-286 | command 0x80 and index i stage the byte at i with the flag set; the next data read returns it |
| EcProperties.AcpiSetThenGet | ecsim.c:281-299 | what an ACPI set stores at i, an ACPI get of i returns |
| EcProperties.RunRead | ecsim.c:210-262 | with the socket closed, a read at the head of a run is the emulated read |
| EcProperties.RunWrite | ecsim.c:264-537 | with the socket closed, a write at the head of a run is the emulated write |
| EcProperties.RunHostCommand | ecsim.c:485-530 | in a state that reads command bytes as host commands, a command at the head of a run is `HostCommand` |
| EcProperties.DataRead | ecsim.c:249-253 | outside a readout, a data read returns the staged byte and empties the register and the flag |
| EcProperties.EmulatedDataReads | ecsim.c:210-262 | n emulated data reads keep the invariant, leave the bypass flag alone and return n bytes |
| EcProperties.ClosedDataReads | ecsim.c:553-559 | with the socket closed, a run of n data reads is n emulated reads |
| EcProperties.RomCharacter | ecsim.c:108-110 | every character of "N130ZU" and "07.02" before its NUL is non-zero |
| EcProperties.StringStep | ecsim.c:218-241 | one data read during a readout returns the character under the cursor ('$' for the NUL, which ends the readout) and advances the cursor |
| EcProperties.StringReadoutEnd | ecsim.c:218-241 | at the NUL, one read returns '$', moves the cursor past the NUL and returns the state to NONE |
| EcProperties.AdvanceCursor | ecsim.c:221-231 | moving a readout cursor on by one before the NUL keeps the invariant and the state the readout ends in |
| EcProperties.StringReadoutNext | ecsim.c:218-241 | before the NUL, one read returns the character under the cursor and the readout goes on from the next character |
| EcProperties.StringReadout | ecsim.c:218-241 | from any cursor with nothing staged, data reads return the rest of the string and then '$' (`Remaining`), and end in NONE with the cursor past the NUL |
| EcProperties.StringReadoutBefore | ecsim.c:218-241 | the same as `StringReadout` for a cursor before the NUL |
| EcProperties.ReadoutRun | ecsim.c:218-241 | with the socket closed, a readout from the first character returns the whole string and then '$' |
| EcProperties.RomStrings | ecsim.c:108-110 | the readouts from the first character are "N130ZU$" and "07.02$" |
| EcProperties.ProjectReadout | ecsim.c:499-503 | command 0x92 and seven data reads return "N130ZU$" |
| EcProperties.VersionReadout | ecsim.c:504-508 | command 0x93 and six data reads return "07.02$" |
| EcProperties.StatusReadback | ecsim.c:349-352 | in any SPI follow state, 0x02, 0x05 and control 0x04 stage the status register with the flag set and change nothing else |
| EcProperties.WriteEnableLatch | ecsim.c:428-441 | 0x02, 0x06 (or 0x04) sets (or clears) bit 1 of the status and nothing else; 0x02, 0x05, 0x04 then stage exactly that status |
| EcProperties.WriteStatus | ecsim.c:380-384 | 0x01, 0x03, v replace the whole status register by v, and reading the status back stages v |
| EcProperties.JedecControl | ecsim.c:354-358 | control 0x04 stages the JEDEC byte under the cursor and advances it; past the fourth byte it changes nothing |
| EcProperties.JedecStep | ecsim.c:354-358 | one (0x04, data read) pair returns the JEDEC byte under the cursor and advances it; at the end it returns 0 and changes nothing |
| EcProperties.JedecTail | ecsim.c:354-358 | from any cursor, the pairs return the rest of the JEDEC ID and then 0 |
| EcProperties.JedecTailBefore | ecsim.c:354-358 | the same as `JedecTail` for a cursor before the end of the ID |
| EcProperties.JedecId | ecsim.c:461-464 | opcode 0x9F and five pairs return FF FF FE FF 00 |
| EcProperties.AddressByte | ecsim.c:385-420 | in either address phase, 0x03 and a byte store the byte in the next slot down and step the counter; only the last sector-erase byte leaves the phase |
| EcProperties.ThreeAddressBytes | ecsim.c:385-420 | from a fresh address phase, three (0x03, byte) pairs fill slots 2, 1, 0; sector erase then ends in SpiFollow, high-speed read stays in SpiHsRead |
| EcProperties.SlotAddress | ecsim.c:392-396 | slots b3, b2, b1 (lowest first) hold the address b1 << 16 \| b2 << 8 \| b3 |
| EcProperties.SectorEraseAddress | ecsim.c:451-460 | opcode 0x20/0xD7 and three (0x03, byte) pairs: the state returns to sector erase after each of the first two, the bytes fill slots 2, 1, 0, and the address is b1 << 16 \| b2 << 8 \| b3 |
| EcProperties.HighSpeedReadAddress | ecsim.c:442-450 | opcode 0x0B and three (0x03, byte) pairs: the state is SpiHsRead after each, and the address is assembled as for sector erase |
| EcProperties.HighSpeedReadData | ecsim.c:401-404 | with the address complete, 0x03 and a dummy byte start the data phase, where 0x04 stages 0xFF |
| EcProperties.DataWriteIgnoredInSpi | ecsim.c:300-302 | in every SPI state but AAI programming a data-port write changes nothing (in AAI programming `DataWrite` ignores it as well) |
| EcProperties.FallThroughToHostCommand | ecsim.c:485-530 | in NONE, the ACPI, readout and AAI-program states, a command byte is read as a host command |

## Left out

- The UDP socket: creating it, connecting it to 127.0.0.1:8587 and closing it
  (ecsim.c:132-153). It is reduced to a flag plus what the peer did with each request.
- The content of the request frame `{kind, addr, value}` sent to the peer
  (ecsim.c:63). The peer is not modelled, only its reply.
- All `printf`/`perror` logging.
- The global singleton `ec_global` and its two wrappers (ecsim.c:541-559). Their effect
  on a sequence of accesses is `EcTrace.Run`.
- The commented-out `ec_drop` (ecsim.c:164-169).
- The second `switch (val)` after `break` in the SPI command case (ecsim.c:475-484).
  No path reaches it.
- Flash contents. No erase or program is done, and the only byte a high-speed read
  returns is 0xFF, as in the source.
- AAI programming (opcode 0xAD) only enters its state. Command bytes in that state
  are host commands, as in the source.
- The 8-bit counters `project_i`, `version_i`, `spi_addr_i` and `spi_jedec_i` are `nat`
  here. The invariant bounds them (≤ 7, ≤ 6, ≤ 3, ≤ 4), so they never wrap.
- The fixed port numbers stored in the struct are constants, since nothing changes them.
- The 16-byte `project` and `version` fields are kept up to and including their
  first NUL. The cursor never passes that NUL, so the padding after it is never read.
