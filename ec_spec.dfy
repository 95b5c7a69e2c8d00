/** The Embedded Controller's register-level state machine as pure functions.

    EcState is the value of a `struct Ec` (ecsim.c:30-56); every transition of
    ec_io_read / ec_io_write is a function from the old state to the new one.
    The class in ec_sim.dfy updates the same state in place and is proved to
    agree with these functions. */
module EcSpec {

  import opened Bytes

  datatype Option<T> = None | Some(value: T)

  // The four ports the EC answers on (ecsim.c:95-102).
  const SuperioAddrPort: byte := 0x2E
  const SuperioDataPort: byte := 0x2F
  const DataPort: byte := 0x62
  const CmdPort: byte := 0x66

  /** The single protocol state register shared by the host commands and the
      SPI flash sub-protocol (ecsim.c:9-28). */
  datatype State =
    | Idle
    | GetAcpi
    | SetAcpi
    | SetAcpiIndex
    | GetProject
    | GetVersion
    | SpiFollow
    | SpiCommand
    | SpiReadStatus
    | SpiReadJedec
    | SpiWriteStatus
    | SpiWriteStatusData
    | SpiSectorErase
    | SpiSectorEraseAddress
    | SpiHsRead
    | SpiHsReadAddress
    | SpiHsReadData
    | SpiAaiProgram

  function Zeros(n: nat): (r: seq<byte>)
    ensures |r| == n && forall i :: 0 <= i < n ==> r[i] == 0
  {
    seq(n, _ => 0)
  }

  /** "N130ZU" and its NUL (ecsim.c:108). The field is 16 bytes, NUL padded;
      the cursor never passes the first NUL, so the padding after it is
      never read and is not kept. */
  const Project: seq<byte> := [0x4E, 0x31, 0x33, 0x30, 0x5A, 0x55, 0]
  /** Index of the NUL that ends Project. */
  const ProjectLen: nat := 6

  /** "07.02" and its NUL (ecsim.c:110), kept as Project is. */
  const Version: seq<byte> := [0x30, 0x37, 0x2E, 0x30, 0x32, 0]
  /** Index of the NUL that ends Version. */
  const VersionLen: nat := 5

  /** The fixed JEDEC identification bytes (ecsim.c:116). */
  const Jedec: seq<byte> := [0xFF, 0xFF, 0xFE, 0xFF]

  /** The character '$' staged in place of a string's terminating NUL. */
  const Dollar: byte := 0x24

  /** Every field of `struct Ec` that changes, plus whether the low-level
      emulation socket is open (lle_socket >= 0). The port numbers are the
      constants above; project, version and spi_jedec are never written and
      are the constants Project, Version and Jedec. */
  datatype EcState = EcState(
    superioAddr: byte,
    superioData: seq<byte>,
    data: byte,
    cmd: byte,
    state: State,
    acpiSpace: seq<byte>,
    acpiSpaceI: byte,
    projectI: nat,
    versionI: nat,
    spiSts: byte,
    spiAddr: seq<byte>,
    spiAddrI: nat,
    spiJedecI: nat,
    lleConnected: bool)

  /** What holds of every state the EC can reach:
      - the arrays have their C sizes (256, 256, 4);
      - cmd is only the "output buffer full" flag, and data holds 0 when it is clear;
      - the string cursors never pass their terminator while a string is read out,
        so project[project_i] and version[version_i] are in bounds;
      - the address accumulator's counter is in [0,3], the slots below it are
        still 0 and spi_addr[3] is never filled;
      - the JEDEC cursor never passes the end of the ID. */
  ghost predicate Valid(s: EcState)
  {
    && |s.superioData| == 256
    && |s.acpiSpace| == 256
    && |s.spiAddr| == 4
    && (s.cmd == 0 || s.cmd == 1)
    && (s.cmd == 0 ==> s.data == 0)
    && s.projectI <= ProjectLen + 1
    && (s.state == GetProject ==> s.projectI <= ProjectLen)
    && s.versionI <= VersionLen + 1
    && (s.state == GetVersion ==> s.versionI <= VersionLen)
    && s.spiAddrI <= 3
    && s.spiAddr[3] == 0
    && (forall j :: 0 <= j < s.spiAddrI ==> s.spiAddr[j] == 0)
    && s.spiJedecI <= |Jedec|
  }

  // ---------------------------------------------------------------------------
  // Low-level emulation bypass (ec_lle_request, ecsim.c:58-91)

  /** What the peer transport did with one request: it answered with one byte,
      or the send or the receive fell short. */
  datatype Transport = Replied(reply: byte) | SendFailed | RecvFailed

  /** One bypass request. The result is whether the socket is still open and
      the peer's answer, if any. A closed socket is never used; any transport
      failure closes it for good. */
  function LleRequest(connected: bool, outcome: Transport): (r: (bool, Option<byte>))
    ensures r.1.Some? <==> connected && outcome.Replied?
    ensures r.1.Some? ==> r.1.value == outcome.reply
    ensures r.0 <==> r.1.Some?
  {
    if connected then
      match outcome
      case Replied(b) => (true, Some(b))
      case SendFailed => (false, None)
      case RecvFailed => (false, None)
    else
      (false, None)
  }

  // ---------------------------------------------------------------------------
  // Construction (ec_new, ecsim.c:93-162)

  /** The state ec_new builds. `connectOk` says whether the UDP socket could be
      created and connected; `initOutcome` is what the peer did with the
      initial handshake request. */
  function Initial(connectOk: bool, initOutcome: Transport): (r: EcState)
    ensures Valid(r)
    ensures r.lleConnected <==> connectOk && initOutcome.Replied?
    ensures r.state == Idle && r.cmd == 0 && r.spiSts == 0x1C
    ensures r.superioData[0x20] == 0x85 && r.superioData[0x21] == 0x87
    ensures r.acpiSpace[0x10] == 0x05 && r.acpiSpace[0xE5] == 0x80
  {
    EcState(
      superioAddr := 0,
      superioData := Zeros(256)[0x20 := 0x85][0x21 := 0x87],
      data := 0,
      cmd := 0,
      state := Idle,
      acpiSpace := Zeros(256)[0x10 := 0x05][0xE5 := 0x80],
      acpiSpaceI := 0,
      projectI := 0,
      versionI := 0,
      spiSts := 0x1C,
      spiAddr := Zeros(4),
      spiAddrI := 0,
      spiJedecI := 0,
      lleConnected := connectOk && LleRequest(true, initOutcome).0)
  }

  // ---------------------------------------------------------------------------
  // ACPI command record (ec_acpi_cmd, ecsim.c:171-208)

  /** Interprets the record {cmd, d1..d5} at acpi_space[0xF8..0xFD]. A read
      request (cmd 0xB1 with d3 == 0) of the big-endian address d1:d2 answers
      in d1: 0x06 for address 0x2002, 0 for any other; anything else leaves
      the space as it was. */
  function AcpiCommand(space: seq<byte>): (r: seq<byte>)
    requires |space| == 256
    ensures |r| == 256
    ensures forall i :: 0 <= i < 256 && i != 0xF9 ==> r[i] == space[i]
    ensures space[0xF8] == 0xB1 && space[0xFB] == 0 ==>
              r[0xF9] == (if space[0xF9] == 0x20 && space[0xFA] == 0x02 then 0x06 else 0x00)
    ensures !(space[0xF8] == 0xB1 && space[0xFB] == 0) ==> r == space
  {
    var cmd, data1, data2, data3 := space[0xF8], space[0xF9], space[0xFA], space[0xFB];
    // (data1 << 8) | data2: the two bytes do not overlap, so the OR is a sum
    var addr := data1 as int * 0x100 + data2 as int;
    // the one address a read request recognises (ecsim.c:191-195)
    var answer := if cmd == 0xB1 && data3 == 0 then (if addr == 0x2002 then 0x06 else 0x00) else data1;
    space[0xF9 := answer]
  }

  // ---------------------------------------------------------------------------
  // SPI address accumulator (ecsim.c:392-396, 412-416)

  /** The 32-bit address the accumulator's slots spell, slot 0 least
      significant: `a[0] | a[1] << 8 | a[2] << 16 | a[3] << 24`. The shifted
      bytes do not overlap, so the ORs are sums, written here in Horner form. */
  function SpiAddress(a: seq<byte>): (r: u32)
    requires |a| == 4
    ensures r % 0x100 == a[0]
    ensures a[3] == 0 ==> r < 0x100_0000
  {
    a[0] as int + 0x100 * (a[1] as int + 0x100 * (a[2] as int + 0x100 * a[3] as int))
  }

  /** The bytes of a 32-bit address, least significant first. */
  function AddressBytes(x: u32): seq<byte>
  {
    [x % 0x100, (x / 0x100) % 0x100, (x / 0x1_0000) % 0x100, x / 0x100_0000]
  }

  // ---------------------------------------------------------------------------
  // Reads (ec_io_read, ecsim.c:210-262)

  /** Project/version staging, done on a read of ANY port (ecsim.c:218-241):
      while a string is being read out and no byte is staged, the next
      character is staged and the cursor advances; the terminating NUL is
      staged as '$' and ends the readout. */
  function StageString(s: EcState): (r: EcState)
    requires Valid(s)
    ensures Valid(r)
    ensures r == s.(data := r.data, cmd := r.cmd, state := r.state,
                    projectI := r.projectI, versionI := r.versionI)
    ensures s.cmd == 1 || (s.state != GetProject && s.state != GetVersion) ==> r == s
    ensures r.state == s.state || r.state == Idle
  {
    match s.state
    case GetProject =>
      if !HasBit(s.cmd, 0) then
        var c := Project[s.projectI];
        s.(data := if c == 0 then Dollar else c,
           state := if c == 0 then Idle else GetProject,
           projectI := s.projectI + 1,
           cmd := SetBit(s.cmd, 0))
      else s
    case GetVersion =>
      if !HasBit(s.cmd, 0) then
        var c := Version[s.versionI];
        s.(data := if c == 0 then Dollar else c,
           state := if c == 0 then Idle else GetVersion,
           versionI := s.versionI + 1,
           cmd := SetBit(s.cmd, 0))
      else s
    case _ => s
  }

  /** The port part of a read (ecsim.c:243-261). Only a data-port read changes
      anything: it consumes the staged byte. Any other port reads as 0. */
  function PortRead(s: EcState, addr: byte): (r: (EcState, byte))
    requires Valid(s)
    ensures Valid(r.0)
    ensures addr == SuperioAddrPort ==> r == (s, s.superioAddr)
    ensures addr == SuperioDataPort ==> r == (s, s.superioData[s.superioAddr])
    ensures addr == DataPort ==> r == (s.(data := 0, cmd := 0), s.data)
    ensures addr == CmdPort ==> r == (s, s.cmd)
    ensures addr !in {SuperioAddrPort, SuperioDataPort, DataPort, CmdPort} ==> r == (s, 0)
  {
    if addr == SuperioAddrPort then (s, s.superioAddr)
    else if addr == SuperioDataPort then (s, s.superioData[s.superioAddr as int])
    else if addr == DataPort then (s.(data := 0, cmd := ClearBit(s.cmd, 0)), s.data)
    else if addr == CmdPort then (s, s.cmd)
    else (s, 0)
  }

  /** A read answered by the EC's own emulation. */
  function EmulatedRead(s: EcState, addr: byte): (r: (EcState, byte))
    requires Valid(s)
    ensures Valid(r.0)
    ensures r.0.lleConnected == s.lleConnected
  {
    PortRead(StageString(s), addr)
  }

  /** ec_io_read: the bypass answers first; when it does, nothing else is
      touched. Otherwise (no socket, or the socket just failed and was closed)
      the emulation answers. */
  function IoRead(s: EcState, addr: byte, outcome: Transport): (r: (EcState, byte))
    requires Valid(s)
    ensures Valid(r.0)
    ensures s.lleConnected && outcome.Replied? ==> r == (s, outcome.reply)
    ensures !s.lleConnected ==> r == EmulatedRead(s, addr)
    ensures s.lleConnected && !outcome.Replied? ==> r == EmulatedRead(s.(lleConnected := false), addr)
  {
    var (connected, reply) := LleRequest(s.lleConnected, outcome);
    if reply.Some? then (s, reply.value)
    else EmulatedRead(s.(lleConnected := connected), addr)
  }

  // ---------------------------------------------------------------------------
  // Writes (ec_io_write, ecsim.c:264-537)

  /** Data-port writes (ecsim.c:280-303): the ACPI get/set protocol. In every
      other state the byte is ignored. */
  function DataWrite(s: EcState, val: byte): (r: EcState)
    requires Valid(s)
    ensures Valid(r)
    ensures r == s.(state := r.state, data := r.data, cmd := r.cmd,
                    acpiSpace := r.acpiSpace, acpiSpaceI := r.acpiSpaceI)
    ensures s.state == GetAcpi ==>
              r == s.(state := Idle, data := s.acpiSpace[val], cmd := 1)
    ensures s.state == SetAcpi ==> r == s.(state := SetAcpiIndex, acpiSpaceI := val)
    ensures s.state == SetAcpiIndex ==>
              && r == s.(state := Idle, acpiSpace := r.acpiSpace)
              && r.acpiSpace[s.acpiSpaceI] == val
              && (forall i :: 0 <= i < 256 && i != s.acpiSpaceI as int && i != 0xF9 ==>
                    r.acpiSpace[i] == s.acpiSpace[i])
              && (s.acpiSpaceI != 0xF8 ==> r.acpiSpace == s.acpiSpace[s.acpiSpaceI := val])
    ensures s.state !in {GetAcpi, SetAcpi, SetAcpiIndex} ==> r == s
  {
    match s.state
    case GetAcpi =>
      s.(state := Idle, data := s.acpiSpace[val as int], cmd := SetBit(s.cmd, 0))
    case SetAcpi =>
      s.(state := SetAcpiIndex, acpiSpaceI := val)
    case SetAcpiIndex =>
      var space := s.acpiSpace[s.acpiSpaceI as int := val];
      s.(state := Idle,
         acpiSpace := if s.acpiSpaceI == 0xF8 then AcpiCommand(space) else space)
    case _ => s
  }

  /** The states in which a command-port byte is an SPI control byte
      (ecsim.c:310-316). */
  predicate Following(st: State)
  {
    st in {SpiFollow, SpiReadStatus, SpiReadJedec, SpiWriteStatus,
           SpiSectorErase, SpiHsRead, SpiHsReadData}
  }

  /** The states in which a command-port byte is a host command (the `default`
      branch, ecsim.c:485-530). */
  predicate HostCommandState(st: State)
  {
    st in {Idle, GetAcpi, SetAcpi, SetAcpiIndex, GetProject, GetVersion, SpiAaiProgram}
  }

  /** SPI control bytes (ecsim.c:317-378): 0x01 follow, 0x02 command,
      0x03 write phase, 0x04 read phase, 0x05 unfollow. Only the read phase
      stages a byte, and only the write phase of write-status, sector-erase
      and high-speed-read moves on. */
  function SpiControl(s: EcState, val: byte): (r: EcState)
    requires Valid(s) && Following(s.state)
    ensures Valid(r)
    ensures r == s.(state := r.state, data := r.data, cmd := r.cmd, spiJedecI := r.spiJedecI)
    ensures val == 0x01 ==> r == s.(state := SpiFollow)
    ensures val == 0x02 ==> r == s.(state := SpiCommand)
    ensures val == 0x05 ==> r == s.(state := Idle)
    ensures val != 0x04 ==> r.data == s.data && r.cmd == s.cmd
    ensures val !in {0x01, 0x02, 0x03, 0x04, 0x05} ==> r == s
    ensures val == 0x04 && s.state == SpiReadStatus ==> r == s.(data := s.spiSts, cmd := 1)
    ensures val == 0x04 && s.state == SpiHsReadData ==> r == s.(data := 0xFF, cmd := 1)
    ensures val == 0x04 && s.state == SpiReadJedec && s.spiJedecI < |Jedec| ==>
              r == s.(data := Jedec[s.spiJedecI], cmd := 1, spiJedecI := s.spiJedecI + 1)
    ensures val == 0x04 && s.state == SpiReadJedec && s.spiJedecI == |Jedec| ==> r == s
    ensures val == 0x04 && s.state !in {SpiReadStatus, SpiReadJedec, SpiHsReadData} ==> r == s
    ensures val == 0x03 && s.state == SpiWriteStatus ==> r == s.(state := SpiWriteStatusData)
    ensures val == 0x03 && s.state == SpiSectorErase ==> r == s.(state := SpiSectorEraseAddress)
    ensures val == 0x03 && s.state == SpiHsRead ==> r == s.(state := SpiHsReadAddress)
    ensures val == 0x03 && s.state !in {SpiWriteStatus, SpiSectorErase, SpiHsRead} ==> r == s
  {
    if val == 0x01 then s.(state := SpiFollow)
    else if val == 0x02 then s.(state := SpiCommand)
    else if val == 0x03 then
      match s.state
      case SpiWriteStatus => s.(state := SpiWriteStatusData)
      case SpiSectorErase => s.(state := SpiSectorEraseAddress)
      case SpiHsRead => s.(state := SpiHsReadAddress)
      case _ => s
    else if val == 0x04 then
      match s.state
      case SpiReadStatus => s.(data := s.spiSts, cmd := SetBit(s.cmd, 0))
      case SpiReadJedec =>
        if s.spiJedecI < |Jedec| then
          s.(data := Jedec[s.spiJedecI], spiJedecI := s.spiJedecI + 1, cmd := SetBit(s.cmd, 0))
        else s
      case SpiHsReadData => s.(data := 0xFF, cmd := SetBit(s.cmd, 0))
      case _ => s
    else if val == 0x05 then s.(state := Idle)
    else s
  }

  /** One address byte for sector erase (ecsim.c:385-400): it fills the next
      slot down; the state drops back to SpiSectorErase, or to SpiFollow once
      the counter reaches 0. */
  function SectorEraseAddressByte(s: EcState, val: byte): (r: EcState)
    requires Valid(s)
    ensures Valid(r)
    ensures r == s.(state := r.state, spiAddr := r.spiAddr, spiAddrI := r.spiAddrI)
    ensures s.spiAddrI > 0 ==>
              r.spiAddrI == s.spiAddrI - 1 && r.spiAddr == s.spiAddr[s.spiAddrI - 1 := val]
    ensures s.spiAddrI == 0 ==> r.spiAddr == s.spiAddr && r.spiAddrI == 0
    ensures r.state == (if r.spiAddrI == 0 then SpiFollow else SpiSectorErase)
  {
    var s1 := s.(state := SpiSectorErase);
    var s2 :=
      if s1.spiAddrI > 0 then
        s1.(spiAddrI := s1.spiAddrI - 1, spiAddr := s1.spiAddr[s1.spiAddrI - 1 := val])
      else s1;
    if s2.spiAddrI == 0 then s2.(state := SpiFollow) else s2
  }

  /** One address byte for high-speed read (ecsim.c:401-420): with the counter
      at 0 the byte is the dummy byte and the data phase begins; otherwise it
      fills the next slot down and the state drops back to SpiHsRead. */
  function HsReadAddressByte(s: EcState, val: byte): (r: EcState)
    requires Valid(s)
    ensures Valid(r)
    ensures r == s.(state := r.state, spiAddr := r.spiAddr, spiAddrI := r.spiAddrI)
    ensures s.spiAddrI == 0 ==> r == s.(state := SpiHsReadData)
    ensures s.spiAddrI > 0 ==>
              && r.state == SpiHsRead
              && r.spiAddrI == s.spiAddrI - 1
              && r.spiAddr == s.spiAddr[s.spiAddrI - 1 := val]
  {
    if s.spiAddrI == 0 then s.(state := SpiHsReadData)
    else s.(state := SpiHsRead, spiAddrI := s.spiAddrI - 1, spiAddr := s.spiAddr[s.spiAddrI - 1 := val])
  }

  /** Flash opcodes, written to the command port in SpiCommand
      (ecsim.c:421-474). 0x06/0x04 set/clear the write-enable latch (bit 1 of
      the status register) and leave every other bit alone; 0x0B, 0x20 and
      0xD7 reset the address accumulator; 0x9F rewinds the JEDEC cursor. */
  function SpiOpcode(s: EcState, val: byte): (r: EcState)
    requires Valid(s)
    ensures Valid(r)
    ensures r == s.(state := r.state, spiSts := r.spiSts, spiAddr := r.spiAddr,
                    spiAddrI := r.spiAddrI, spiJedecI := r.spiJedecI)
    ensures val == 0x06 ==>
              r.state == SpiFollow && HasBit(r.spiSts, 1) && ClearBit(r.spiSts, 1) == ClearBit(s.spiSts, 1)
    ensures val == 0x04 ==>
              r.state == SpiFollow && !HasBit(r.spiSts, 1) && ClearBit(r.spiSts, 1) == ClearBit(s.spiSts, 1)
    ensures val != 0x04 && val != 0x06 ==> r.spiSts == s.spiSts
    ensures val in {0x0B, 0x20, 0xD7} ==> r.spiAddr == Zeros(4) && r.spiAddrI == 3
    ensures val == 0x9F ==> r == s.(state := SpiReadJedec, spiJedecI := 0)
    ensures val in {0x04, 0x06} ==> r == s.(state := SpiFollow, spiSts := r.spiSts)
    ensures val == 0x01 ==> r == s.(state := SpiWriteStatus)
    ensures val == 0x05 ==> r == s.(state := SpiReadStatus)
    ensures val == 0x0B ==> r == s.(state := SpiHsRead, spiAddr := Zeros(4), spiAddrI := 3)
    ensures val in {0x20, 0xD7} ==> r == s.(state := SpiSectorErase, spiAddr := Zeros(4), spiAddrI := 3)
    ensures val == 0xAD ==> r == s.(state := SpiAaiProgram)
    ensures val !in {0x01, 0x04, 0x05, 0x06, 0x0B, 0x20, 0xD7, 0x9F, 0xAD} ==> r == s
  {
    if val == 0x01 then s.(state := SpiWriteStatus)
    else if val == 0x04 then s.(state := SpiFollow, spiSts := ClearBit(s.spiSts, 1))
    else if val == 0x05 then s.(state := SpiReadStatus)
    else if val == 0x06 then s.(state := SpiFollow, spiSts := SetBit(s.spiSts, 1))
    else if val == 0x0B then s.(state := SpiHsRead, spiAddr := Zeros(4), spiAddrI := 3)
    else if val == 0x20 || val == 0xD7 then s.(state := SpiSectorErase, spiAddr := Zeros(4), spiAddrI := 3)
    else if val == 0x9F then s.(state := SpiReadJedec, spiJedecI := 0)
    else if val == 0xAD then s.(state := SpiAaiProgram)
    else s
  }

  /** Host commands (ecsim.c:485-530): 0x01 enters the SPI protocol, 0x80/0x81
      start an ACPI get/set, 0x92/0x93 start a project/version readout from
      its first character, 0xDC stages 0x33, 0xDE and 0xF0 return to Idle. */
  function HostCommand(s: EcState, val: byte): (r: EcState)
    requires Valid(s)
    ensures Valid(r)
    ensures r == s.(state := r.state, data := r.data, cmd := r.cmd,
                    projectI := r.projectI, versionI := r.versionI)
    ensures val == 0x01 ==> r == s.(state := SpiFollow)
    ensures val == 0x80 ==> r == s.(state := GetAcpi)
    ensures val == 0x81 ==> r == s.(state := SetAcpi)
    ensures val == 0x92 ==> r == s.(state := GetProject, projectI := 0)
    ensures val == 0x93 ==> r == s.(state := GetVersion, versionI := 0)
    ensures val == 0xDC ==> r == s.(state := Idle, data := 0x33, cmd := 1)
    ensures val == 0xDE || val == 0xF0 ==> r == s.(state := Idle)
    ensures val != 0xDC ==> r.data == s.data && r.cmd == s.cmd
    ensures val !in {0x01, 0x80, 0x81, 0x92, 0x93, 0xDC, 0xDE, 0xF0} ==> r == s
  {
    if val == 0x01 then s.(state := SpiFollow)
    else if val == 0x80 then s.(state := GetAcpi)
    else if val == 0x81 then s.(state := SetAcpi)
    else if val == 0x92 then s.(state := GetProject, projectI := 0)
    else if val == 0x93 then s.(state := GetVersion, versionI := 0)
    else if val == 0xDC then s.(state := Idle, data := 0x33, cmd := SetBit(s.cmd, 0))
    else if val == 0xDE then s.(state := Idle)
    else if val == 0xF0 then s.(state := Idle)
    else s
  }

  /** Command-port writes (ecsim.c:309-531): SPI control bytes in the
      following states, the single status byte in SpiWriteStatusData, address
      bytes in the two address states, a flash opcode in SpiCommand, and a
      host command everywhere else. The SuperIO file is never touched. */
  function CommandWrite(s: EcState, val: byte): (r: EcState)
    requires Valid(s)
    ensures Valid(r)
    ensures r.superioAddr == s.superioAddr && r.superioData == s.superioData
    ensures r.acpiSpace == s.acpiSpace && r.lleConnected == s.lleConnected
    ensures s.state == SpiWriteStatusData ==> r == s.(state := SpiWriteStatus, spiSts := val)
  {
    match s.state
    case SpiFollow | SpiReadStatus | SpiReadJedec | SpiWriteStatus
       | SpiSectorErase | SpiHsRead | SpiHsReadData =>
      SpiControl(s, val)
    case SpiWriteStatusData => s.(state := SpiWriteStatus, spiSts := val)
    case SpiSectorEraseAddress => SectorEraseAddressByte(s, val)
    case SpiHsReadAddress => HsReadAddressByte(s, val)
    case SpiCommand => SpiOpcode(s, val)
    case _ => HostCommand(s, val)
  }

  /** A write handled by the EC's own emulation, routed by port
      (ecsim.c:271-536). SuperIO writes touch only the SuperIO file. */
  function EmulatedWrite(s: EcState, addr: byte, val: byte): (r: EcState)
    requires Valid(s)
    ensures Valid(r)
    ensures r.lleConnected == s.lleConnected
    ensures addr == SuperioAddrPort ==> r == s.(superioAddr := val)
    ensures addr == SuperioDataPort ==> r == s.(superioData := s.superioData[s.superioAddr := val])
    ensures addr !in {SuperioAddrPort, SuperioDataPort, DataPort, CmdPort} ==> r == s
  {
    if addr == SuperioAddrPort then s.(superioAddr := val)
    else if addr == SuperioDataPort then s.(superioData := s.superioData[s.superioAddr as int := val])
    else if addr == DataPort then DataWrite(s, val)
    else if addr == CmdPort then CommandWrite(s, val)
    else s
  }

  /** ec_io_write: when the bypass accepts the write, nothing else is touched;
      otherwise the emulation handles it. */
  function IoWrite(s: EcState, addr: byte, val: byte, outcome: Transport): (r: EcState)
    requires Valid(s)
    ensures Valid(r)
    ensures s.lleConnected && outcome.Replied? ==> r == s
    ensures !s.lleConnected ==> r == EmulatedWrite(s, addr, val)
    ensures s.lleConnected && !outcome.Replied? ==> r == EmulatedWrite(s.(lleConnected := false), addr, val)
  {
    var (connected, reply) := LleRequest(s.lleConnected, outcome);
    if reply.Some? then s
    else EmulatedWrite(s.(lleConnected := connected), addr, val)
  }
}
