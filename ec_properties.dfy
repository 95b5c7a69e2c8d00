/** What the EC's protocols promise, stated over EcSpec's transitions:
    the SuperIO register file, the data/command register pair, the ACPI
    get/set protocol, the project/version readout, and the SPI flash
    status register, JEDEC ID and address accumulator. Every lemma speaks
    of the emulation with the bypass socket closed (IoRead/IoWrite reduce to
    EmulatedRead/EmulatedWrite then, whatever the transport does). */
module EcProperties {

  import opened Bytes
  import opened EcSpec
  import opened EcTrace

  /** A byte written to the command port. */
  function Command(s: EcState, val: byte): EcState
    requires Valid(s)
  {
    EmulatedWrite(s, CmdPort, val)
  }

  /** A byte written to the data port. */
  function Data(s: EcState, val: byte): EcState
    requires Valid(s)
  {
    EmulatedWrite(s, DataPort, val)
  }

  // ---------------------------------------------------------------------------
  // 24-bit flash address assembly

  /** Spelling out the slots of the accumulator and splitting the address
      again gives back the slots. */
  lemma {:induction false} AddressBytesOfSpiAddress(a: seq<byte>)
    requires |a| == 4
    ensures AddressBytes(SpiAddress(a)) == a
  {
    var x: int := SpiAddress(a);
    var h2: int := a[2] as int + 0x100 * a[3] as int;
    var h1: int := a[1] as int + 0x100 * h2;
    SplitByte(a[0], h1);
    SplitByte(a[1], h2);
    SplitByte(a[2], a[3]);
    assert x / 0x1_0000 == (x / 0x100) / 0x100;
    assert x / 0x100_0000 == ((x / 0x100) / 0x100) / 0x100;
  }

  lemma SplitByte(lo: byte, hi: nat)
    ensures (lo + 0x100 * hi) % 0x100 == lo
    ensures (lo + 0x100 * hi) / 0x100 == hi
  {
  }

  /** Splitting an address into bytes and assembling them gives it back. */
  lemma SpiAddressOfAddressBytes(x: u32)
    ensures SpiAddress(AddressBytes(x)) == x
  {
    var q1 := x / 0x100;
    var q2 := q1 / 0x100;
    assert x == x % 0x100 + 0x100 * q1;
    assert q1 == q1 % 0x100 + 0x100 * q2;
    assert q2 == q2 % 0x100 + 0x100 * (q2 / 0x100);
    assert x / 0x1_0000 == q2;
    assert x / 0x100_0000 == q2 / 0x100;
  }

  // ---------------------------------------------------------------------------
  // SuperIO register file (ecsim.c:243-248, 271-276)

  /** Writing the address port latches the byte and touches nothing else;
      reading the address port returns it. */
  lemma SuperioAddressLatch(s: EcState, v: byte)
    requires Valid(s)
    ensures EmulatedWrite(s, SuperioAddrPort, v) == s.(superioAddr := v)
    ensures EmulatedRead(s.(superioAddr := v), SuperioAddrPort).1 == v
  {
  }

  /** Select register a, write v, select a again, read the data port: the
      read returns v, and only register a and the selector changed. */
  lemma SuperioDataRoundTrip(s: EcState, a: byte, v: byte)
    requires Valid(s)
    ensures var s1 := EmulatedWrite(EmulatedWrite(s, SuperioAddrPort, a), SuperioDataPort, v);
            && s1 == s.(superioAddr := a, superioData := s.superioData[a := v])
            && EmulatedRead(EmulatedWrite(s1, SuperioAddrPort, a), SuperioDataPort).1 == v
  {
  }

  // ---------------------------------------------------------------------------
  // Data and command registers (ecsim.c:249-256)

  /** Outside a string readout (or with a byte already staged), a data-port
      read returns the staged byte and empties the register, and a
      command-port read returns the flag and changes nothing. */
  lemma RegisterReads(s: EcState)
    requires Valid(s)
    requires (s.state != GetProject && s.state != GetVersion) || s.cmd == 1
    ensures EmulatedRead(s, DataPort) == (s.(data := 0, cmd := 0), s.data)
    ensures EmulatedRead(s, CmdPort) == (s, s.cmd)
  {
  }

  /** During a readout with nothing staged, polling the command port stages
      the next character, so the poll sees the flag set. */
  lemma CommandPortPollStages(s: EcState)
    requires Valid(s)
    requires s.state == GetProject || s.state == GetVersion
    requires s.cmd == 0
    ensures EmulatedRead(s, CmdPort) == (StageString(s), 1)
    ensures StageString(s).data == (if s.state == GetProject then
                                     (if Project[s.projectI] == 0 then Dollar else Project[s.projectI])
                                   else
                                     (if Version[s.versionI] == 0 then Dollar else Version[s.versionI]))
  {
  }

  // ---------------------------------------------------------------------------
  // ACPI shadow memory (ecsim.c:281-299, 491-498)

  /** Command 0x81, then index i and value v on the data port: the space
      holds v at i, the state is Idle, and only the space and the saved
      index changed. Any index but 0xF8 changes exactly one byte. */
  lemma AcpiSet(s: EcState, i: byte, v: byte)
    requires Valid(s) && HostCommandState(s.state)
    ensures var s1 := Data(Data(Command(s, 0x81), i), v);
            && s1 == s.(state := Idle, acpiSpaceI := i, acpiSpace := s1.acpiSpace)
            && s1.acpiSpace[i] == v
            && (i != 0xF8 ==> s1.acpiSpace == s.acpiSpace[i := v])
            && (i == 0xF8 ==> s1.acpiSpace == AcpiCommand(s.acpiSpace[i := v]))
  {
  }

  /** Command 0x80, then index i on the data port: the byte at i is staged,
      the flag is set and the state is Idle; the next data-port read returns
      it and empties the register. */
  lemma AcpiGet(s: EcState, i: byte)
    requires Valid(s) && HostCommandState(s.state)
    ensures var s1 := Data(Command(s, 0x80), i);
            && s1 == s.(state := Idle, data := s.acpiSpace[i], cmd := 1)
            && EmulatedRead(s1, DataPort) == (s.(state := Idle, data := 0, cmd := 0), s.acpiSpace[i])
  {
  }

  /** What an ACPI set stores, an ACPI get of the same index returns. */
  lemma AcpiSetThenGet(s: EcState, i: byte, v: byte)
    requires Valid(s) && HostCommandState(s.state)
    ensures var s1 := Data(Data(Command(s, 0x81), i), v);
            EmulatedRead(Data(Command(s1, 0x80), i), DataPort).1 == v
  {
    AcpiSet(s, i, v);
    AcpiGet(Data(Data(Command(s, 0x81), i), v), i);
  }

  // ---------------------------------------------------------------------------
  // One access at the head of a run, with the socket closed

  lemma RunRead(s: EcState, port: byte, o: Transport, rest: seq<Access>)
    requires Valid(s) && !s.lleConnected
    ensures var (s1, v) := EmulatedRead(s, port);
            Run(s, [ReadPort(port, o)] + rest) == (Run(s1, rest).0, [v] + Run(s1, rest).1)
  {
    assert ([ReadPort(port, o)] + rest)[0] == ReadPort(port, o);
    assert ([ReadPort(port, o)] + rest)[1..] == rest;
  }

  lemma RunWrite(s: EcState, port: byte, val: byte, o: Transport, rest: seq<Access>)
    requires Valid(s) && !s.lleConnected
    ensures Run(s, [WritePort(port, val, o)] + rest) == Run(EmulatedWrite(s, port, val), rest)
  {
    assert ([WritePort(port, val, o)] + rest)[0] == WritePort(port, val, o);
    assert ([WritePort(port, val, o)] + rest)[1..] == rest;
  }

  /** In a state that reads command-port bytes as host commands, a command
      at the head of a run is HostCommand. */
  lemma RunHostCommand(s: EcState, val: byte, o: Transport, rest: seq<Access>)
    requires Valid(s) && !s.lleConnected && HostCommandState(s.state)
    ensures Run(s, [WritePort(CmdPort, val, o)] + rest) == Run(HostCommand(s, val), rest)
  {
    RunWrite(s, CmdPort, val, o, rest);
    FallThroughToHostCommand(s, val);
  }

  // ---------------------------------------------------------------------------
  // Project/version readout (ecsim.c:219-238, 499-508)

  /** The readout state of a string, its bytes up to its NUL and the index
      of that NUL. */
  function Rom(st: State): seq<byte>
  {
    if st == GetProject then Project else Version
  }

  function Terminator(st: State): nat
  {
    if st == GetProject then ProjectLen else VersionLen
  }

  function Cursor(s: EcState, st: State): nat
  {
    if st == GetProject then s.projectI else s.versionI
  }

  function WithCursor(s: EcState, st: State, k: nat): EcState
  {
    if st == GetProject then s.(projectI := k) else s.(versionI := k)
  }

  /** n data-port reads. */
  function DataReads(n: nat, o: Transport): (r: seq<Access>)
    ensures |r| == n && forall i :: 0 <= i < n ==> r[i] == ReadPort(DataPort, o)
  {
    seq(n, _ => ReadPort(DataPort, o))
  }

  /** One data-port read during a readout with nothing staged returns the
      character under the cursor ('$' for the NUL, which also ends the
      readout) and advances the cursor; the register is empty again after. */
  lemma StringStep(s: EcState, st: State)
    requires Valid(s)
    requires st == GetProject || st == GetVersion
    requires s.state == st && s.cmd == 0
    ensures Cursor(s, st) <= Terminator(st)
    ensures var k := Cursor(s, st);
            EmulatedRead(s, DataPort) ==
              if Rom(st)[k] == 0 then (WithCursor(s, st, k + 1).(state := Idle), Dollar)
              else (WithCursor(s, st, k + 1), Rom(st)[k])
  {
  }

  /** n data-port reads answered by the emulation: the state after them
      and the bytes they return. */
  function EmulatedDataReads(s: EcState, n: nat): (r: (EcState, seq<byte>))
    requires Valid(s)
    ensures Valid(r.0) && r.0.lleConnected == s.lleConnected
    ensures |r.1| == n
    decreases n
  {
    if n == 0 then (s, [])
    else
      var (s1, v) := EmulatedRead(s, DataPort);
      var (s2, out) := EmulatedDataReads(s1, n - 1);
      (s2, [v] + out)
  }

  /** With the socket closed, a run of n data-port reads is n emulated reads. */
  lemma {:induction false} ClosedDataReads(s: EcState, n: nat, o: Transport)
    requires Valid(s) && !s.lleConnected
    ensures Run(s, DataReads(n, o)) == EmulatedDataReads(s, n)
    decreases n
  {
    if n == 0 {
      assert DataReads(n, o) == [];
    } else {
      assert DataReads(n, o) == [ReadPort(DataPort, o)] + DataReads(n - 1, o);
      RunRead(s, DataPort, o, DataReads(n - 1, o));
      ClosedDataReads(EmulatedRead(s, DataPort).0, n - 1, o);
    }
  }

  /** The state a readout of st ends in. */
  function ReadoutDone(s: EcState, st: State): EcState
  {
    WithCursor(s, st, Terminator(st) + 1).(state := Idle)
  }

  /** What a readout from cursor k returns: the characters up to the NUL,
      then '$'. */
  function Remaining(st: State, k: nat): seq<byte>
    requires k <= Terminator(st)
    decreases Terminator(st) - k
  {
    if k == Terminator(st) then [Dollar] else [Rom(st)[k]] + Remaining(st, k + 1)
  }

  /** Every character before the terminator is printable. */
  lemma RomCharacter(st: State, k: nat)
    requires st == GetProject || st == GetVersion
    requires k < Terminator(st)
    ensures Rom(st)[k] != 0
  {
  }

  /** At the terminator, one read returns '$' and ends the readout. */
  lemma StringReadoutEnd(s: EcState, st: State)
    requires Valid(s)
    requires st == GetProject || st == GetVersion
    requires s.state == st && s.cmd == 0 && Cursor(s, st) == Terminator(st)
    ensures EmulatedDataReads(s, 1) == (ReadoutDone(s, st), [Dollar])
  {
    StringStep(s, st);
    var s1 := EmulatedRead(s, DataPort).0;
    assert EmulatedDataReads(s1, 0) == (s1, []);
    assert [Dollar] + [] == [Dollar];
  }

  /** Moving the cursor of a readout on by one before its terminator keeps
      the invariant. */
  lemma AdvanceCursor(s: EcState, st: State)
    requires Valid(s)
    requires st == GetProject || st == GetVersion
    requires s.state == st && Cursor(s, st) < Terminator(st)
    ensures var s1 := WithCursor(s, st, Cursor(s, st) + 1);
            && Valid(s1) && s1.state == st && s1.cmd == s.cmd && Cursor(s1, st) == Cursor(s, st) + 1
            && ReadoutDone(s1, st) == ReadoutDone(s, st)
  {
  }

  /** Before the terminator, one read returns the character under the cursor
      and the rest of the readout goes on from the next one. */
  lemma StringReadoutNext(s: EcState, st: State)
    requires Valid(s)
    requires st == GetProject || st == GetVersion
    requires s.state == st && s.cmd == 0 && Cursor(s, st) < Terminator(st)
    requires var s1 := WithCursor(s, st, Cursor(s, st) + 1);
             && Valid(s1)
             && EmulatedDataReads(s1, Terminator(st) + 1 - Cursor(s1, st)) ==
                (ReadoutDone(s1, st), Remaining(st, Cursor(s1, st)))
    ensures EmulatedDataReads(s, Terminator(st) + 1 - Cursor(s, st)) ==
            (ReadoutDone(s, st), Remaining(st, Cursor(s, st)))
  {
    var k := Cursor(s, st);
    RomCharacter(st, k);
    StringStep(s, st);
    AdvanceCursor(s, st);
    var s1 := WithCursor(s, st, k + 1);
    assert EmulatedRead(s, DataPort) == (s1, Rom(st)[k]);
  }

  /** From cursor k with nothing staged, data-port reads yield the rest of
      the string and then '$'; the state stays in the readout until the '$'
      is staged and is Idle after it. */
  lemma {:induction false} StringReadout(s: EcState, st: State)
    requires Valid(s)
    requires st == GetProject || st == GetVersion
    requires s.state == st && s.cmd == 0
    ensures Cursor(s, st) <= Terminator(st)
    ensures EmulatedDataReads(s, Terminator(st) + 1 - Cursor(s, st)) ==
            (ReadoutDone(s, st), Remaining(st, Cursor(s, st)))
    decreases Terminator(st) - Cursor(s, st), 1
  {
    if Cursor(s, st) == Terminator(st) {
      StringReadoutEnd(s, st);
    } else {
      StringReadoutBefore(s, st);
    }
  }

  /** The inductive step of StringReadout, for a cursor before the NUL. */
  lemma {:induction false} StringReadoutBefore(s: EcState, st: State)
    requires Valid(s)
    requires st == GetProject || st == GetVersion
    requires s.state == st && s.cmd == 0 && Cursor(s, st) < Terminator(st)
    ensures EmulatedDataReads(s, Terminator(st) + 1 - Cursor(s, st)) ==
            (ReadoutDone(s, st), Remaining(st, Cursor(s, st)))
    decreases Terminator(st) - Cursor(s, st), 0
  {
    var k := Cursor(s, st);
    var s1 := WithCursor(s, st, k + 1);
    AdvanceCursor(s, st);
    StringReadout(s1, st);
    StringReadoutNext(s, st);
  }

  /** With the socket closed, a readout from the first character returns
      the whole string and then '$'. */
  lemma ReadoutRun(s: EcState, st: State, o: Transport)
    requires Valid(s) && !s.lleConnected
    requires st == GetProject || st == GetVersion
    requires s.state == st && s.cmd == 0 && Cursor(s, st) == 0
    ensures Run(s, DataReads(Terminator(st) + 1, o)) == (ReadoutDone(s, st), Remaining(st, 0))
  {
    ClosedDataReads(s, Terminator(st) + 1, o);
    StringReadout(s, st);
  }

  /** The two readouts from their first character. */
  lemma RomStrings()
    ensures Remaining(GetProject, 0) == [0x4E, 0x31, 0x33, 0x30, 0x5A, 0x55, Dollar]
    ensures Remaining(GetVersion, 0) == [0x30, 0x37, 0x2E, 0x30, 0x32, Dollar]
  {
  }

  /** Command 0x92 and seven data-port reads yield "N130ZU$", from the first
      character whatever the old cursor was. */
  lemma ProjectReadout(s: EcState, o: Transport)
    requires Valid(s) && !s.lleConnected && HostCommandState(s.state) && s.cmd == 0
    ensures Run(s, [WritePort(CmdPort, 0x92, o)] + DataReads(7, o)) ==
            (s.(state := Idle, projectI := 7), [0x4E, 0x31, 0x33, 0x30, 0x5A, 0x55, Dollar])
  {
    var s1 := s.(state := GetProject, projectI := 0);
    RunHostCommand(s, 0x92, o, DataReads(7, o));
    ReadoutRun(s1, GetProject, o);
    RomStrings();
  }

  /** Command 0x93 and six data-port reads yield "07.02$". */
  lemma VersionReadout(s: EcState, o: Transport)
    requires Valid(s) && !s.lleConnected && HostCommandState(s.state) && s.cmd == 0
    ensures Run(s, [WritePort(CmdPort, 0x93, o)] + DataReads(6, o)) ==
            (s.(state := Idle, versionI := 6), [0x30, 0x37, 0x2E, 0x30, 0x32, Dollar])
  {
    var s1 := s.(state := GetVersion, versionI := 0);
    RunHostCommand(s, 0x93, o, DataReads(6, o));
    ReadoutRun(s1, GetVersion, o);
    RomStrings();
  }

  // ---------------------------------------------------------------------------
  // SPI status register (ecsim.c:349-352, 380-384, 428-441)

  /** From any SPI follow state, 0x02, 0x05 and control 0x04 stage the
      status register in the data register and raise the output flag;
      nothing else changes. */
  lemma StatusReadback(s: EcState)
    requires Valid(s) && Following(s.state)
    ensures Command(Command(Command(s, 0x02), 0x05), 0x04) ==
            s.(state := SpiReadStatus, data := s.spiSts, cmd := 1)
  {
    var t1 := Command(s, 0x02);
    assert t1 == s.(state := SpiCommand);
    var t2 := Command(t1, 0x05);
    assert t2 == s.(state := SpiReadStatus);
  }

  /** From any SPI follow state, 0x02 then 0x06 (write enable) or 0x04
      (write disable) sets or clears bit 1 of the status register and nothing
      else; reading the status back then stages exactly that status. */
  lemma WriteEnableLatch(s: EcState, enable: bool)
    requires Valid(s) && Following(s.state)
    ensures var s1 := Command(Command(s, 0x02), if enable then 0x06 else 0x04);
            var s2 := Command(Command(Command(s1, 0x02), 0x05), 0x04);
            && s1 == s.(state := SpiFollow, spiSts := s1.spiSts)
            && HasBit(s1.spiSts, 1) == enable
            && ClearBit(s1.spiSts, 1) == ClearBit(s.spiSts, 1)
            && s2 == s1.(state := SpiReadStatus, data := s1.spiSts, cmd := 1)
  {
    var s0 := Command(s, 0x02);
    assert s0 == s.(state := SpiCommand);
    var s1 := Command(s0, if enable then 0x06 else 0x04);
    assert s1 == SpiOpcode(s0, if enable then 0x06 else 0x04);
    assert s1.state == SpiFollow;
    StatusReadback(s1);
  }

  /** From the SPI command state, 0x01 (write status), control 0x03 and a
      byte v replace the whole status register by v (no bit is protected);
      reading the status back stages v. */
  lemma WriteStatus(s: EcState, v: byte)
    requires Valid(s) && s.state == SpiCommand
    ensures var s1 := Command(Command(Command(s, 0x01), 0x03), v);
            && s1 == s.(state := SpiWriteStatus, spiSts := v)
            && Command(Command(Command(s1, 0x02), 0x05), 0x04).data == v
  {
    var s0 := Command(s, 0x01);
    assert s0 == s.(state := SpiWriteStatus);
    var s1 := Command(s0, 0x03);
    assert s1 == s.(state := SpiWriteStatusData);
    var s2 := Command(s1, v);
    assert s2 == s.(state := SpiWriteStatus, spiSts := v);
    StatusReadback(s2);
  }

  // ---------------------------------------------------------------------------
  // JEDEC ID (ecsim.c:354-358, 461-464)

  /** n (control 0x04, data-port read) pairs. */
  function JedecReads(n: nat, o: Transport): seq<Access>
  {
    if n == 0 then [] else [WritePort(CmdPort, 0x04, o)] + ([ReadPort(DataPort, o)] + JedecReads(n - 1, o))
  }

  /** Control 0x04 in the JEDEC state stages the byte under the cursor and
      advances it; past the end of the ID it changes nothing. */
  lemma JedecControl(s: EcState)
    requires Valid(s) && s.state == SpiReadJedec
    ensures Command(s, 0x04) ==
            if s.spiJedecI < |Jedec|
            then s.(data := Jedec[s.spiJedecI], cmd := 1, spiJedecI := s.spiJedecI + 1)
            else s
  {
    assert Command(s, 0x04) == SpiControl(s, 0x04);
  }

  /** Outside the readouts, a data-port read returns the staged byte and
      empties the register. */
  lemma DataRead(s: EcState)
    requires Valid(s) && s.state != GetProject && s.state != GetVersion
    ensures EmulatedRead(s, DataPort) == (s.(data := 0, cmd := 0), s.data)
  {
    assert StageString(s) == s;
  }

  /** One pair before the end of the ID returns the byte under the cursor
      and advances it; at the end it returns the empty register's 0 and
      changes nothing. */
  lemma JedecStep(s: EcState, o: Transport, n: nat)
    requires Valid(s) && !s.lleConnected && s.state == SpiReadJedec && s.cmd == 0
    ensures var s1 := if s.spiJedecI < |Jedec| then s.(spiJedecI := s.spiJedecI + 1) else s;
            var v := if s.spiJedecI < |Jedec| then Jedec[s.spiJedecI] else 0;
            var (s2, out) := Run(s1, JedecReads(n, o));
            Run(s, JedecReads(n + 1, o)) == (s2, [v] + out)
  {
    var rest := JedecReads(n, o);
    RunWrite(s, CmdPort, 0x04, o, [ReadPort(DataPort, o)] + rest);
    JedecControl(s);
    var t := Command(s, 0x04);
    DataRead(t);
    RunRead(t, DataPort, o, rest);
  }

  /** From cursor k with nothing staged, the pairs yield the rest of the ID
      and leave the cursor at its end; one pair more stages nothing, so its
      read returns the emptied register's 0. */
  lemma {:induction false} JedecTail(s: EcState, o: Transport)
    requires Valid(s) && !s.lleConnected && s.state == SpiReadJedec && s.cmd == 0
    ensures Run(s, JedecReads(|Jedec| - s.spiJedecI + 1, o)) ==
            (s.(spiJedecI := |Jedec|), Jedec[s.spiJedecI..] + [0])
    decreases |Jedec| - s.spiJedecI, 1
  {
    if s.spiJedecI == |Jedec| {
      JedecStep(s, o, 0);
      assert Run(s, JedecReads(0, o)) == (s, []);
      assert Jedec[|Jedec|..] + [0] == [0] + [];
    } else {
      JedecTailBefore(s, o);
    }
  }

  /** The inductive step of JedecTail, for a cursor before the end of the ID. */
  lemma {:induction false} JedecTailBefore(s: EcState, o: Transport)
    requires Valid(s) && !s.lleConnected && s.state == SpiReadJedec && s.cmd == 0
    requires s.spiJedecI < |Jedec|
    ensures Run(s, JedecReads(|Jedec| - s.spiJedecI + 1, o)) ==
            (s.(spiJedecI := |Jedec|), Jedec[s.spiJedecI..] + [0])
    decreases |Jedec| - s.spiJedecI, 0
  {
    var k := s.spiJedecI;
    var s1 := s.(spiJedecI := k + 1);
    JedecStep(s, o, |Jedec| - k);
    JedecTail(s1, o);
    JedecSuffix(k);
  }

  /** The rest of the ID from k is its byte at k, then the rest from k + 1. */
  lemma JedecSuffix(k: nat)
    requires k < |Jedec|
    ensures Jedec[k..] + [0] == [Jedec[k]] + (Jedec[k + 1..] + [0])
  {
    assert Jedec[k..] == [Jedec[k]] + Jedec[k + 1..];
  }

  /** Opcode 0x9F rewinds the cursor; four pairs then yield FF FF FE FF, and a
      fifth stages nothing: its read returns the emptied register's 0 and the
      state is unchanged. */
  lemma JedecId(s: EcState, o: Transport)
    requires Valid(s) && !s.lleConnected && s.state == SpiCommand && s.cmd == 0
    ensures Run(s, [WritePort(CmdPort, 0x9F, o)] + JedecReads(5, o)) ==
            (s.(state := SpiReadJedec, spiJedecI := 4), [0xFF, 0xFF, 0xFE, 0xFF, 0x00])
  {
    var s1 := s.(state := SpiReadJedec, spiJedecI := 0);
    RunWrite(s, CmdPort, 0x9F, o, JedecReads(5, o));
    assert Command(s, 0x9F) == s1;
    JedecTail(s1, o);
    assert Jedec[0..] + [0] == [0xFF, 0xFF, 0xFE, 0xFF, 0x00];
  }

  // ---------------------------------------------------------------------------
  // Address accumulator (ecsim.c:361-365, 385-420, 442-460)

  /** In either address phase, control 0x03 and one byte store the byte in
      the next slot down and step the counter; only the last sector-erase
      byte leaves the address phase. */
  lemma AddressByte(s: EcState, b: byte)
    requires Valid(s) && (s.state == SpiSectorErase || s.state == SpiHsRead) && s.spiAddrI > 0
    ensures Command(Command(s, 0x03), b) ==
            s.(state := if s.state == SpiSectorErase && s.spiAddrI == 1 then SpiFollow else s.state,
               spiAddr := s.spiAddr[s.spiAddrI - 1 := b],
               spiAddrI := s.spiAddrI - 1)
  {
    var t := Command(s, 0x03);
    assert t == SpiControl(s, 0x03);
    if s.state == SpiSectorErase {
      assert t == s.(state := SpiSectorEraseAddress);
      assert Command(t, b) == SectorEraseAddressByte(t, b);
    } else {
      assert t == s.(state := SpiHsReadAddress);
      assert Command(t, b) == HsReadAddressByte(t, b);
    }
  }

  /** From a fresh address phase, three (control 0x03, byte) pairs fill
      slots 2, 1 and 0; the phase is kept after the first two bytes, and only
      a sector erase leaves it after the third. */
  lemma ThreeAddressBytes(s: EcState, b1: byte, b2: byte, b3: byte)
    requires Valid(s) && (s.state == SpiSectorErase || s.state == SpiHsRead)
    requires s.spiAddr == Zeros(4) && s.spiAddrI == 3
    ensures var s1 := Command(Command(s, 0x03), b1);
            var s2 := Command(Command(s1, 0x03), b2);
            var s3 := Command(Command(s2, 0x03), b3);
            && s1.state == s.state && s1.spiAddrI == 2
            && s2.state == s.state && s2.spiAddrI == 1
            && s3 == s.(state := if s.state == SpiSectorErase then SpiFollow else s.state,
                        spiAddr := [b3, b2, b1, 0], spiAddrI := 0)
  {
    AddressByte(s, b1);
    var s1 := Command(Command(s, 0x03), b1);
    assert s1 == s.(spiAddr := Zeros(4)[2 := b1], spiAddrI := 2);
    AddressByte(s1, b2);
    var s2 := Command(Command(s1, 0x03), b2);
    assert s2 == s.(spiAddr := Zeros(4)[2 := b1][1 := b2], spiAddrI := 1);
    AddressByte(s2, b3);
    assert Zeros(4)[2 := b1][1 := b2][0 := b3] == [b3, b2, b1, 0];
  }

  /** The slots b3, b2, b1 (lowest first) hold the address b1 << 16 | b2 << 8 | b3. */
  lemma SlotAddress(b1: byte, b2: byte, b3: byte)
    ensures SpiAddress([b3, b2, b1, 0]) == b1 as int * 0x1_0000 + b2 as int * 0x100 + b3 as int
  {
  }

  /** Opcode 0x20 or 0xD7, then three (control 0x03, byte) pairs: the bytes
      land in slots 2, 1, 0; the state drops back to SpiSectorErase after the
      first two bytes (so each byte needs its own 0x03) and is SpiFollow only
      after the third; the erase address is b1 << 16 | b2 << 8 | b3. */
  lemma SectorEraseAddress(s: EcState, op: byte, b1: byte, b2: byte, b3: byte)
    requires Valid(s) && s.state == SpiCommand && (op == 0x20 || op == 0xD7)
    ensures var s0 := Command(s, op);
            var s1 := Command(Command(s0, 0x03), b1);
            var s2 := Command(Command(s1, 0x03), b2);
            var s3 := Command(Command(s2, 0x03), b3);
            && s0.spiAddrI == 3
            && s1.state == SpiSectorErase && s1.spiAddrI == 2
            && s2.state == SpiSectorErase && s2.spiAddrI == 1
            && s3 == s.(state := SpiFollow, spiAddr := [b3, b2, b1, 0], spiAddrI := 0)
            && SpiAddress(s3.spiAddr) == b1 as int * 0x1_0000 + b2 as int * 0x100 + b3 as int
  {
    var s0 := Command(s, op);
    assert s0 == s.(state := SpiSectorErase, spiAddr := Zeros(4), spiAddrI := 3);
    ThreeAddressBytes(s0, b1, b2, b3);
    SlotAddress(b1, b2, b3);
  }

  /** Opcode 0x0B, then three (0x03, byte) pairs: the state is SpiHsRead
      after each, and the address is assembled as for sector erase. */
  lemma HighSpeedReadAddress(s: EcState, b1: byte, b2: byte, b3: byte)
    requires Valid(s) && s.state == SpiCommand
    ensures var s0 := Command(s, 0x0B);
            var s1 := Command(Command(s0, 0x03), b1);
            var s2 := Command(Command(s1, 0x03), b2);
            var s3 := Command(Command(s2, 0x03), b3);
            && s1.state == SpiHsRead && s1.spiAddrI == 2
            && s2.state == SpiHsRead && s2.spiAddrI == 1
            && s3 == s.(state := SpiHsRead, spiAddr := [b3, b2, b1, 0], spiAddrI := 0)
            && SpiAddress(s3.spiAddr) == b1 as int * 0x1_0000 + b2 as int * 0x100 + b3 as int
  {
    var s0 := Command(s, 0x0B);
    assert s0 == s.(state := SpiHsRead, spiAddr := Zeros(4), spiAddrI := 3);
    ThreeAddressBytes(s0, b1, b2, b3);
    SlotAddress(b1, b2, b3);
  }

  /** Once the address is complete, control 0x03 and a dummy byte move to the
      data phase, where control 0x04 stages 0xFF (flash contents are not
      emulated). */
  lemma HighSpeedReadData(s: EcState, dummy: byte)
    requires Valid(s) && s.state == SpiHsRead && s.spiAddrI == 0
    ensures var s4 := Command(Command(s, 0x03), dummy);
            && s4 == s.(state := SpiHsReadData)
            && Command(s4, 0x04) == s4.(data := 0xFF, cmd := 1)
  {
  }

  // ---------------------------------------------------------------------------
  // Routing facts

  /** Every SPI byte goes through the command port: in any SPI state a
      data-port write is ignored. */
  lemma DataWriteIgnoredInSpi(s: EcState, v: byte)
    requires Valid(s) && !HostCommandState(s.state)
    ensures Data(s, v) == s
  {
  }

  /** In SpiAaiProgram and the ACPI and readout states a command-port byte is
      read as a host command. */
  lemma FallThroughToHostCommand(s: EcState, v: byte)
    requires Valid(s) && HostCommandState(s.state)
    ensures Command(s, v) == HostCommand(s, v)
  {
  }
}
