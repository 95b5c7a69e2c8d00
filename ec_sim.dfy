/** The Embedded Controller as ecsim.c has it: one object whose fields
    ec_io_read and ec_io_write update in place. Each method is proved to
    leave the object in the state the matching function of EcSpec computes
    from the old state, so every property proved of EcSpec holds of it. */
module EcSim {

  import opened Bytes
  import opened EcSpec

  /** `struct Ec` (ecsim.c:30-56). The port numbers are EcSpec's constants;
      project, version and spi_jedec are never written and are EcSpec's
      constants Project, Version and Jedec. lleConnected stands for
      `lle_socket >= 0`. */
  class Ec {
    var superioAddr: byte
    const superioData: array<byte>
    var data: byte
    var cmd: byte
    var state: State
    const acpiSpace: array<byte>
    var acpiSpaceI: byte
    var projectI: nat
    var versionI: nat
    var spiSts: byte
    const spiAddr: array<byte>
    var spiAddrI: nat
    var spiJedecI: nat
    var lleConnected: bool

    /** The value the object currently holds. */
    ghost function Abstract(): EcState
      reads this, superioData, acpiSpace, spiAddr
    {
      EcState(superioAddr, superioData[..], data, cmd, state, acpiSpace[..], acpiSpaceI,
              projectI, versionI, spiSts, spiAddr[..], spiAddrI, spiJedecI, lleConnected)
    }

    /** The three buffers are distinct and the value satisfies EcSpec's invariant. */
    ghost predicate Valid()
      reads this, superioData, acpiSpace, spiAddr
    {
      && superioData != acpiSpace
      && superioData != spiAddr
      && acpiSpace != spiAddr
      && EcSpec.Valid(Abstract())
    }

    /** ec_new (ecsim.c:93-162). `connectOk` says whether the UDP socket could
        be created and connected; `initOutcome` is what the peer did with the
        initial handshake request. */
    constructor (connectOk: bool, initOutcome: Transport)
      ensures Valid()
      ensures fresh(superioData) && fresh(acpiSpace) && fresh(spiAddr)
      ensures Abstract() == Initial(connectOk, initOutcome)
    {
      superioAddr := 0;
      superioData := new byte[256](_ => 0);
      data := 0;
      cmd := 0;
      state := Idle;
      acpiSpace := new byte[256](_ => 0);
      acpiSpaceI := 0;
      projectI := 0;
      versionI := 0;
      spiSts := 0x1C;
      spiAddr := new byte[4](_ => 0);
      spiAddrI := 0;
      spiJedecI := 0;
      lleConnected := false;
      new;
      // EC ID 0x8587
      superioData[0x20] := 0x85;
      superioData[0x21] := 0x87;
      assert superioData[..] == Zeros(256)[0x20 := 0x85][0x21 := 0x87];
      // AC adapter (0x01) and battery 0 (0x04) present
      acpiSpace[0x10] := 0x05;
      // region size 128K
      acpiSpace[0xE5] := 0x80;
      assert acpiSpace[..] == Zeros(256)[0x10 := 0x05][0xE5 := 0x80];
      assert spiAddr[..] == Zeros(4);
      if connectOk {
        lleConnected := true;
        var reply := LleRequest(initOutcome);
        assert lleConnected == initOutcome.Replied?;
      }
    }

    /** ec_lle_request (ecsim.c:58-91): asks the peer when the socket is open;
        a short send or receive closes the socket for good. */
    method LleRequest(outcome: Transport) returns (reply: Option<byte>)
      modifies this`lleConnected
      ensures (lleConnected, reply) == EcSpec.LleRequest(old(lleConnected), outcome)
    {
      reply := None;
      if lleConnected {
        match outcome
        case Replied(b) =>
          reply := Some(b);
        case SendFailed =>
          lleConnected := false;
        case RecvFailed =>
          lleConnected := false;
      }
    }

    /** ec_acpi_cmd (ecsim.c:171-208): reads the record at 0xF8..0xFD, answers
        a read request in d1, and writes d1..d5 back. */
    method AcpiCmd()
      requires Valid()
      modifies acpiSpace
      ensures Valid()
      ensures acpiSpace[..] == AcpiCommand(old(acpiSpace[..]))
    {
      var command := acpiSpace[0xF8];
      var data1 := acpiSpace[0xF9];
      var data2 := acpiSpace[0xFA];
      var data3 := acpiSpace[0xFB];
      var data4 := acpiSpace[0xFC];
      var data5 := acpiSpace[0xFD];
      if command == 0xB1 {
        if data3 == 0 {
          var addr: u16 := data1 as int * 0x100 + data2 as int;
          data1 := 0;
          if addr == 0x2002 {
            data1 := 0x06;
          }
        }
      }
      acpiSpace[0xF9] := data1;
      acpiSpace[0xFA] := data2;
      acpiSpace[0xFB] := data3;
      acpiSpace[0xFC] := data4;
      acpiSpace[0xFD] := data5;
    }

    // -------------------------------------------------------------------------
    // ec_io_read

    /** Project/version staging at the head of ec_io_read (ecsim.c:218-241). */
    method StageString()
      requires Valid()
      modifies this
      ensures Valid()
      ensures Abstract() == EcSpec.StageString(old(Abstract()))
    {
      match state
      case GetProject =>
        if !HasBit(cmd, 0) {
          data := Project[projectI];
          projectI := projectI + 1;
          if data == 0 {
            data := Dollar;
            state := Idle;
          }
          cmd := SetBit(cmd, 0);
        }
      case GetVersion =>
        if !HasBit(cmd, 0) {
          data := Version[versionI];
          versionI := versionI + 1;
          if data == 0 {
            data := Dollar;
            state := Idle;
          }
          cmd := SetBit(cmd, 0);
        }
      case _ =>
    }

    /** ec_io_read (ecsim.c:210-262). */
    method IoRead(addr: byte, outcome: Transport) returns (val: byte)
      requires Valid()
      modifies this
      ensures Valid()
      ensures (Abstract(), val) == EcSpec.IoRead(old(Abstract()), addr, outcome)
    {
      val := 0;
      var reply := LleRequest(outcome);
      if reply.Some? {
        return reply.value;
      }
      StageString();
      if addr == SuperioAddrPort {
        val := superioAddr;
      } else if addr == SuperioDataPort {
        val := superioData[superioAddr];
      } else if addr == DataPort {
        val := data;
        data := 0;
        cmd := ClearBit(cmd, 0);
      } else if addr == CmdPort {
        val := cmd;
      }
    }

    // -------------------------------------------------------------------------
    // ec_io_write

    /** The data-port branch of ec_io_write (ecsim.c:280-303). */
    method DataWrite(val: byte)
      requires Valid()
      modifies this, acpiSpace
      ensures Valid()
      ensures Abstract() == EcSpec.DataWrite(old(Abstract()), val)
    {
      match state
      case GetAcpi =>
        state := Idle;
        data := acpiSpace[val];
        cmd := SetBit(cmd, 0);
      case SetAcpi =>
        state := SetAcpiIndex;
        acpiSpaceI := val;
      case SetAcpiIndex =>
        state := Idle;
        acpiSpace[acpiSpaceI] := val;
        if acpiSpaceI == 0xF8 {
          AcpiCmd();
        }
      case _ =>
    }

    /** SPI control bytes (ecsim.c:317-378). */
    method SpiControl(val: byte)
      requires Valid() && Following(state)
      modifies this
      ensures Valid()
      ensures Abstract() == EcSpec.SpiControl(old(Abstract()), val)
    {
      if val == 0x01 {
        state := SpiFollow;
      } else if val == 0x02 {
        state := SpiCommand;
      } else if val == 0x03 {
        match state
        case SpiWriteStatus =>
          state := SpiWriteStatusData;
        case SpiSectorErase =>
          state := SpiSectorEraseAddress;
        case SpiHsRead =>
          state := SpiHsReadAddress;
        case _ =>
      } else if val == 0x04 {
        match state
        case SpiReadStatus =>
          data := spiSts;
          cmd := SetBit(cmd, 0);
        case SpiReadJedec =>
          if spiJedecI < |Jedec| {
            data := Jedec[spiJedecI];
            spiJedecI := spiJedecI + 1;
            cmd := SetBit(cmd, 0);
          }
        case SpiHsReadData =>
          data := 0xFF;
          cmd := SetBit(cmd, 0);
        case _ =>
      } else if val == 0x05 {
        state := Idle;
      }
    }

    /** A sector-erase address byte (ecsim.c:385-400). */
    method SectorEraseAddressByte(val: byte)
      requires Valid()
      modifies this, spiAddr
      ensures Valid()
      ensures Abstract() == EcSpec.SectorEraseAddressByte(old(Abstract()), val)
    {
      state := SpiSectorErase;
      if spiAddrI > 0 {
        spiAddrI := spiAddrI - 1;
        spiAddr[spiAddrI] := val;
      }
      if spiAddrI == 0 {
        // the erase address, SpiAddress(spiAddr[..]), is complete
        state := SpiFollow;
      }
    }

    /** A high-speed-read address or dummy byte (ecsim.c:401-420). */
    method HsReadAddressByte(val: byte)
      requires Valid()
      modifies this, spiAddr
      ensures Valid()
      ensures Abstract() == EcSpec.HsReadAddressByte(old(Abstract()), val)
    {
      if spiAddrI == 0 {
        state := SpiHsReadData;
      } else {
        state := SpiHsRead;
        spiAddrI := spiAddrI - 1;
        spiAddr[spiAddrI] := val;
      }
    }

    /** Flash opcodes (ecsim.c:421-474). */
    method SpiOpcode(val: byte)
      requires Valid()
      modifies this, spiAddr
      ensures Valid()
      ensures Abstract() == EcSpec.SpiOpcode(old(Abstract()), val)
    {
      if val == 0x01 {
        state := SpiWriteStatus;
      } else if val == 0x04 {
        state := SpiFollow;
        spiSts := ClearBit(spiSts, 1);
      } else if val == 0x05 {
        state := SpiReadStatus;
      } else if val == 0x06 {
        state := SpiFollow;
        spiSts := SetBit(spiSts, 1);
      } else if val == 0x0B || val == 0x20 || val == 0xD7 {
        state := if val == 0x0B then SpiHsRead else SpiSectorErase;
        spiAddr[0] := 0;
        spiAddr[1] := 0;
        spiAddr[2] := 0;
        spiAddr[3] := 0;
        spiAddrI := 3;
        assert spiAddr[..] == Zeros(4);
      } else if val == 0x9F {
        state := SpiReadJedec;
        spiJedecI := 0;
      } else if val == 0xAD {
        state := SpiAaiProgram;
      }
    }

    /** Host commands (ecsim.c:485-530). */
    method HostCommand(val: byte)
      requires Valid()
      modifies this
      ensures Valid()
      ensures Abstract() == EcSpec.HostCommand(old(Abstract()), val)
    {
      if val == 0x01 {
        state := SpiFollow;
      } else if val == 0x80 {
        state := GetAcpi;
      } else if val == 0x81 {
        state := SetAcpi;
      } else if val == 0x92 {
        state := GetProject;
        projectI := 0;
      } else if val == 0x93 {
        state := GetVersion;
        versionI := 0;
      } else if val == 0xDC {
        state := Idle;
        data := 0x33;
        cmd := SetBit(cmd, 0);
      } else if val == 0xDE || val == 0xF0 {
        state := Idle;
      }
    }

    /** The command-port branch of ec_io_write (ecsim.c:306-533). */
    method CommandWrite(val: byte)
      requires Valid()
      modifies this, spiAddr
      ensures Valid()
      ensures Abstract() == EcSpec.CommandWrite(old(Abstract()), val)
    {
      match state
      case SpiFollow | SpiReadStatus | SpiReadJedec | SpiWriteStatus
         | SpiSectorErase | SpiHsRead | SpiHsReadData =>
        SpiControl(val);
      case SpiWriteStatusData =>
        state := SpiWriteStatus;
        spiSts := val;
      case SpiSectorEraseAddress =>
        SectorEraseAddressByte(val);
      case SpiHsReadAddress =>
        HsReadAddressByte(val);
      case SpiCommand =>
        SpiOpcode(val);
      case _ =>
        HostCommand(val);
    }

    /** ec_io_write (ecsim.c:264-537). */
    method IoWrite(addr: byte, val: byte, outcome: Transport)
      requires Valid()
      modifies this, superioData, acpiSpace, spiAddr
      ensures Valid()
      ensures Abstract() == EcSpec.IoWrite(old(Abstract()), addr, val, outcome)
    {
      var reply := LleRequest(outcome);
      if reply.Some? {
        return;
      }
      if addr == SuperioAddrPort {
        superioAddr := val;
      } else if addr == SuperioDataPort {
        superioData[superioAddr] := val;
      } else if addr == DataPort {
        DataWrite(val);
      } else if addr == CmdPort {
        CommandWrite(val);
      }
    }
  }
}
