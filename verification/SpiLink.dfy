/**
 * The two boards of the high-performance SPI demo, joined by the SPI bus and the handshake line.
 *
 * `System` is the joint state of the globals of both programs; `GpioIsr` and `SpiEvent` are the
 * master's interrupt handler and the slave's SPI callback as functions on it.  Class `Boards` holds
 * the same globals as fields and runs the handlers statement by statement; every method is tied to
 * the function.  The two `#ifdef` configurations only differ in the tasks that run beside these two
 * handlers, and live in SpiMasterToSlave.dfy and SpiSlaveToMaster.dfy.
 */
module SpiLink {
  import opened Bytes

  const FRAME := 64      // bytes on the wire in one data transaction, always
  const CAPACITY := 4096 // bytes in each of the four stream buffers
  const READ_CHUNK := 1024 // most bytes a reader task takes at once

  type Stream = seq<byte>
  type Frame = f: seq<byte> | |f| == FRAME witness seq(FRAME, _ => 0)

  datatype Mode = Null | Write | Read

  /** What the slave's SPI controller has seen and the slave callback has not handled yet. */
  datatype Event =
    | Quiet
    | WroteStatus(len: nat)    // SPI_SLV_WR_STA_DONE
    | WroteData(frame: Frame)  // SPI_SLV_WR_BUF_DONE
    | ReadStatus               // SPI_SLV_RD_STA_DONE
    | ReadData                 // SPI_SLV_RD_BUF_DONE

  datatype Master = Master(
    sendBuf: Stream, recvBuf: Stream, mode: Mode, transmitLen: nat, waitRecv: bool, irq: bool)

  datatype Slave = Slave(
    txBuf: Stream, rxBuf: Stream, totalRecvLen: nat, totalSendLen: nat,
    sending: bool, waitRecv: bool, line: bool, status: nat, dataReg: Frame)

  datatype System = System(m: Master, s: Slave, event: Event)

  function Init(): System {
    System(Master([], [], Null, 0, false, false),
           Slave([], [], 0, 0, false, false, false, 0, seq(FRAME, _ => 0)),
           Quiet)
  }

  function Space(b: Stream): int { CAPACITY - |b| }

  /** `gpio_set_level(line, 1)`: only a rising edge makes the master's interrupt pending. */
  function Raise(c: System): System {
    if c.s.line then c else c.(s := c.s.(line := true), m := c.m.(irq := true))
  }

  // ---------- master: gpio_isr_handler ----------

  function GpioIsr(c: System, pad: Frame): System {
    var m := c.m.(irq := false);
    match m.mode
    case Null => IsrIdle(c.(m := m))
    case Read => IsrRead(c.(m := m))
    case Write => IsrWrite(c.(m := m), pad)
  }

  function IsrIdle(c: System): System {
    var m := c.m;
    if m.sendBuf != [] then
      c.(m := m.(mode := Write, transmitLen := |m.sendBuf|), event := WroteStatus(|m.sendBuf|))
    else
      c.(m := m.(transmitLen := c.s.status, mode := if c.s.status > 0 then Read else Null),
         event := ReadStatus)
  }

  function IsrRead(c: System): System {
    var m := c.m;
    var n := Min(FRAME, m.transmitLen);
    if Space(m.recvBuf) < FRAME then
      c.(m := m.(waitRecv := true))
    else
      var left := m.transmitLen - n;
      c.(m := m.(recvBuf := m.recvBuf + c.s.dataReg[..n],
                 transmitLen := left,
                 mode := if left == 0 then Null else Read,
                 irq := left == 0 && m.sendBuf != []),
         event := ReadData)
  }

  function IsrWrite(c: System, pad: Frame): System {
    var m := c.m;
    var n := Min(FRAME, m.transmitLen);
    if n == 0 then
      if m.sendBuf != [] then c.(m := m.(mode := Null, irq := true))
      else c.(m := m.(mode := Null), event := WroteStatus(0))
    else if |m.sendBuf| < n then
      c.(m := m.(sendBuf := [])) // "Expect to send ... but only ...": the short read is dropped
    else
      c.(m := m.(sendBuf := m.sendBuf[n..], transmitLen := m.transmitLen - n),
         event := WroteData(m.sendBuf[..n] + pad[n..]))
  }

  // ---------- slave: spi_event_callback ----------

  /** A branch of the callback: the state it leaves, and whether it sets `trigger_flag`. */
  type Branch = (System, bool)

  /** `pad` is what the SPI data register holds behind the bytes the slave loads into it. */
  function SpiEvent(c: System, pad: Frame): System {
    var (d, trigger) := Handle(c.event, c.(s := c.s.(line := false), event := Quiet), pad);
    if trigger then Raise(d) else d
  }

  function Handle(e: Event, c: System, pad: Frame): Branch {
    match e
    case Quiet => (c, false)
    case ReadData => if c.s.totalSendLen == 0 then Announce(c) else LoadFrame(c, pad)
    case WroteData(frame) => TakeFrame(c, frame)
    case WroteStatus(len) => TakeLength(c, len)
    case ReadStatus => LoadFrame(c, pad)
  }

  function Announce(c: System): Branch {
    var n := |c.s.txBuf|;
    (c.(s := c.s.(totalSendLen := n, status := if n > 0 then n else c.s.status, sending := n > 0)), n > 0)
  }

  function LoadFrame(c: System, pad: Frame): Branch {
    var n := Min(FRAME, |c.s.txBuf|);
    if n == 0 then (c, false)
    else
      (c.(s := c.s.(txBuf := c.s.txBuf[n..],
                    totalSendLen := Sub32(c.s.totalSendLen, n),
                    dataReg := c.s.txBuf[..n] + pad[n..])), true)
  }

  /** `xStreamBufferSendFromISR` takes what fits and drops the rest. */
  function Push(b: Stream, data: seq<byte>): Stream {
    b + data[..Min(|data|, if Space(b) < 0 then 0 else Space(b))]
  }

  function TakeFrame(c: System, frame: Frame): Branch {
    var n := Min(FRAME, c.s.totalRecvLen);
    var rx := Push(c.s.rxBuf, frame[..n]);
    var roomy := Space(rx) >= FRAME;
    (c.(s := c.s.(rxBuf := rx, totalRecvLen := c.s.totalRecvLen - n,
                  waitRecv := c.s.waitRecv || !roomy)), roomy)
  }

  function TakeLength(c: System, len: nat): Branch {
    var n := |c.s.txBuf|;
    (c.(s := c.s.(totalRecvLen := len,
                  status := if len == 0 && n > 0 && !c.s.sending then n else c.s.status)),
     len > 0 || n > 0)
  }

  // ---------- the four tasks, one function for each atomic step ----------

  /** spi_master_write_slave_task: xStreamBufferSend, then its critical section. */
  function MasterPut(c: System, data: Stream): System {
    c.(m := c.m.(sendBuf := c.m.sendBuf + data))
  }

  function MasterKick(c: System): System {
    c.(m := c.m.(irq := c.m.irq || c.m.mode == Null))
  }

  /** spi_master_read_slave_task: xStreamBufferReceive, then its wake check. */
  function MasterTake(c: System): System {
    c.(m := c.m.(recvBuf := c.m.recvBuf[Min(READ_CHUNK, |c.m.recvBuf|)..]))
  }

  function MasterWake(c: System): System {
    if c.m.waitRecv && |c.m.recvBuf| > FRAME then c.(m := c.m.(waitRecv := false, irq := true)) else c
  }

  /** spi_slave_read_master_task: xStreamBufferReceive, then its wake check. */
  function SlaveTake(c: System): System {
    c.(s := c.s.(rxBuf := c.s.rxBuf[Min(READ_CHUNK, |c.s.rxBuf|)..]))
  }

  /** Raising the line and clearing the flag in one step; SpiWake.dfy takes them apart. */
  function SlaveWake(c: System): System {
    if c.s.waitRecv && |c.s.rxBuf| > FRAME then
      var d := Raise(c);
      d.(s := d.s.(waitRecv := false))
    else c
  }

  /** spi_slave_write_master_task: xStreamBufferSend, then its critical section. */
  function SlavePut(c: System, data: Stream): System {
    c.(s := c.s.(txBuf := c.s.txBuf + data))
  }

  function SlaveOffer(c: System): System {
    if c.s.sending then c
    else Raise(c.(s := c.s.(totalSendLen := |c.s.txBuf|, status := |c.s.txBuf|, sending := true)))
  }

  // ---------- the same handlers, run in place on the boards' globals ----------

  class Boards {
    // master program
    var sendBuf: Stream
    var recvBuf: Stream
    var intrTransMode: Mode
    var transmitLen: nat
    var masterWait: bool
    var irq: bool
    // slave program
    var txBuf: Stream
    var rxBuf: Stream
    var totalRecvLen: nat
    var totalSendLen: nat
    var sendingFlag: bool
    var slaveWait: bool
    var line: bool
    var status: nat
    var dataReg: Frame
    // the slave's SPI controller
    var event: Event

    ghost function Snapshot(): System
      reads this
    {
      System(Master(sendBuf, recvBuf, intrTransMode, transmitLen, masterWait, irq),
             Slave(txBuf, rxBuf, totalRecvLen, totalSendLen, sendingFlag, slaveWait, line, status, dataReg),
             event)
    }

    constructor ()
      ensures Snapshot() == Init()
    {
      sendBuf, recvBuf, intrTransMode, transmitLen, masterWait, irq := [], [], Null, 0, false, false;
      txBuf, rxBuf, totalRecvLen, totalSendLen := [], [], 0, 0;
      sendingFlag, slaveWait, line, status := false, false, false, 0;
      dataReg := seq(FRAME, _ => 0);
      event := Quiet;
    }

    method SetHandshake(level: bool)
      modifies this`line, this`irq
      ensures Snapshot() == if level then Raise(old(Snapshot()))
                            else old(Snapshot()).(s := old(Snapshot()).s.(line := false))
    {
      if level && !line {
        irq := true;
      }
      line := level;
    }

    /** spi_master_send_length */
    method SendLength(len: nat)
      modifies this`event
      ensures event == WroteStatus(len)
    {
      event := WroteStatus(len);
    }

    /** spi_master_get_length */
    method GetLength() returns (len: nat)
      modifies this`event
      ensures event == ReadStatus && len == status
    {
      len := status;
      event := ReadStatus;
    }

    /** spi_master_transmit(SPI_WRITE, data) */
    method TransmitWrite(data: Frame)
      modifies this`event
      ensures event == WroteData(data)
    {
      event := WroteData(data);
    }

    /** spi_master_transmit(SPI_READ, data) */
    method TransmitRead() returns (data: Frame)
      modifies this`event
      ensures event == ReadData && data == dataReg
    {
      data := dataReg;
      event := ReadData;
    }

    /** gpio_isr_handler; `stack` is whatever the local frame array holds before it is filled. */
    method GpioIsrHandler(stack: Frame)
      modifies this
      ensures Snapshot() == GpioIsr(old(Snapshot()), stack)
    {
      hide IsrIdle, IsrRead, IsrWrite;
      irq := false;
      if intrTransMode == Null {
        OnIdle();
        return;
      }
      var readLen := if transmitLen > FRAME then FRAME else transmitLen;
      if intrTransMode == Read {
        OnRead(readLen);
      } else {
        OnWrite(readLen, stack);
      }
    }

    /** The handler in mode SPI_NULL: is there something to send or to receive? */
    method OnIdle()
      requires intrTransMode == Null
      modifies this`intrTransMode, this`transmitLen, this`event
      ensures Snapshot() == IsrIdle(old(Snapshot()))
    {
      if sendBuf != [] {
        intrTransMode := Write;
        transmitLen := |sendBuf|;
        SendLength(transmitLen);
        return;
      }
      transmitLen := GetLength();
      if transmitLen > 0 {
        intrTransMode := Read;
      }
    }

    /** The handler in mode SPI_READ. */
    method OnRead(readLen: nat)
      requires intrTransMode == Read && readLen == Min(FRAME, transmitLen) && !irq
      modifies this`intrTransMode, this`transmitLen, this`event, this`recvBuf, this`irq, this`masterWait
      ensures Snapshot() == IsrRead(old(Snapshot()))
    {
      if Space(recvBuf) >= FRAME {
        var data := TransmitRead();
        recvBuf := recvBuf + data[..readLen];
        transmitLen := transmitLen - readLen;
        if transmitLen == 0 {
          intrTransMode := Null;
          if sendBuf != [] {
            irq := true;
          }
        }
      } else {
        masterWait := true;
      }
    }

    /** The handler in mode SPI_WRITE. */
    method OnWrite(readLen: nat, stack: Frame)
      requires intrTransMode == Write && readLen == Min(FRAME, transmitLen) && !irq
      modifies this`intrTransMode, this`transmitLen, this`event, this`sendBuf, this`irq
      ensures Snapshot() == IsrWrite(old(Snapshot()), stack)
    {
      if readLen > 0 {
        var actual := Min(readLen, |sendBuf|);
        var data := sendBuf[..actual] + stack[actual..];
        sendBuf := sendBuf[actual..];
        if actual != readLen {
          return;
        }
        TransmitWrite(data);
        transmitLen := transmitLen - readLen;
      } else {
        intrTransMode := Null;
        if sendBuf != [] {
          irq := true;
        } else {
          SendLength(0);
        }
      }
    }

    /** spi_event_callback with SPI_TRANS_DONE_EVENT; each `if` of the C code is a method below. */
    method SpiEventCallback(reg: Frame)
      modifies this
      ensures Snapshot() == SpiEvent(old(Snapshot()), reg)
    {
      var transDone := event;
      var trigger := false;
      event := Quiet;
      SetHandshake(false);
      match transDone {
        case Quiet =>
        case ReadData => trigger := OnReadData(reg);
        case WroteData(frame) => trigger := OnWroteData(frame);
        case WroteStatus(len) => trigger := OnWroteStatus(len);
        case ReadStatus => trigger := Load(reg);
      }
      if trigger {
        SetHandshake(true);
      }
    }

    method OnReadData(reg: Frame) returns (trigger: bool)
      modifies this`txBuf, this`totalSendLen, this`dataReg, this`sendingFlag, this`status
      ensures (Snapshot(), trigger) ==
              if old(totalSendLen) == 0 then Announce(old(Snapshot())) else LoadFrame(old(Snapshot()), reg)
    {
      trigger := false;
      if totalSendLen == 0 {
        sendingFlag := false;
        totalSendLen := |txBuf|;
        if totalSendLen > 0 {
          status := totalSendLen;
          sendingFlag := true;
          trigger := true;
        }
      } else {
        trigger := Load(reg);
      }
    }

    method OnWroteData(frame: Frame) returns (trigger: bool)
      modifies this`rxBuf, this`totalRecvLen, this`slaveWait
      ensures (Snapshot(), trigger) == TakeFrame(old(Snapshot()), frame)
    {
      trigger := false;
      var len := totalRecvLen;
      if len > FRAME {
        len := FRAME;
      }
      assert Push(rxBuf, frame[..0]) == rxBuf;
      if len > 0 {
        rxBuf := Push(rxBuf, frame[..len]);
        totalRecvLen := totalRecvLen - len;
      }
      if Space(rxBuf) >= FRAME {
        trigger := true;
      } else {
        slaveWait := true;
      }
    }

    method OnWroteStatus(len: nat) returns (trigger: bool)
      modifies this`totalRecvLen, this`status
      ensures (Snapshot(), trigger) == TakeLength(old(Snapshot()), len)
    {
      trigger := false;
      totalRecvLen := len;
      var txSize := |txBuf|;
      if totalRecvLen > 0 {
        trigger := true;
      } else if txSize > 0 {
        if !sendingFlag {
          status := txSize;
        }
        trigger := true;
      }
    }

    /** Lines 72-87 and 131-146 of the callback: refill the SPI data register from the tx buffer. */
    method Load(reg: Frame) returns (loaded: bool)
      modifies this`txBuf, this`totalSendLen, this`dataReg
      ensures (Snapshot(), loaded) == LoadFrame(old(Snapshot()), reg)
    {
      var n := Min(FRAME, |txBuf|);
      loaded := n != 0;
      if loaded {
        dataReg := txBuf[..n] + reg[n..];
        txBuf := txBuf[n..];
        totalSendLen := Sub32(totalSendLen, n);
      }
    }

    // the tasks; a blocking send returns once its data fit, so the methods require that they do

    method WriteSlaveTaskSend(data: Stream)
      requires |data| <= Space(sendBuf)
      modifies this`sendBuf
      ensures Snapshot() == MasterPut(old(Snapshot()), data)
    {
      sendBuf := sendBuf + data;
    }

    method WriteSlaveTaskCheck()
      modifies this`irq
      ensures Snapshot() == MasterKick(old(Snapshot()))
    {
      if intrTransMode == Null {
        irq := true;
      }
    }

    method ReadSlaveTaskReceive() returns (data: Stream)
      modifies this`recvBuf
      ensures Snapshot() == MasterTake(old(Snapshot())) && data + recvBuf == old(recvBuf)
    {
      var n := Min(READ_CHUNK, |recvBuf|);
      data, recvBuf := recvBuf[..n], recvBuf[n..];
    }

    method ReadSlaveTaskCheck()
      modifies this`masterWait, this`irq
      ensures Snapshot() == MasterWake(old(Snapshot()))
    {
      if masterWait {
        if |recvBuf| > FRAME {
          masterWait := false;
          irq := true;
        }
      }
    }

    method ReadMasterTaskReceive() returns (data: Stream)
      modifies this`rxBuf
      ensures Snapshot() == SlaveTake(old(Snapshot())) && data + rxBuf == old(rxBuf)
    {
      var n := Min(READ_CHUNK, |rxBuf|);
      data, rxBuf := rxBuf[..n], rxBuf[n..];
    }

    method ReadMasterTaskCheck()
      modifies this`line, this`irq, this`slaveWait
      ensures Snapshot() == SlaveWake(old(Snapshot()))
    {
      if slaveWait {
        if |rxBuf| > FRAME {
          SetHandshake(true);
          slaveWait := false;
        }
      }
    }

    method WriteMasterTaskSend(data: Stream)
      requires |data| <= Space(txBuf)
      modifies this`txBuf
      ensures Snapshot() == SlavePut(old(Snapshot()), data)
    {
      txBuf := txBuf + data;
    }

    method WriteMasterTaskCheck()
      modifies this`totalSendLen, this`status, this`sendingFlag, this`line, this`irq
      ensures Snapshot() == SlaveOffer(old(Snapshot()))
    {
      if !sendingFlag {
        totalSendLen := |txBuf|;
        status := totalSendLen;
        sendingFlag := true;
        SetHandshake(true);
      }
    }
  }
}
