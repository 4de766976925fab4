/**
 * What the two handlers owe each other in any state, streams in both directions included: the master
 * never goes idle on bytes it could send, every call of its handler leads on, and each end of a transfer
 * lets the other side have its turn.
 */
module SpiTurns {
  import opened Bytes
  import opened SpiLink

  /** After its handler the master is due again exactly if it is idle and has bytes to send. */
  lemma DueIffIdleWithBytes(c: System, stack: Frame)
    ensures var d := GpioIsr(c, stack); d.m.irq <==> d.m.mode == Null && d.m.sendBuf != []
  {
  }

  /** The send buffer gives up what the frame carries, or all it has if that is less than was announced. */
  predicate ShortRead(c: System) {
    c.m.mode == Write && |c.m.sendBuf| < Min(FRAME, c.m.transmitLen)
  }

  lemma WriteTakesItsShare(c: System, stack: Frame)
    ensures GpioIsr(c, stack).m.sendBuf
         == if c.m.mode != Write then c.m.sendBuf
            else if ShortRead(c) then []
            else c.m.sendBuf[Min(FRAME, c.m.transmitLen)..]
  {
  }

  /** Every call of the handler starts a transaction, unless it is due again, parks, or reads short. */
  lemma EveryCallLeadsOn(c: System, stack: Frame)
    requires c.event.Quiet?
    ensures var d := GpioIsr(c, stack);
            d.event.Quiet? ==> d.m.irq || (d.m.mode == Read && d.m.waitRecv) || ShortRead(c)
  {
  }

  /** The callback never announces a transfer of nothing. */
  lemma AnnouncesSomethingOrNothingNew(c: System, reg: Frame)
    ensures var d := SpiEvent(c, reg); d.s.status != c.s.status ==> d.s.status > 0
  {
    hide Push;
  }

  /** The master has ended its transfer: bytes that wait on the slave are announced and have their turn. */
  lemma SlavesBytesFollow(c: System, reg: Frame, stack: Frame)
    requires c.event == WroteStatus(0) && c.m.mode == Null && c.m.sendBuf == [] && c.s.txBuf != []
    requires c.s.sending ==> c.s.status > 0
    ensures var d := GpioIsr(SpiEvent(c, reg), stack);
            && SpiEvent(c, reg).m.irq && d.m.mode == Read && d.event == ReadStatus
            && d.m.transmitLen == (if c.s.sending then c.s.status else |c.s.txBuf|)
  {
  }

  /** The same when the slave's own transfer has ended: all that has gathered meanwhile is the next one. */
  lemma GatheredBytesFollow(c: System, reg: Frame, stack: Frame)
    requires c.event == ReadData && c.s.totalSendLen == 0 && c.m.mode == Null && c.m.sendBuf == [] && c.s.txBuf != []
    ensures var d := GpioIsr(SpiEvent(c, reg), stack);
            && SpiEvent(c, reg).m.irq && d.m.mode == Read && d.event == ReadStatus && d.s.sending
            && d.m.transmitLen == d.s.totalSendLen == |c.s.txBuf|
  {
  }

  /** And when the writer offers it. */
  lemma OfferedBytesFollow(c: System, stack: Frame)
    requires c.event.Quiet? && c.m.mode == Null && c.m.sendBuf == [] && c.s.txBuf != [] && !c.s.sending && !c.s.line
    ensures var d := GpioIsr(SlaveOffer(c), stack);
            && SlaveOffer(c).m.irq && d.m.mode == Read && d.event == ReadStatus && d.s.sending
            && d.m.transmitLen == d.s.totalSendLen == |c.s.txBuf|
  {
  }

  /** If none wait the link falls silent, with the line low. */
  lemma OrTheLinkRests(c: System, reg: Frame, stack: Frame)
    requires c.event == WroteStatus(0) && c.m.mode == Null && !c.m.irq && c.s.txBuf == []
    ensures var d := SpiEvent(c, reg); d.event.Quiet? && !d.m.irq && !d.s.line && d.s.status == c.s.status
  {
  }

  /** The master has read its last frame: what it has to send is announced next, and the slave knows its length. */
  lemma MastersBytesFollow(c: System, stack: Frame, reg: Frame)
    requires c.event.Quiet? && c.m.mode == Read && c.m.transmitLen <= FRAME && c.m.sendBuf != []
    requires Space(c.m.recvBuf) >= FRAME && !c.s.sending
    ensures var d := GpioIsr(c, stack);                    // reads the last frame
            var e := SpiEvent(d, reg);                     // the slave hears of it
            var f := GpioIsr(e, stack);                    // announces the master's bytes
            var g := SpiEvent(f, reg);
            && d.event == ReadData && d.m.irq && f.event == WroteStatus(|c.m.sendBuf|)
            && f.m.mode == Write && f.m.transmitLen == g.s.totalRecvLen == |c.m.sendBuf| && g.m.irq
  {
    var d := GpioIsr(c, stack);
    assert d.m.mode == Null && d.m.irq && d.event == ReadData;
    var e := SpiEvent(d, reg);
    assert e.m.mode == Null && e.m.sendBuf == c.m.sendBuf && e.event.Quiet?;
    hide LoadFrame, Announce, TakeFrame;
  }

  /** Both wake checks act on more than 64 bytes, and on no fewer. */
  lemma SixtyFourDoNotWake(c: System)
    ensures MasterWake(c) != c <==> c.m.waitRecv && |c.m.recvBuf| >= 65
    ensures SlaveWake(c) != c <==> c.s.waitRecv && |c.s.rxBuf| >= 65
  {
  }
}
