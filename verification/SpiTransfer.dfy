/** The STM32 SPI master: a scatter/gather exchange moved by DMA in maximal segments, against the
    same exchange moved frame by frame (`spi_ll_stm32_optim.c`). */
module SpiTransfer {
  import opened Words

  type Frame = uint16
  type Memory = map<int, Frame>

  /** Value on the line when there is nothing to send. */
  const NOP: Frame := 0

  /** A transmit buffer and a receive buffer, as far as they are not yet used up. Null buffers have a
      length too: they send NOPs and swallow what is received. */
  datatype TxBuf = TxBuf(isNull: bool, frames: seq<Frame>)
  datatype RxBuf = RxBuf(isNull: bool, address: int, len: nat)

  /** The other end: the frame it returns, given all frames sent so far, the current one included. */
  type Slave = seq<Frame> -> Frame

  /** The transfer context: what remains to be sent and received, the receive memory, and the frames
      sent so far. */
  datatype State = State(tx: seq<TxBuf>, rx: seq<RxBuf>, mem: Memory, wire: seq<Frame>)

  // ---------- The cursors of the transfer context ----------

  /** Empty buffers are skipped. */
  function SkipTx(tx: seq<TxBuf>): seq<TxBuf> {
    if tx != [] && tx[0].frames == [] then SkipTx(tx[1..]) else tx
  }

  function SkipRx(rx: seq<RxBuf>): seq<RxBuf> {
    if rx != [] && rx[0].len == 0 then SkipRx(rx[1..]) else rx
  }

  function TxLen(tx: seq<TxBuf>): nat {
    if tx == [] then 0 else |tx[0].frames|
  }

  function RxLen(rx: seq<RxBuf>): nat {
    if rx == [] then 0 else rx[0].len
  }

  predicate Ready(s: State) {
    (s.tx != [] ==> TxLen(s.tx) > 0) && (s.rx != [] ==> RxLen(s.rx) > 0)
  }

  function AdvanceTx(tx: seq<TxBuf>, n: nat): seq<TxBuf>
    requires n <= TxLen(tx) || tx == []
  {
    if tx == [] then []
    else if n < |tx[0].frames| then [TxBuf(tx[0].isNull, tx[0].frames[n..])] + tx[1..]
    else SkipTx(tx[1..])
  }

  function AdvanceRx(rx: seq<RxBuf>, n: nat): seq<RxBuf>
    requires n <= RxLen(rx) || rx == []
  {
    if rx == [] then []
    else if n < rx[0].len then [RxBuf(rx[0].isNull, rx[0].address + n, rx[0].len - n)] + rx[1..]
    else SkipRx(rx[1..])
  }

  predicate TxOff(tx: seq<TxBuf>) {
    tx == [] || tx[0].isNull
  }

  predicate RxOff(rx: seq<RxBuf>) {
    rx == [] || rx[0].isNull
  }

  function TxTotal(tx: seq<TxBuf>): nat {
    if tx == [] then 0 else |tx[0].frames| + TxTotal(tx[1..])
  }

  function RxTotal(rx: seq<RxBuf>): nat {
    if rx == [] then 0 else rx[0].len + RxTotal(rx[1..])
  }

  function Max(a: nat, b: nat): nat {
    if a < b then b else a
  }

  /** Frames still to be exchanged. */
  function Left(tx: seq<TxBuf>, rx: seq<RxBuf>): nat {
    Max(TxTotal(tx), RxTotal(rx))
  }

  lemma {:induction false} SkipTxShape(tx: seq<TxBuf>)
    ensures var r := SkipTx(tx);
            (r != [] ==> TxLen(r) > 0) && TxTotal(r) == TxTotal(tx) && TxFlat(r) == TxFlat(tx)
  {
    if tx != [] && tx[0].frames == [] {
      SkipTxShape(tx[1..]);
    }
  }

  lemma {:induction false} SkipRxShape(rx: seq<RxBuf>)
    ensures var r := SkipRx(rx);
            (r != [] ==> RxLen(r) > 0) && RxTotal(r) == RxTotal(rx) && Targets(r) == Targets(rx)
  {
    if rx != [] && rx[0].len == 0 {
      SkipRxShape(rx[1..]);
      assert Target(rx[0]) == [];
      assert Targets(rx) == [] + Targets(rx[1..]) == Targets(rx[1..]);
    }
  }

  lemma AdvanceShape(s: State, n: nat)
    requires Ready(s) && (n <= TxLen(s.tx) || s.tx == []) && (n <= RxLen(s.rx) || s.rx == [])
    ensures var tx, rx := AdvanceTx(s.tx, n), AdvanceRx(s.rx, n);
            && Ready(State(tx, rx, s.mem, s.wire))
            && TxTotal(tx) == (if s.tx == [] then 0 else TxTotal(s.tx) - n)
            && RxTotal(rx) == (if s.rx == [] then 0 else RxTotal(s.rx) - n)
  {
    if s.tx != [] {
      SkipTxShape(s.tx[1..]);
      assert n < TxLen(s.tx) ==> AdvanceTx(s.tx, n)[1..] == s.tx[1..];
    }
    if s.rx != [] {
      SkipRxShape(s.rx[1..]);
      assert n < RxLen(s.rx) ==> AdvanceRx(s.rx, n)[1..] == s.rx[1..];
    }
  }

  /** Advancing by n and then by one is advancing by n + 1. */
  lemma AdvanceOneMore(s: State, n: nat)
    requires Ready(s) && (n < TxLen(s.tx) || s.tx == []) && (n < RxLen(s.rx) || s.rx == [])
    ensures var tx, rx := AdvanceTx(s.tx, n), AdvanceRx(s.rx, n);
            && (tx == [] || 1 <= TxLen(tx)) && AdvanceTx(tx, 1) == AdvanceTx(s.tx, n + 1)
            && (rx == [] || 1 <= RxLen(rx)) && AdvanceRx(rx, 1) == AdvanceRx(s.rx, n + 1)
            && (s.tx != [] ==> tx[0] == TxBuf(s.tx[0].isNull, s.tx[0].frames[n..]))
            && (s.rx != [] ==> rx[0] == RxBuf(s.rx[0].isNull, s.rx[0].address + n, s.rx[0].len - n))
  {
    if s.tx != [] {
      assert AdvanceTx(s.tx, n)[1..] == s.tx[1..];
      assert s.tx[0].frames[n..][1..] == s.tx[0].frames[n + 1..];
    }
    if s.rx != [] {
      assert AdvanceRx(s.rx, n)[1..] == s.rx[1..];
    }
  }

  // ---------- Frame by frame ----------

  /** One frame of the non-FIFO master loop: send, then receive. */
  function FrameStep(slave: Slave, s: State): State
    requires Ready(s)
  {
    var wire := s.wire + [if TxOff(s.tx) then NOP else s.tx[0].frames[0]];
    State(AdvanceTx(s.tx, 1), AdvanceRx(s.rx, 1),
          if RxOff(s.rx) then s.mem else s.mem[s.rx[0].address := slave(wire)],
          wire)
  }

  function Frames(slave: Slave, s: State, n: nat): (r: State)
    requires Ready(s)
    ensures Ready(r)
  {
    if n == 0 then s
    else
      var before := Frames(slave, s, n - 1);
      AdvanceShape(before, 1);
      FrameStep(slave, before)
  }

  lemma {:induction false} FramesShape(slave: Slave, s: State, n: nat)
    requires Ready(s)
    ensures var r, left := Frames(slave, s, n), Left(s.tx, s.rx);
            && Left(r.tx, r.rx) == (if n < left then left - n else 0)
            && s.wire <= r.wire && |r.wire| == |s.wire| + n
  {
    if n > 0 {
      FramesShape(slave, s, n - 1);
      AdvanceShape(Frames(slave, s, n - 1), 1);
    }
  }

  lemma {:induction false} FramesSplit(slave: Slave, s: State, m: nat, n: nat)
    requires Ready(s)
    ensures Frames(slave, Frames(slave, s, m), n) == Frames(slave, s, m + n)
  {
    hide FrameStep, AdvanceTx, AdvanceRx;
    if n > 0 {
      FramesSplit(slave, s, m, n - 1);
    }
  }

  // ---------- Segments ----------

  /** The length of the next DMA segment. */
  function SegmentLen(tx: seq<TxBuf>, rx: seq<RxBuf>): nat {
    if RxLen(rx) == 0 then TxLen(tx)
    else if TxLen(tx) == 0 then RxLen(rx)
    else if TxLen(tx) < RxLen(rx) then TxLen(tx) else RxLen(rx)
  }

  /** Segments are maximal: one uses up a current buffer, and runs past no end of the other. */
  lemma SegmentMaximal(s: State)
    requires Ready(s)
    ensures var n := SegmentLen(s.tx, s.rx);
            && (s.tx != [] ==> n <= |s.tx[0].frames|) && (s.rx != [] ==> n <= s.rx[0].len)
            && (s.tx != [] || s.rx != [] ==>
                  (s.tx != [] && n == |s.tx[0].frames|) || (s.rx != [] && n == s.rx[0].len))
            && (s.tx == [] && s.rx == [] ==> n == 0)
  {
  }

  /** The line and memory in the course of a segment, and what was received in it. */
  datatype Line = Line(mem: Memory, wire: seq<Frame>, got: seq<Frame>)

  /** The first n frames of a segment. A null transmit buffer is read from the dummy word, which starts
      as NOP; a null receive buffer is written to the same word. The transmit channel runs `lead`
      frames ahead, so frame n sees what had been received up to frame n - 1 - lead. */
  function Moved(lead: nat, slave: Slave, s: State, n: nat): (r: Line)
    requires TxOff(s.tx) || n <= TxLen(s.tx)
    ensures |r.got| == n
  {
    if n == 0 then Line(s.mem, s.wire, [])
    else
      var before, j := Moved(lead, slave, s, n - 1), n - 1;
      var sent := if !TxOff(s.tx) then s.tx[0].frames[j]
                  else if RxOff(s.rx) && j > lead then before.got[j - 1 - lead]
                  else NOP;
      var wire := before.wire + [sent];
      Line(if RxOff(s.rx) then before.mem else before.mem[s.rx[0].address + j := slave(wire)],
           wire, before.got + [slave(wire)])
  }

  lemma MovedNothing(lead: nat, slave: Slave, s: State)
    ensures Moved(lead, slave, s, 0) == Line(s.mem, s.wire, [])
  {
  }

  /** One more frame of a segment. */
  lemma MovedNext(lead: nat, slave: Slave, s: State, n: nat)
    requires TxOff(s.tx) || n < TxLen(s.tx)
    ensures var line, next := Moved(lead, slave, s, n), Moved(lead, slave, s, n + 1);
            var sent := if !TxOff(s.tx) then s.tx[0].frames[n]
                        else if RxOff(s.rx) && n > lead then line.got[n - 1 - lead]
                        else NOP;
            && next.wire == line.wire + [sent] && next.got == line.got + [slave(next.wire)]
            && next.mem == if RxOff(s.rx) then line.mem else line.mem[s.rx[0].address + n := slave(next.wire)]
  {
  }

  function Segment(lead: nat, slave: Slave, s: State): (r: State)
    requires Ready(s)
    ensures Ready(r)
    ensures Left(r.tx, r.rx) == Left(s.tx, s.rx) - SegmentLen(s.tx, s.rx)
    ensures Left(s.tx, s.rx) > 0 ==> SegmentLen(s.tx, s.rx) > 0
  {
    var n := SegmentLen(s.tx, s.rx);
    AdvanceShape(s, n);
    var line := Moved(lead, slave, s, n);
    State(AdvanceTx(s.tx, n), AdvanceRx(s.rx, n), line.mem, line.wire)
  }

  function DmaRun(lead: nat, slave: Slave, s: State): State
    requires Ready(s)
    decreases Left(s.tx, s.rx)
  {
    if Left(s.tx, s.rx) == 0 then s else DmaRun(lead, slave, Segment(lead, slave, s))
  }

  /** After k whole segments. */
  function Segments(lead: nat, slave: Slave, s: State, k: nat): (r: State)
    requires Ready(s)
    ensures Ready(r)
  {
    if k == 0 then s else Segment(lead, slave, Segments(lead, slave, s, k - 1))
  }

  /** A segment that failed after n frames, if it has so many. */
  function Stopped(lead: nat, slave: Slave, s: State, n: nat): State
    requires Ready(s)
  {
    var len := SegmentLen(s.tx, s.rx);
    var line := Moved(lead, slave, s, if n < len then n else len);
    s.(mem := line.mem, wire := line.wire)
  }

  lemma {:induction false} MovedWire(lead: nat, slave: Slave, s: State, m: nat, n: nat)
    requires (TxOff(s.tx) || n <= TxLen(s.tx)) && m <= n
    ensures var a, b := Moved(lead, slave, s, m), Moved(lead, slave, s, n);
            a.wire <= b.wire && |b.wire| == |s.wire| + n && a.got <= b.got
  {
    if m < n {
      MovedWire(lead, slave, s, m, n - 1);
    } else if n > 0 {
      MovedWire(lead, slave, s, n - 1, n - 1);
    }
  }

  lemma {:induction false} DmaRunWire(lead: nat, slave: Slave, s: State)
    requires Ready(s)
    ensures s.wire <= DmaRun(lead, slave, s).wire
    decreases Left(s.tx, s.rx)
  {
    if Left(s.tx, s.rx) > 0 {
      MovedWire(lead, slave, s, 0, SegmentLen(s.tx, s.rx));
      DmaRunWire(lead, slave, Segment(lead, slave, s));
    }
  }

  /** A segment that reads and writes the dummy word for so long that a received frame is sent. */
  predicate Echoes(lead: nat, tx: seq<TxBuf>, rx: seq<RxBuf>) {
    TxOff(tx) && RxOff(rx) && SegmentLen(tx, rx) > lead + 1
  }

  /** No segment of the transfer echoes. A property of the two buffer lists alone. */
  predicate Quiet(lead: nat, s: State)
    requires Ready(s)
    decreases Left(s.tx, s.rx)
  {
    if Left(s.tx, s.rx) == 0 then true
    else
      var n := SegmentLen(s.tx, s.rx);
      AdvanceShape(s, n);
      !Echoes(lead, s.tx, s.rx) && Quiet(lead, State(AdvanceTx(s.tx, n), AdvanceRx(s.rx, n), s.mem, s.wire))
  }

  lemma {:induction false} QuietIgnoresLine(lead: nat, s: State, mem: Memory, wire: seq<Frame>)
    requires Ready(s)
    ensures Quiet(lead, s) == Quiet(lead, State(s.tx, s.rx, mem, wire))
    decreases Left(s.tx, s.rx)
  {
    if Left(s.tx, s.rx) > 0 {
      var n := SegmentLen(s.tx, s.rx);
      AdvanceShape(s, n);
      QuietIgnoresLine(lead, State(AdvanceTx(s.tx, n), AdvanceRx(s.rx, n), s.mem, s.wire), mem, wire);
    }
  }

  /** One frame of a segment that is not an echo is one single frame. */
  lemma MovedStep(lead: nat, slave: Slave, s: State, n: nat)
    requires Ready(s) && n < SegmentLen(s.tx, s.rx)
    requires TxOff(s.tx) && RxOff(s.rx) ==> n <= lead
    ensures var line, after := Moved(lead, slave, s, n), Moved(lead, slave, s, n + 1);
            var r := State(AdvanceTx(s.tx, n), AdvanceRx(s.rx, n), line.mem, line.wire);
            && Ready(r)
            && FrameStep(slave, r) == State(AdvanceTx(s.tx, n + 1), AdvanceRx(s.rx, n + 1), after.mem, after.wire)
  {
    AdvanceShape(s, n);
    AdvanceOneMore(s, n);
  }

  /** Within a segment, n frames by DMA are n single frames, as long as none is an echo. */
  lemma {:induction false} MovedIsFrames(lead: nat, slave: Slave, s: State, n: nat)
    requires Ready(s) && n <= SegmentLen(s.tx, s.rx)
    requires TxOff(s.tx) && RxOff(s.rx) ==> n <= lead + 1
    ensures var line := Moved(lead, slave, s, n);
            Frames(slave, s, n) == State(AdvanceTx(s.tx, n), AdvanceRx(s.rx, n), line.mem, line.wire)
  {
    if n == 0 {
      assert s.tx != [] ==> AdvanceTx(s.tx, 0) == s.tx;
      assert s.rx != [] ==> AdvanceRx(s.rx, 0) == s.rx;
    } else {
      MovedIsFrames(lead, slave, s, n - 1);
      MovedStep(lead, slave, s, n - 1);
    }
  }

  lemma SegmentIsFrames(lead: nat, slave: Slave, s: State)
    requires Ready(s) && !Echoes(lead, s.tx, s.rx)
    ensures Segment(lead, slave, s) == Frames(slave, s, SegmentLen(s.tx, s.rx))
  {
    MovedIsFrames(lead, slave, s, SegmentLen(s.tx, s.rx));
  }

  lemma QuietNext(lead: nat, slave: Slave, s: State)
    requires Ready(s) && Left(s.tx, s.rx) > 0
    ensures Quiet(lead, s) <==> !Echoes(lead, s.tx, s.rx) && Quiet(lead, Segment(lead, slave, s))
  {
    var next := Segment(lead, slave, s);
    AdvanceShape(s, SegmentLen(s.tx, s.rx));
    QuietIgnoresLine(lead, next, s.mem, s.wire);
  }

  lemma DmaRunStep(lead: nat, slave: Slave, s: State)
    requires Ready(s) && Left(s.tx, s.rx) > 0
    ensures var next := Segment(lead, slave, s);
            && DmaRun(lead, slave, s) == DmaRun(lead, slave, next)
            && 0 < SegmentLen(s.tx, s.rx) == Left(s.tx, s.rx) - Left(next.tx, next.rx)
  {
  }

  /** The rest of the frame-by-frame transfer. */
  function Polled(slave: Slave, s: State): State
    requires Ready(s)
  {
    Frames(slave, s, Left(s.tx, s.rx))
  }

  lemma PolledRest(slave: Slave, s: State, n: nat)
    requires Ready(s) && n <= Left(s.tx, s.rx)
    ensures Polled(slave, Frames(slave, s, n)) == Polled(slave, s)
  {
    hide Frames, TxTotal, RxTotal;
    FramesShape(slave, s, n);
    FramesSplit(slave, s, n, Left(s.tx, s.rx) - n);
  }

  /** After a segment that does not echo, both transfers go on from the same state. */
  lemma SameAfterSegment(lead: nat, slave: Slave, s: State)
    requires Ready(s) && Left(s.tx, s.rx) > 0 && !Echoes(lead, s.tx, s.rx)
    ensures DmaRun(lead, slave, s) == DmaRun(lead, slave, Segment(lead, slave, s))
    ensures Polled(slave, s) == Polled(slave, Segment(lead, slave, s))
  {
    DmaRunStep(lead, slave, s);
    SegmentIsFrames(lead, slave, s);
    PolledRest(slave, s, SegmentLen(s.tx, s.rx));
  }

  /** The scatter/gather transfer equals the frame-by-frame transfer of max(tx frames, rx frames)
      frames, on the line and in memory, when no segment echoes... */
  lemma {:induction false} QuietRunIsPolled(lead: nat, slave: Slave, s: State)
    requires Ready(s) && Quiet(lead, s)
    ensures DmaRun(lead, slave, s) == Polled(slave, s)
    decreases Left(s.tx, s.rx)
  {
    if Left(s.tx, s.rx) > 0 {
      QuietNext(lead, slave, s);
      SameAfterSegment(lead, slave, s);
      QuietRunIsPolled(lead, slave, Segment(lead, slave, s));
    }
  }

  /** Frames already sent stay sent. */
  lemma FramesKeep(slave: Slave, s: State, m: nat, n: nat)
    requires Ready(s) && m <= n
    ensures Frames(slave, s, m).wire <= Frames(slave, s, n).wire
  {
    FramesSplit(slave, s, m, n - m);
    FramesShape(slave, Frames(slave, s, m), n - m);
  }

  /** Frame lead + 1 of an echoing segment is the segment's first received frame. */
  lemma EchoFrame(lead: nat, slave: Slave, s: State)
    requires Ready(s) && Echoes(lead, s.tx, s.rx)
    ensures var p := |s.wire| + lead + 1;
            && p < |Segment(lead, slave, s).wire|
            && Segment(lead, slave, s).wire[p] == Moved(lead, slave, s, 1).got[0]
  {
    var n, m := SegmentLen(s.tx, s.rx), lead + 2;
    MovedWire(lead, slave, s, 1, m - 1);
    MovedWire(lead, slave, s, m, m);
    MovedWire(lead, slave, s, m, n);
  }

  lemma NopFrame(slave: Slave, s: State, m: nat, left: nat)
    requires Ready(s) && TxOff(s.tx) && RxOff(s.rx) && 0 < m <= SegmentLen(s.tx, s.rx) && m <= left
    ensures var w := Frames(slave, s, left).wire; |w| >= |s.wire| + m && w[|s.wire| + m - 1] == NOP
  {
    FramesSendNop(slave, s, m);
    FramesKeep(slave, s, m, left);
  }

  function Ones(): Slave {
    (w: seq<Frame>) => 1
  }

  /** Place p carries 1 in one and NOP in the other. */
  predicate Differ(a: seq<Frame>, b: seq<Frame>, p: nat) {
    p < |a| && p < |b| && a[p] == 1 && b[p] == NOP
  }

  lemma OnesGot(lead: nat, s: State)
    requires TxOff(s.tx)
    ensures Moved(lead, Ones(), s, 1).got[0] == 1
  {
    MovedNext(lead, Ones(), s, 0);
  }

  lemma EchoHere(lead: nat, s: State)
    requires Ready(s) && Echoes(lead, s.tx, s.rx)
    ensures Differ(DmaRun(lead, Ones(), s).wire, Polled(Ones(), s).wire, |s.wire| + lead + 1)
  {
    var next := Segment(lead, Ones(), s);
    DmaRunStep(lead, Ones(), s);
    DmaRunWire(lead, Ones(), next);
    EchoFrame(lead, Ones(), s);
    OnesGot(lead, s);
    hide Moved, DmaRun, Segment, Frames;
    NopFrame(Ones(), s, lead + 2, Left(s.tx, s.rx));
  }

  /** ... and sends a frame other than NOP where the frame-by-frame transfer sends NOP, for a slave
      that always answers 1, when some segment does. */
  lemma {:induction false} EchoIsSent(lead: nat, s: State) returns (p: nat)
    requires Ready(s) && !Quiet(lead, s)
    ensures Differ(DmaRun(lead, Ones(), s).wire, Polled(Ones(), s).wire, p)
    decreases Left(s.tx, s.rx)
  {
    if Echoes(lead, s.tx, s.rx) {
      p := |s.wire| + lead + 1;
      EchoHere(lead, s);
    } else {
      QuietNext(lead, Ones(), s);
      SameAfterSegment(lead, Ones(), s);
      p := EchoIsSent(lead, Segment(lead, Ones(), s));
    }
  }

  lemma {:induction false} FramesSendNop(slave: Slave, s: State, n: nat)
    requires Ready(s) && TxOff(s.tx) && 0 < n && (s.tx == [] || n <= TxLen(s.tx)) && (s.rx == [] || n <= RxLen(s.rx))
    ensures |Frames(slave, s, n).wire| == |s.wire| + n && Frames(slave, s, n).wire[|s.wire| + n - 1] == NOP
    ensures Frames(slave, s, n).tx == AdvanceTx(s.tx, n) && Frames(slave, s, n).rx == AdvanceRx(s.rx, n)
  {
    if n == 1 {
      assert Frames(slave, s, 1) == FrameStep(slave, s);
    } else {
      FramesSendNop(slave, s, n - 1);
      AdvanceOneMore(s, n - 1);
    }
  }

  /** The two transfers agree for every slave exactly when no segment echoes. */
  lemma DmaMatchesPolled(lead: nat, s: State)
    requires Ready(s)
    ensures (forall slave: Slave :: DmaRun(lead, slave, s) == Polled(slave, s)) <==> Quiet(lead, s)
  {
    if Quiet(lead, s) {
      forall slave: Slave ensures DmaRun(lead, slave, s) == Polled(slave, s) {
        QuietRunIsPolled(lead, slave, s);
      }
    } else {
      var p := EchoIsSent(lead, s);
      assert DmaRun(lead, Ones(), s) != Polled(Ones(), s);
    }
  }

  /** When one direction has only real buffers and is at least as long as the other, nothing echoes:
      receive here, transmit in RealTransmitIsQuiet. */
  lemma {:induction false} RealReceiveIsQuiet(lead: nat, s: State)
    requires Ready(s) && RxTotal(s.rx) >= TxTotal(s.tx) && forall i | 0 <= i < |s.rx| :: !s.rx[i].isNull
    ensures Quiet(lead, s)
    decreases Left(s.tx, s.rx)
  {
    if Left(s.tx, s.rx) > 0 {
      var n := SegmentLen(s.tx, s.rx);
      AdvanceShape(s, n);
      SkipKeepsReal(s.rx[1..]);
      RealReceiveIsQuiet(lead, State(AdvanceTx(s.tx, n), AdvanceRx(s.rx, n), s.mem, s.wire));
    }
  }

  lemma {:induction false} SkipKeepsReal(rx: seq<RxBuf>)
    requires forall i | 0 <= i < |rx| :: !rx[i].isNull
    ensures forall i | 0 <= i < |SkipRx(rx)| :: !SkipRx(rx)[i].isNull
  {
    if rx != [] && rx[0].len == 0 {
      SkipKeepsReal(rx[1..]);
    }
  }

  lemma {:induction false} RealTransmitIsQuiet(lead: nat, s: State)
    requires Ready(s) && TxTotal(s.tx) >= RxTotal(s.rx) && forall i | 0 <= i < |s.tx| :: !s.tx[i].isNull
    ensures Quiet(lead, s)
    decreases Left(s.tx, s.rx)
  {
    if Left(s.tx, s.rx) > 0 {
      var n := SegmentLen(s.tx, s.rx);
      AdvanceShape(s, n);
      SkipKeepsRealTx(s.tx[1..]);
      RealTransmitIsQuiet(lead, State(AdvanceTx(s.tx, n), AdvanceRx(s.rx, n), s.mem, s.wire));
    }
  }

  lemma {:induction false} SkipKeepsRealTx(tx: seq<TxBuf>)
    requires forall i | 0 <= i < |tx| :: !tx[i].isNull
    ensures forall i | 0 <= i < |SkipTx(tx)| :: !SkipTx(tx)[i].isNull
  {
    if tx != [] && tx[0].frames == [] {
      SkipKeepsRealTx(tx[1..]);
    }
  }

  // ---------- What the frame-by-frame transfer means ----------

  function Nops(n: nat): seq<Frame> {
    seq(n, _ => NOP)
  }

  /** All frames a buffer list puts on the line. */
  function TxFlat(tx: seq<TxBuf>): (r: seq<Frame>)
    ensures |r| == TxTotal(tx)
  {
    if tx == [] then []
    else Outgoing(tx[0]) + TxFlat(tx[1..])
  }

  datatype Cell = Dropped | At(address: int)

  function Target(b: RxBuf): seq<Cell> {
    seq(b.len, k => if b.isNull then Dropped else At(b.address + k))
  }

  /** Where the frames a buffer list receives go, in order. */
  function Targets(rx: seq<RxBuf>): (r: seq<Cell>)
    ensures |r| == RxTotal(rx)
  {
    if rx == [] then [] else Target(rx[0]) + Targets(rx[1..])
  }

  function Drop<T>(s: seq<T>, n: nat): seq<T> {
    if n < |s| then s[n..] else []
  }

  function Outgoing(b: TxBuf): seq<Frame> {
    if b.isNull then Nops(|b.frames|) else b.frames
  }

  lemma FlatHead(b: TxBuf, rest: seq<TxBuf>)
    ensures TxFlat([b] + rest) == Outgoing(b) + TxFlat(rest)
  {
    assert ([b] + rest)[1..] == rest;
  }

  lemma OutgoingTail(b: TxBuf)
    requires b.frames != []
    ensures Outgoing(TxBuf(b.isNull, b.frames[1..])) == Outgoing(b)[1..]
    ensures Outgoing(b)[0] == if b.isNull then NOP else b.frames[0]
  {
  }

  lemma DropHead<T>(a: seq<T>, b: seq<T>)
    requires a != []
    ensures (a + b)[0] == a[0] && Drop(a + b, 1) == a[1..] + b
  {
  }

  lemma AdvanceTxFlat(tx: seq<TxBuf>)
    requires TxLen(tx) > 0
    ensures TxFlat(AdvanceTx(tx, 1)) == Drop(TxFlat(tx), 1)
    ensures TxFlat(tx)[0] == if tx[0].isNull then NOP else tx[0].frames[0]
  {
    var b, rest := tx[0], tx[1..];
    DropHead(Outgoing(b), TxFlat(rest));
    OutgoingTail(b);
    if |b.frames| > 1 {
      FlatHead(TxBuf(b.isNull, b.frames[1..]), rest);
    } else {
      SkipTxShape(rest);
      assert Outgoing(b)[1..] + TxFlat(rest) == TxFlat(rest);
    }
  }

  lemma TargetsHead(b: RxBuf, rest: seq<RxBuf>)
    ensures Targets([b] + rest) == Target(b) + Targets(rest)
  {
    assert ([b] + rest)[1..] == rest;
  }

  lemma TargetTail(b: RxBuf)
    requires b.len > 0
    ensures |Target(b)| == b.len
    ensures Target(RxBuf(b.isNull, b.address + 1, b.len - 1)) == Target(b)[1..]
    ensures Target(b)[0] == if b.isNull then Dropped else At(b.address)
  {
  }

  /** Using up one place of the first buffer. */
  lemma AdvanceRxOne(rx: seq<RxBuf>)
    requires RxLen(rx) > 0
    ensures var b, rest := rx[0], rx[1..];
            AdvanceRx(rx, 1) == if b.len > 1 then [RxBuf(b.isNull, b.address + 1, b.len - 1)] + rest else SkipRx(rest)
  {
    hide SkipRx;
  }

  lemma AdvanceRxFlat(rx: seq<RxBuf>)
    requires RxLen(rx) > 0
    ensures Targets(AdvanceRx(rx, 1)) == Drop(Targets(rx), 1)
    ensures Targets(rx)[0] == if rx[0].isNull then Dropped else At(rx[0].address)
  {
    hide Target, Targets, Drop, AdvanceRx, SkipRx;
    AdvanceRxOne(rx);
    var b, rest := rx[0], rx[1..];
    TargetTail(b);
    assert rx == [b] + rest;
    TargetsHead(b, rest);
    DropHead(Target(b), Targets(rest));
    var dropped := Drop(Targets(rx), 1);
    assert dropped == Target(b)[1..] + Targets(rest);
    if b.len > 1 {
      TargetsHead(RxBuf(b.isNull, b.address + 1, b.len - 1), rest);
    } else {
      SkipRxShape(rest);
      assert dropped == Targets(rest);
    }
  }

  /** The frame in place k of a transmission, padded with NOPs. */
  function Padded(flat: seq<Frame>, k: nat): Frame {
    if k < |flat| then flat[k] else 0
  }

  /** Memory after n received frames: frame k of the exchange answers the first k + 1 frames sent and
      goes to the k-th target. */
  function Stored(slave: Slave, s: State, wire: seq<Frame>, n: nat): Memory
    requires |s.wire| + n <= |wire|
  {
    if n == 0 then s.mem
    else
      var m, targets := Stored(slave, s, wire, n - 1), Targets(s.rx);
      if n - 1 < |targets| && targets[n - 1].At?
      then m[targets[n - 1].address := slave(wire[..|s.wire| + n])]
      else m
  }

  /** The cursors after no frame and after one more frame. */
  lemma FramesCursors(slave: Slave, s: State, n: nat)
    requires Ready(s)
    ensures Frames(slave, s, 0) == s
    ensures var r, next := Frames(slave, s, n), Frames(slave, s, n + 1);
            next.tx == AdvanceTx(r.tx, 1) && next.rx == AdvanceRx(r.rx, 1)
  {
  }

  lemma AdvanceTargets(rx: seq<RxBuf>)
    requires rx != [] ==> RxLen(rx) > 0
    ensures Targets(AdvanceRx(rx, 1)) == Drop(Targets(rx), 1)
  {
    if rx != [] {
      AdvanceRxFlat(rx);
    }
  }

  lemma AdvanceFlat(tx: seq<TxBuf>)
    requires tx != [] ==> TxLen(tx) > 0
    ensures TxFlat(AdvanceTx(tx, 1)) == Drop(TxFlat(tx), 1)
  {
    if tx != [] {
      AdvanceTxFlat(tx);
    }
  }

  lemma {:induction false} FramesTxFlat(slave: Slave, s: State, n: nat)
    requires Ready(s)
    ensures TxFlat(Frames(slave, s, n).tx) == Drop(TxFlat(s.tx), n)
  {
    hide Frames, AdvanceTx, TxFlat;
    FramesCursors(slave, s, if n > 0 then n - 1 else 0);
    if n > 0 {
      FramesTxFlat(slave, s, n - 1);
      AdvanceFlat(Frames(slave, s, n - 1).tx);
      DropMore(TxFlat(s.tx), n - 1);
    }
  }

  lemma {:induction false} FramesRxFlat(slave: Slave, s: State, n: nat)
    requires Ready(s)
    ensures Targets(Frames(slave, s, n).rx) == Drop(Targets(s.rx), n)
  {
    hide Frames, AdvanceRx, Targets;
    FramesCursors(slave, s, if n > 0 then n - 1 else 0);
    if n > 0 {
      FramesRxFlat(slave, s, n - 1);
      AdvanceTargets(Frames(slave, s, n - 1).rx);
      DropMore(Targets(s.rx), n - 1);
    }
  }

  lemma DropMore<T>(s: seq<T>, n: nat)
    ensures Drop(Drop(s, n), 1) == Drop(s, n + 1)
  {
  }

  /** The next frame sent, and the next target, in terms of the flat lists. */
  lemma NextFrame(slave: Slave, s: State, n: nat)
    requires Ready(s)
    ensures var r, targets := Frames(slave, s, n), Targets(s.rx);
            && (if TxOff(r.tx) then NOP else r.tx[0].frames[0]) == Padded(TxFlat(s.tx), n)
            && (!RxOff(r.rx) <==> n < |targets| && targets[n].At?)
            && (!RxOff(r.rx) ==> targets[n].address == r.rx[0].address)
  {
    var r := Frames(slave, s, n);
    FramesTxFlat(slave, s, n);
    FramesRxFlat(slave, s, n);
    if r.tx != [] {
      AdvanceTxFlat(r.tx);
    }
    if r.rx != [] {
      AdvanceRxFlat(r.rx);
    }
  }

  lemma {:induction false} FramesWire(slave: Slave, s: State, n: nat)
    requires Ready(s)
    ensures |Frames(slave, s, n).wire| == |s.wire| + n
    ensures forall k | 0 <= k < n :: Frames(slave, s, n).wire[|s.wire| + k] == Padded(TxFlat(s.tx), k)
  {
    hide FrameStep, TxFlat, Padded, AdvanceTx, AdvanceRx;
    if n > 0 {
      FramesWire(slave, s, n - 1);
      FramesNext(slave, s, n - 1);
      ExtendPadded(Frames(slave, s, n - 1).wire, Frames(slave, s, n).wire, TxFlat(s.tx), |s.wire|, n - 1);
    }
  }

  lemma ExtendPadded(before: seq<Frame>, after: seq<Frame>, flat: seq<Frame>, base: nat, n: nat)
    requires |before| == base + n && after == before + [Padded(flat, n)]
    requires forall k | 0 <= k < n :: before[base + k] == Padded(flat, k)
    ensures |after| == base + n + 1 && forall k | 0 <= k < n + 1 :: after[base + k] == Padded(flat, k)
  {
  }

  /** Frame by frame, the line carries the transmit frames padded with NOPs, and the receive buffers
      are filled in order with the answers. */
  lemma {:induction false} FramesMeaning(slave: Slave, s: State, n: nat)
    requires Ready(s)
    ensures var r := Frames(slave, s, n);
            && |r.wire| == |s.wire| + n
            && (forall k | 0 <= k < n :: r.wire[|s.wire| + k] == Padded(TxFlat(s.tx), k))
            && r.mem == Stored(slave, s, r.wire, n)
  {
    FramesWire(slave, s, n);
    if n > 0 {
      FramesMeaning(slave, s, n - 1);
      FramesNext(slave, s, n - 1);
      MeaningStep(slave, s, Frames(slave, s, n - 1), Frames(slave, s, n), n);
    }
  }

  lemma MeaningStep(slave: Slave, s: State, before: State, after: State, n: nat)
    requires n > 0 && |before.wire| == |s.wire| + n - 1
    requires after.wire == before.wire + [Padded(TxFlat(s.tx), n - 1)]
    requires var targets := Targets(s.rx);
             after.mem == if n - 1 < |targets| && targets[n - 1].At?
                          then before.mem[targets[n - 1].address := slave(after.wire)] else before.mem
    requires before.mem == Stored(slave, s, before.wire, n - 1)
    ensures after.mem == Stored(slave, s, after.wire, n)
  {
    StoredIgnoresLater(slave, s, before.wire, after.wire, n - 1);
    assert after.wire[..|s.wire| + n] == after.wire;
  }

  lemma FramesNext(slave: Slave, s: State, n: nat)
    requires Ready(s)
    ensures var before, after, targets := Frames(slave, s, n), Frames(slave, s, n + 1), Targets(s.rx);
            && after.wire == before.wire + [Padded(TxFlat(s.tx), n)]
            && after.mem == if n < |targets| && targets[n].At?
                            then before.mem[targets[n].address := slave(after.wire)] else before.mem
  {
    NextFrame(slave, s, n);
    assert Frames(slave, s, n + 1) == FrameStep(slave, Frames(slave, s, n));
  }

  lemma {:induction false} StoredIgnoresLater(slave: Slave, s: State, a: seq<Frame>, b: seq<Frame>, n: nat)
    requires |s.wire| + n <= |a| <= |b| && b[..|a|] == a
    ensures Stored(slave, s, a, n) == Stored(slave, s, b, n)
  {
    if n > 0 {
      StoredIgnoresLater(slave, s, a, b, n - 1);
      assert b[..|s.wire| + n] == a[..|s.wire| + n];
    }
  }

  // ---------- The driver ----------

  class Context {
    const slave: Slave
    var tx: seq<TxBuf>
    var rx: seq<RxBuf>
    var mem: Memory
    var wire: seq<Frame>
    /** The word behind null buffers. */
    var dummy: Frame

    ghost function View(): State
      reads this
    {
      State(tx, rx, mem, wire)
    }

    /** Buffer set-up: the cursors start at the first non-empty buffers. */
    constructor (slave: Slave, tx: seq<TxBuf>, rx: seq<RxBuf>, mem: Memory)
      ensures this.slave == slave && View() == State(SkipTx(tx), SkipRx(rx), mem, []) && Ready(View())
      ensures Left(View().tx, View().rx) == Left(tx, rx)
    {
      SkipTxShape(tx);
      SkipRxShape(rx);
      this.slave, this.tx, this.rx, this.mem, this.wire := slave, SkipTx(tx), SkipRx(rx), mem, [];
      dummy := NOP;
    }

    method SendNextFrame()
      requires Ready(View())
      modifies `tx, `wire
      ensures wire == old(wire) + [if TxOff(old(tx)) then NOP else old(tx)[0].frames[0]]
      ensures tx == AdvanceTx(old(tx), 1)
    {
      var frame := NOP;
      if tx != [] && !tx[0].isNull {
        frame := tx[0].frames[0];
      }
      wire := wire + [frame];
      tx := AdvanceTx(tx, 1);
    }

    method ReadNextFrame()
      requires rx != [] ==> RxLen(rx) > 0
      modifies `rx, `mem
      ensures mem == if RxOff(old(rx)) then old(mem) else old(mem)[old(rx)[0].address := slave(wire)]
      ensures rx == AdvanceRx(old(rx), 1)
    {
      var frame := slave(wire);
      if rx != [] && !rx[0].isNull {
        mem := mem[rx[0].address := frame];
      }
      rx := AdvanceRx(rx, 1);
    }

    /** The polled loop. It tests for remaining frames only after a frame, so it always exchanges at
        least one. `errors` is the status after each frame. */
    method TransceivePolled(errors: nat -> int) returns (ret: int, ghost frames: nat)
      requires Ready(View())
      modifies this
      ensures View() == Frames(slave, old(View()), frames)
      ensures 1 <= frames <= Max(1, old(Left(tx, rx))) && ret == errors(frames - 1)
      ensures forall i: nat | i < frames - 1 :: errors(i) == 0
      ensures ret == 0 ==> frames == Max(1, old(Left(tx, rx)))
    {
      hide AdvanceTx, AdvanceRx, TxTotal, RxTotal;
      ghost var s0 := View();
      var n := 0;
      ret, frames := 0, 0;
      var ongoing := true;
      while ret == 0 && ongoing
        invariant n >= 0 && Ready(View()) && View() == Frames(slave, s0, n)
        invariant ongoing <==> n == 0 || Left(tx, rx) > 0
        invariant Left(tx, rx) == if n < Left(s0.tx, s0.rx) then Left(s0.tx, s0.rx) - n else 0
        invariant n <= Max(1, Left(s0.tx, s0.rx)) && (n > 0 ==> ret == errors(n - 1))
        invariant (n == 0 ==> ret == 0) && frames == n
        invariant forall i: nat | i < n - 1 :: errors(i) == 0
        decreases Max(1, Left(s0.tx, s0.rx)) - n, ret == 0 && ongoing
      {
        SendNextFrame();
        ReadNextFrame();
        ret := errors(n);
        n := n + 1;
        frames := n;
        assert View() == Frames(slave, s0, n);
        FramesShape(slave, s0, n);
        OngoingMeaning(View());
        ongoing := tx != [] || rx != [];
      }
    }

    /** One DMA segment of n frames: the receive and transmit channels are loaded, which clears the
        dummy word if the transmit buffer is null, and run. `lead` is how far transmission runs ahead. */
    method MoveBuffers(lead: nat, n: nat)
      requires Ready(View()) && n <= SegmentLen(tx, rx)
      modifies `mem, `wire, `dummy
      ensures var line := Moved(lead, slave, old(View()), n); mem == line.mem && wire == line.wire
    {
      hide Moved, AdvanceTx, AdvanceRx;
      ghost var s := View();
      MovedNothing(lead, slave, s);
      var txNull, rxNull := tx == [] || tx[0].isNull, rx == [] || rx[0].isNull;
      if txNull {
        dummy := NOP;
      }
      var got: seq<Frame> := [];
      for j := 0 to n
        invariant View().tx == s.tx && View().rx == s.rx
        invariant Line(mem, wire, got) == Moved(lead, slave, s, j)
        invariant txNull ==> dummy == if rxNull && j > lead then got[j - 1 - lead] else NOP
      {
        MovedNext(lead, slave, s, j);
        wire := wire + [if txNull then dummy else tx[0].frames[j]];
        var frame := slave(wire);
        got := got + [frame];
        if !rxNull {
          mem := mem[rx[0].address + j := frame];
        } else if txNull && j >= lead {
          dummy := got[j - lead];
        }
      }
    }

    /** The segment loop. `errors` is the status of loading and completing each segment, `moved` how many
        frames of a failing segment were exchanged; the cursors stay at the start of that segment. */
    method TransceiveDma(lead: nat, errors: nat -> int, moved: nat -> nat) returns (ret: int, ghost done: nat)
      requires Ready(View())
      modifies this
      ensures forall i: nat | i < done :: errors(i) == 0
      ensures ret == 0 ==> View() == DmaRun(lead, slave, old(View()))
      ensures ret == 0 ==> |wire| == |old(wire)| + old(Left(tx, rx))
      ensures ret != 0 ==>
                var s := Segments(lead, slave, old(View()), done);
                && ret == errors(done)
                && View() == Stopped(lead, slave, s, moved(done))
    {
      hide Moved, DmaRun, Segment;
      ghost var s0 := View();
      var segments := 0;
      ret, done := 0, 0;
      OngoingMeaning(View());
      while RxLen(rx) > 0 || TxLen(tx) > 0
        invariant segments >= 0 && Ready(View()) && ret == 0 && done == segments
        invariant forall i: nat | i < segments :: errors(i) == 0
        invariant Left(tx, rx) > 0 <==> RxLen(rx) > 0 || TxLen(tx) > 0
        invariant View() == Segments(lead, slave, s0, segments)
        invariant DmaRun(lead, slave, View()) == DmaRun(lead, slave, s0)
        invariant |wire| + Left(tx, rx) == |s0.wire| + Left(s0.tx, s0.rx)
        decreases Left(tx, rx)
      {
        ghost var s := View();
        var n := SegmentLen(tx, rx);
        ret := errors(segments);
        if ret != 0 {
          MoveBuffers(lead, if moved(segments) < n then moved(segments) else n);
          break;
        }
        MoveBuffers(lead, n);
        tx := AdvanceTx(tx, n);
        rx := AdvanceRx(rx, n);
        SegmentShape(lead, slave, s);
        DmaRunStep(lead, slave, s);
        OngoingMeaning(View());
        segments := segments + 1;
        done := segments;
      }
      if ret == 0 {
        DmaRunEnds(lead, slave, View());
      }
    }
  }

  lemma SegmentShape(lead: nat, slave: Slave, s: State)
    requires Ready(s)
    ensures var n := SegmentLen(s.tx, s.rx);
            var line := Moved(lead, slave, s, n);
            && Segment(lead, slave, s) == State(AdvanceTx(s.tx, n), AdvanceRx(s.rx, n), line.mem, line.wire)
            && |line.wire| == |s.wire| + n
  {
    MovedWire(lead, slave, s, SegmentLen(s.tx, s.rx), SegmentLen(s.tx, s.rx));
  }

  lemma DmaRunEnds(lead: nat, slave: Slave, s: State)
    requires Ready(s) && Left(s.tx, s.rx) == 0
    ensures DmaRun(lead, slave, s) == s
  {
  }

  lemma OngoingMeaning(s: State)
    requires Ready(s)
    ensures Left(s.tx, s.rx) > 0 <==> s.tx != [] || s.rx != []
    ensures Left(s.tx, s.rx) > 0 <==> RxLen(s.rx) > 0 || TxLen(s.tx) > 0
  {
  }

  // ---------- Counting frames ----------

  const EINVAL := 22
  const EMSGSIZE := 122

  function Sum(lens: seq<nat>): nat {
    if lens == [] then 0 else lens[0] + Sum(lens[1..])
  }

  /** Frames the transfer context takes from buffers of these byte lengths: whole frames of each. */
  function SumFrames(lens: seq<nat>, bytesPerFrame: nat): nat
    requires bytesPerFrame > 0
  {
    if lens == [] then 0 else lens[0] / bytesPerFrame + SumFrames(lens[1..], bytesPerFrame)
  }

  /** What the 32-bit byte counter shows, and the frames it stands for as `int32_t`. */
  function Counted(lens: seq<nat>): word {
    Word(Sum(lens))
  }

  function BufsetFrames(lens: seq<nat>, bytesPerFrame: nat): int
    requires 1 <= bytesPerFrame <= 2
  {
    if Counted(lens) % bytesPerFrame != 0 then -EINVAL else Int32(Counted(lens) / bytesPerFrame)
  }

  method CountBufsetFrames(lens: seq<nat>, bytesPerFrame: nat) returns (frames: int)
    requires 1 <= bytesPerFrame <= 2
    ensures frames == BufsetFrames(lens, bytesPerFrame)
  {
    var numBytes := 0;
    for i := 0 to |lens|
      invariant 0 <= numBytes < M
      invariant Word(numBytes + Sum(lens[i..])) == Counted(lens)
    {
      assert Sum(lens[i..]) == lens[i] + Sum(lens[i + 1..]);
      numBytes := Word(numBytes + lens[i]);
    }
    if numBytes % bytesPerFrame != 0 {
      return -EINVAL;
    }
    return Int32(numBytes / bytesPerFrame);
  }

  /** The count against the transfer of tx and rx: for buffers of whole frames adding up below 2^31 bytes in
      each direction it is exactly the number of frames exchanged, and fails only for more than 65535.
      In general it succeeds iff both byte counters are whole frames and at most 65535 of them. */
  method CountTotalFrames(txLens: seq<nat>, rxLens: seq<nat>, bytesPerFrame: nat,
                          ghost tx: seq<TxBuf>, ghost rx: seq<RxBuf>)
    returns (frames: int)
    requires 1 <= bytesPerFrame <= 2
    requires TxOfLengths(tx, txLens, bytesPerFrame) && RxOfLengths(rx, rxLens, bytesPerFrame)
    ensures frames >= 0 <==> Countable(txLens, bytesPerFrame) && Countable(rxLens, bytesPerFrame)
    ensures frames >= 0 ==> frames * bytesPerFrame == Max(Counted(txLens), Counted(rxLens))
    ensures frames < 0 && Counted(txLens) < W && Counted(rxLens) < W ==>
              frames == if Counted(txLens) % bytesPerFrame == 0 && Counted(rxLens) % bytesPerFrame == 0 then -EMSGSIZE
                        else -EINVAL
    ensures WholeFrames(txLens, bytesPerFrame) && WholeFrames(rxLens, bytesPerFrame)
            && Sum(txLens) < W && Sum(rxLens) < W ==>
              frames == if Left(tx, rx) <= 0xFFFF then Left(tx, rx) else -EMSGSIZE
  {
    hide Counted, BufsetFrames, Countable, WholeFrames, TxOfLengths, RxOfLengths, Sum, TxTotal, RxTotal;
    CountIsTransfer(tx, rx, txLens, rxLens, bytesPerFrame);
    CountedFrames(txLens, bytesPerFrame);
    CountedFrames(rxLens, bytesPerFrame);
    MaxTimes(BufsetFrames(txLens, bytesPerFrame), BufsetFrames(rxLens, bytesPerFrame), bytesPerFrame);
    frames := CountBufsetFrames(txLens, bytesPerFrame);
    if frames < 0 {
      return;
    }
    var rxFrames := CountBufsetFrames(rxLens, bytesPerFrame);
    if rxFrames < 0 {
      return rxFrames;
    }
    if frames > 0xFFFF || rxFrames > 0xFFFF {
      return -EMSGSIZE;
    }
    return if rxFrames > frames then rxFrames else frames;
  }

  lemma MaxTimes(a: int, b: int, k: nat)
    requires 1 <= k <= 2
    ensures a >= 0 && b >= 0 ==> Max(a, b) * k == Max(a * k, b * k)
  {
    if k == 2 {
      assert a * k == a + a && b * k == b + b;
    }
  }

  /** The byte counter shows whole frames, at most 65535. */
  predicate Countable(lens: seq<nat>, bytesPerFrame: nat)
    requires bytesPerFrame > 0
  {
    Counted(lens) % bytesPerFrame == 0 && Counted(lens) / bytesPerFrame <= 0xFFFF
  }

  lemma CountedFrames(lens: seq<nat>, bytesPerFrame: nat)
    requires 1 <= bytesPerFrame <= 2
    ensures var f := BufsetFrames(lens, bytesPerFrame);
            && (0 <= f <= 0xFFFF <==> Countable(lens, bytesPerFrame))
            && (f >= 0 ==> f * bytesPerFrame == Counted(lens))
            && (f < 0 && Counted(lens) < W ==> f == -EINVAL)
            && (f >= 0 ==> Counted(lens) % bytesPerFrame == 0)
            && (Counted(lens) < W && Counted(lens) % bytesPerFrame == 0 ==> f >= 0)
  {
    var n := Counted(lens);
    hide Counted;
    if bytesPerFrame == 2 {
      assert n / bytesPerFrame == n / 2;
    }
  }

  predicate WholeFrames(lens: seq<nat>, bytesPerFrame: nat)
    requires bytesPerFrame > 0
  {
    forall i | 0 <= i < |lens| :: lens[i] % bytesPerFrame == 0
  }

  /** Bytes over frames is the number of frames the context moves exactly when every buffer is whole frames. */
  lemma {:induction false} CountIsMoved(lens: seq<nat>, bytesPerFrame: nat)
    requires 1 <= bytesPerFrame <= 2
    ensures SumFrames(lens, bytesPerFrame) * bytesPerFrame <= Sum(lens)
    ensures SumFrames(lens, bytesPerFrame) * bytesPerFrame == Sum(lens) <==> WholeFrames(lens, bytesPerFrame)
  {
    if lens != [] {
      var tail := lens[1..];
      CountIsMoved(tail, bytesPerFrame);
      assert WholeFrames(lens, bytesPerFrame) <==> lens[0] % bytesPerFrame == 0 && WholeFrames(tail, bytesPerFrame) by {
        assert forall i | 0 <= i < |tail| :: tail[i] == lens[i + 1];
        assert forall i | 0 < i < |lens| :: lens[i] == tail[i - 1];
      }
      if bytesPerFrame == 1 {
        assert SumFrames(lens, 1) * 1 == SumFrames(tail, 1) * 1 + lens[0];
      } else {
        assert SumFrames(lens, 2) * 2 == SumFrames(tail, 2) * 2 + lens[0] / 2 * 2;
      }
    }
  }

  /** The context's view of buffers of these byte lengths. */
  predicate TxOfLengths(tx: seq<TxBuf>, lens: seq<nat>, bytesPerFrame: nat)
    requires bytesPerFrame > 0
  {
    |tx| == |lens| && forall i | 0 <= i < |tx| :: |tx[i].frames| == lens[i] / bytesPerFrame
  }

  predicate RxOfLengths(rx: seq<RxBuf>, lens: seq<nat>, bytesPerFrame: nat)
    requires bytesPerFrame > 0
  {
    |rx| == |lens| && forall i | 0 <= i < |rx| :: rx[i].len == lens[i] / bytesPerFrame
  }

  lemma {:induction false} TxTotalIsSum(tx: seq<TxBuf>, lens: seq<nat>, bytesPerFrame: nat)
    requires bytesPerFrame > 0 && TxOfLengths(tx, lens, bytesPerFrame)
    ensures TxTotal(tx) == SumFrames(lens, bytesPerFrame)
  {
    if tx != [] {
      TxTotalIsSum(tx[1..], lens[1..], bytesPerFrame);
    }
  }

  lemma {:induction false} RxTotalIsSum(rx: seq<RxBuf>, lens: seq<nat>, bytesPerFrame: nat)
    requires bytesPerFrame > 0 && RxOfLengths(rx, lens, bytesPerFrame)
    ensures RxTotal(rx) == SumFrames(lens, bytesPerFrame)
  {
    if rx != [] {
      RxTotalIsSum(rx[1..], lens[1..], bytesPerFrame);
    }
  }

  lemma WholeBufset(lens: seq<nat>, bytesPerFrame: nat)
    requires 1 <= bytesPerFrame <= 2 && WholeFrames(lens, bytesPerFrame) && Sum(lens) < W
    ensures BufsetFrames(lens, bytesPerFrame) == SumFrames(lens, bytesPerFrame)
  {
    hide Sum, SumFrames, WholeFrames;
    CountIsMoved(lens, bytesPerFrame);
    var frames := SumFrames(lens, bytesPerFrame);
    if bytesPerFrame == 1 {
      assert Sum(lens) == frames;
    } else {
      assert Sum(lens) == frames + frames;
      assert Sum(lens) % 2 == 0 && Sum(lens) / 2 == frames;
    }
  }

  /** For buffers of whole frames the two counts are the frames of the two directions of a transfer. */
  lemma CountIsTransfer(tx: seq<TxBuf>, rx: seq<RxBuf>, txLens: seq<nat>, rxLens: seq<nat>, bytesPerFrame: nat)
    requires 1 <= bytesPerFrame <= 2
    requires TxOfLengths(tx, txLens, bytesPerFrame) && RxOfLengths(rx, rxLens, bytesPerFrame)
    ensures WholeFrames(txLens, bytesPerFrame) && Sum(txLens) < W ==> BufsetFrames(txLens, bytesPerFrame) == TxTotal(tx)
    ensures WholeFrames(rxLens, bytesPerFrame) && Sum(rxLens) < W ==> BufsetFrames(rxLens, bytesPerFrame) == RxTotal(rx)
  {
    TxTotalIsSum(tx, txLens, bytesPerFrame);
    RxTotalIsSum(rx, rxLens, bytesPerFrame);
    if WholeFrames(txLens, bytesPerFrame) && Sum(txLens) < W {
      WholeBufset(txLens, bytesPerFrame);
    }
    if WholeFrames(rxLens, bytesPerFrame) && Sum(rxLens) < W {
      WholeBufset(rxLens, bytesPerFrame);
    }
  }
}
