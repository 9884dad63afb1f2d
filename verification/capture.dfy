/** The capture side of kws.cpp: one arena of BUFFER_NUMBER slots of
    BUFFER_SIZE bytes, the receive and transmit callbacks the SAI driver
    invokes when a transfer completes, and the slot indices they keep
    (indexRx, indexTx, indexStart, dataReady). Each callback is one atomic
    step; whether the driver accepts a new receive is an input. */
module Capture {
  import opened Memory

  const BufferSize := 1024
  const AudioNum := 16 * 2
  const BufferNumber := 2 * AudioNum
  const BufferTotalSize := BufferSize * BufferNumber

  /** The status a callback receives. Only the error codes are checked by
      the callbacks; every other status takes the same path. */
  datatype Status = RxError | TxError | Idle

  /** A `sai_transfer_t`: `{0}` (null data, size 0), or `dataSize` bytes
      at `audioBuff + offset`. */
  datatype Transfer = Unset | Transfer(offset: int, dataSize: int)

  /** The file-scope state the callbacks share; the indices are `uint8_t`. */
  datatype State = State(
    indexRx: Byte,
    indexTx: Byte,
    indexStart: Byte,
    dataReady: bool,
    xferRx: Transfer,
    xferTx: Transfer)

  /** The state at program start: the static initialisers. */
  const Init := State(0, 0, 0, false, Unset, Unset)

  /** Slot i of the arena. */
  function SlotTransfer(i: Byte): (t: Transfer)
    ensures t.Transfer? && t.dataSize == BufferSize
    ensures i < BufferNumber ==> InArena(t)
  {
    Transfer(i * BufferSize, BufferSize)
  }

  /** A transfer addresses bytes of the arena only. */
  predicate InArena(t: Transfer) {
    t.Unset? || (0 <= t.offset && 0 <= t.dataSize && t.offset + t.dataSize <= BufferTotalSize)
  }

  /** `x++` on a `uint8_t`. */
  function Inc8(x: Byte): (r: Byte)
    ensures r == (x + 1) % 256
  {
    if x == 255 then 0 else x + 1
  }

  /** `(uint8_t)(x - AUDIO_NUM)`: unsigned subtraction, then truncation to 8 bits. */
  function BlockStart(x: Byte): (r: Byte)
    ensures r == (x - AudioNum) % 256
  {
    if x >= AudioNum then x - AudioNum else x - AudioNum + 256
  }

  /** rx_callback as written. On an error nothing changes. Otherwise the
      next receive is set up on slot indexRx; if the driver accepts it, that
      slot becomes indexTx and indexRx moves on (8-bit increment). Then,
      whether or not the arm was accepted, an indexRx at a multiple of
      AUDIO_NUM marks the half-arena before it ready, and an indexRx of
      BUFFER_NUMBER wraps to 0. */
  function RxCallback(s: State, status: Status, accepted: bool): (r: State)
    ensures status == RxError ==> r == s
    ensures status != RxError ==> r.xferRx == SlotTransfer(s.indexRx)
    ensures r.xferTx == s.xferTx
    ensures s.dataReady ==> r.dataReady
  {
    if status == RxError then s
    else
      var rx: Byte := if accepted then Inc8(s.indexRx) else s.indexRx;
      var tx: Byte := if accepted then s.indexRx else s.indexTx;
      var announce := rx % AudioNum == 0;
      var start: Byte := if announce then BlockStart(rx) else s.indexStart;
      State(if rx == BufferNumber then 0 else rx, tx, start, announce || s.dataReady, SlotTransfer(s.indexRx), s.xferTx)
  }

  /** rx_callback with the ready check moved inside the accepted branch:
      a block is announced only when an accepted arm completes it. */
  function RxCallbackCorrected(s: State, status: Status, accepted: bool): (r: State)
    ensures status == RxError || !accepted ==> r.indexStart == s.indexStart && r.dataReady == s.dataReady
    ensures RxCallback(s, status, accepted).(indexStart := r.indexStart, dataReady := r.dataReady) == r
    ensures status != RxError && accepted ==> r == RxCallback(s, status, accepted)
  {
    if status == RxError then s
    else
      var rx: Byte := if accepted then Inc8(s.indexRx) else s.indexRx;
      var tx: Byte := if accepted then s.indexRx else s.indexTx;
      var announce := accepted && rx % AudioNum == 0;
      var start: Byte := if announce then BlockStart(rx) else s.indexStart;
      State(if rx == BufferNumber then 0 else rx, tx, start, announce || s.dataReady, SlotTransfer(s.indexRx), s.xferTx)
  }

  /** tx_callback: on anything but an error, send slot indexTx. A refused
      send is only logged, so the driver's answer does not matter. */
  function TxCallback(s: State, status: Status): (r: State)
    ensures status == TxError ==> r == s
    ensures status != TxError ==> r == s.(xferTx := SlotTransfer(s.indexTx))
    ensures s.indexTx < BufferNumber && InArena(s.xferTx) ==> InArena(r.xferTx)
  {
    if status == TxError then s else s.(xferTx := SlotTransfer(s.indexTx))
  }

  /** What RecordPlayback leaves behind: the arena zeroed, and one transfer
      of slot 0 handed to both directions. */
  datatype Startup = Startup(arena: seq<Byte>, first: Transfer)

  function RecordPlayback(): (r: Startup)
    ensures |r.arena| == BufferTotalSize
    ensures forall i :: 0 <= i < |r.arena| ==> r.arena[i] == 0
    ensures r.first == SlotTransfer(0) && InArena(r.first)
  {
    Startup(seq(BufferSize * BufferNumber, _ => 0), Transfer(0, BufferSize))
  }

  /** The sizes the arena is built from. */
  lemma ArenaSizes()
    ensures AudioNum == 32 && BufferNumber == 64 && BufferTotalSize == 65536
  {
  }

  /** One driver callback. */
  datatype Event = Rx(status: Status, accepted: bool) | Tx(status: Status)

  /** Which rx_callback runs. */
  datatype Version = AsWritten | Corrected

  function Step(s: State, ev: Event, v: Version): State {
    match ev
    case Rx(status, accepted) =>
      if v == AsWritten then RxCallback(s, status, accepted) else RxCallbackCorrected(s, status, accepted)
    case Tx(status) => TxCallback(s, status)
  }

  /** The state after a sequence of callbacks. */
  function Run(s: State, evs: seq<Event>, v: Version): State
    decreases |evs|
  {
    if |evs| == 0 then s else Step(Run(s, evs[..|evs| - 1], v), evs[|evs| - 1], v)
  }

  /** 1 for a receive arm the driver accepted, 0 for any other callback. */
  function Arm(ev: Event): nat {
    if ev.Rx? && ev.status != RxError && ev.accepted then 1 else 0
  }

  /** Receive arms the driver accepted. */
  function ArmCount(evs: seq<Event>): nat
    decreases |evs|
  {
    if |evs| == 0 then 0 else ArmCount(evs[..|evs| - 1]) + Arm(evs[|evs| - 1])
  }

  /** The indices stay on arena slots and every transfer handed to the
      driver addresses arena bytes. indexStart can be 224 in the code as
      written (see RejectedArmAtZero). */
  predicate Inv(s: State) {
    && s.indexRx < BufferNumber
    && s.indexTx < BufferNumber
    && (s.indexStart == 0 || s.indexStart == AudioNum || s.indexStart == 256 - AudioNum)
    && InArena(s.xferRx)
    && InArena(s.xferTx)
  }

  /** One callback, either version, keeps Inv; an arm that is not accepted
      (or not attempted) leaves indexRx and indexTx alone, and an accepted
      one makes the slot just armed indexTx and moves indexRx to the next
      slot, wrapping at BUFFER_NUMBER. */
  lemma StepKeepsInvariant(s: State, ev: Event, v: Version)
    requires Inv(s)
    ensures Inv(Step(s, ev, v))
    ensures Arm(ev) == 1 ==>
              Step(s, ev, v).indexTx == s.indexRx && Step(s, ev, v).indexRx == (s.indexRx + 1) % BufferNumber
    ensures Arm(ev) == 0 ==>
              Step(s, ev, v).indexTx == s.indexTx && Step(s, ev, v).indexRx == s.indexRx
  {
    match ev
    case Rx(status, accepted) =>
      RxMovesIndices(s, status, accepted);
      if v == AsWritten {
        RxKeepsInvariant(s, status, accepted);
      } else {
        RxCorrectedKeepsInvariant(s, status, accepted);
        assert Step(s, ev, v).(indexStart := s.indexStart, dataReady := s.dataReady)
            == RxCallback(s, status, accepted).(indexStart := s.indexStart, dataReady := s.dataReady);
      }
    case Tx(status) =>
  }

  /** rx_callback as written keeps Inv (indexStart may become 224). */
  lemma RxKeepsInvariant(s: State, status: Status, accepted: bool)
    requires Inv(s)
    ensures Inv(RxCallback(s, status, accepted))
  {
    if status != RxError {
      var rx: Byte := if accepted then s.indexRx + 1 else s.indexRx;
      assert Inc8(s.indexRx) == s.indexRx + 1;
      BlockBoundaries(rx);
    }
  }

  /** Up to BUFFER_NUMBER, the multiples of AUDIO_NUM are 0, AUDIO_NUM and
      BUFFER_NUMBER. */
  lemma BlockBoundaries(x: nat)
    requires x <= BufferNumber
    ensures x % AudioNum == 0 <==> x == 0 || x == AudioNum || x == BufferNumber
  {
    var q, r := x / AudioNum, x % AudioNum;
    assert x == AudioNum * q + r && 0 <= r < AudioNum;
    assert q <= 2;
  }

  /** The corrected rx_callback keeps Inv. */
  lemma RxCorrectedKeepsInvariant(s: State, status: Status, accepted: bool)
    requires Inv(s)
    ensures Inv(RxCallbackCorrected(s, status, accepted))
  {
    if status != RxError && accepted {
      assert Inc8(s.indexRx) == s.indexRx + 1;
      BlockBoundaries(s.indexRx + 1);
    }
  }

  /** rx_callback moves the indices only on an accepted arm: the armed slot
      becomes indexTx and indexRx moves to the next slot. */
  lemma RxMovesIndices(s: State, status: Status, accepted: bool)
    requires Inv(s)
    ensures status != RxError && accepted ==>
              RxCallback(s, status, accepted).indexTx == s.indexRx
              && RxCallback(s, status, accepted).indexRx == (s.indexRx + 1) % BufferNumber
    ensures !(status != RxError && accepted) ==>
              RxCallback(s, status, accepted).indexTx == s.indexTx
              && RxCallback(s, status, accepted).indexRx == s.indexRx
  {
    if status != RxError && accepted {
      assert Inc8(s.indexRx) == s.indexRx + 1;
      assert (s.indexRx + 1) % BufferNumber == if s.indexRx + 1 == BufferNumber then 0 else s.indexRx + 1;
    }
  }

  lemma {:induction false} RunKeepsInvariant(s: State, evs: seq<Event>, v: Version)
    requires Inv(s)
    ensures Inv(Run(s, evs, v))
    decreases |evs|
  {
    if |evs| > 0 {
      RunKeepsInvariant(s, evs[..|evs| - 1], v);
      StepKeepsInvariant(Run(s, evs[..|evs| - 1], v), evs[|evs| - 1], v);
    }
  }

  /** From start-up, indexRx counts accepted arms modulo BUFFER_NUMBER and
      indexTx is the slot of the last accepted arm. */
  lemma {:induction false} RunCountsArms(evs: seq<Event>, v: Version)
    ensures Inv(Run(Init, evs, v))
    ensures Run(Init, evs, v).indexRx == ArmCount(evs) % BufferNumber
    ensures Run(Init, evs, v).indexTx == if ArmCount(evs) == 0 then 0 else (ArmCount(evs) - 1) % BufferNumber
    decreases |evs|
  {
    if |evs| > 0 {
      var prev, ev := evs[..|evs| - 1], evs[|evs| - 1];
      RunCountsArms(prev, v);
      StepKeepsInvariant(Run(Init, prev, v), ev, v);
      if ev.Rx? && ev.status != RxError && ev.accepted {
        assert ArmCount(evs) == ArmCount(prev) + 1;
        ModSucc(ArmCount(prev));
      } else {
        assert ArmCount(evs) == ArmCount(prev);
      }
    }
  }

  /** Counting on by one commutes with reduction modulo BUFFER_NUMBER. */
  lemma ModSucc(c: nat)
    ensures (c + 1) % BufferNumber == (c % BufferNumber + 1) % BufferNumber
  {
    var q, r := c / BufferNumber, c % BufferNumber;
    assert c == BufferNumber * q + r;
    if r < BufferNumber - 1 {
      assert c + 1 == BufferNumber * q + (r + 1);
    } else {
      assert c + 1 == BufferNumber * (q + 1);
    }
  }

  /** An accepted arm that brings indexRx to 32 or 64 announces the half
      it completed: indexStart becomes 0 or 32, dataReady is raised, and
      indexRx continues at 32 or wraps to 0. The slot just armed, which
      becomes indexTx and whose receive is still in flight, is the last
      slot of the announced half. */
  lemma ArmAnnouncesBlock(s: State, status: Status)
    requires Inv(s) && status != RxError
    requires s.indexRx + 1 == AudioNum || s.indexRx + 1 == BufferNumber
    ensures RxCallback(s, status, true).indexStart == s.indexRx + 1 - AudioNum
    ensures RxCallback(s, status, true).dataReady
    ensures RxCallback(s, status, true).indexRx == (s.indexRx + 1) % BufferNumber
    ensures ReadyBlockInArena(RxCallback(s, status, true).indexStart)
    ensures var r := RxCallback(s, status, true);
            && r.indexTx == r.indexStart + AudioNum - 1
            && r.xferRx == SlotTransfer(r.indexTx)
  {
    assert Inc8(s.indexRx) == s.indexRx + 1;
  }

  /** Once raised, dataReady stays raised: nothing in the file clears it. */
  lemma {:induction false} ReadyStaysRaised(s: State, evs: seq<Event>, v: Version)
    requires s.dataReady
    ensures Run(s, evs, v).dataReady
    decreases |evs|
  {
    if |evs| > 0 {
      ReadyStaysRaised(s, evs[..|evs| - 1], v);
    }
  }

  /** The half-arena block [indexStart, indexStart + AUDIO_NUM) of slots. */
  predicate ReadyBlockInArena(start: Byte) {
    start + AudioNum <= BufferNumber
  }

  /** The code as written: a callback that finds indexRx at 0 and whose arm
      the driver refuses still runs the ready check, so indexStart wraps to
      0 - 32 == 224 and dataReady is raised, announcing a block that starts
      past the end of the arena. It can happen on the very first callback. */
  lemma RejectedArmAtZero(s: State, status: Status)
    requires s.indexRx == 0 && status != RxError
    ensures RxCallback(s, status, false).indexStart == 224
    ensures RxCallback(s, status, false).dataReady
    ensures !ReadyBlockInArena(RxCallback(s, status, false).indexStart)
    ensures Run(Init, [Rx(Idle, false)], AsWritten).dataReady && ArmCount([Rx(Idle, false)]) == 0
  {
    assert [Rx(Idle, false)][..0] == [];
  }

  /** The first slot of the half-arena most recently completed, after c
      accepted arms (c >= 32): slots fill in order 0, 1, ..., 63, 0, ... */
  function HalfBefore(c: nat): Byte {
    if c % BufferNumber >= AudioNum then 0 else AudioNum
  }

  /** The announcement state the corrected callback keeps after c accepted arms. */
  predicate Announced(s: State, c: nat) {
    && s.indexRx == c % BufferNumber
    && (s.dataReady <==> c >= AudioNum)
    && (s.dataReady ==> s.indexStart == HalfBefore(c))
  }

  lemma CorrectedStep(s: State, ev: Event, c: nat)
    requires Inv(s) && Announced(s, c)
    ensures Announced(Step(s, ev, Corrected), c + Arm(ev))
  {
    var r := Step(s, ev, Corrected);
    if Arm(ev) == 1 {
      assert r == RxCallbackCorrected(s, ev.status, true);
      CorrectedArm(s, ev.status);
      assert r.indexRx == (c + 1) % BufferNumber by {
        ModSucc(c);
      }
      if s.indexRx != BufferNumber - 1 && s.indexRx != AudioNum - 1 {
        assert c >= AudioNum <==> c + 1 >= AudioNum;
      }
    } else {
      assert r.indexRx == s.indexRx && r.indexStart == s.indexStart && r.dataReady == s.dataReady;
    }
  }

  /** One accepted arm of the corrected callback: indexRx moves on mod
      BUFFER_NUMBER, and only an arm completing a half announces it. */
  lemma CorrectedArm(s: State, status: Status)
    requires Inv(s) && status != RxError
    ensures var r := RxCallbackCorrected(s, status, true);
            && r.indexRx == (s.indexRx + 1) % BufferNumber
            && (s.indexRx == BufferNumber - 1 ==> r.indexStart == AudioNum && r.dataReady)
            && (s.indexRx == AudioNum - 1 ==> r.indexStart == 0 && r.dataReady)
            && (s.indexRx != BufferNumber - 1 && s.indexRx != AudioNum - 1 ==>
                  r.indexStart == s.indexStart && r.dataReady == s.dataReady)
  {
    assert Inc8(s.indexRx) == s.indexRx + 1;
  }

  /** The corrected callback announces a block exactly once 32 arms have
      been accepted. The announced block is then the most recently
      completed half, lies inside the arena, and does not contain indexRx,
      the next slot to be armed. */
  lemma {:induction false} CorrectedReadyBlock(evs: seq<Event>)
    ensures Run(Init, evs, Corrected).dataReady <==> ArmCount(evs) >= AudioNum
    ensures var s := Run(Init, evs, Corrected);
            s.dataReady ==>
              && s.indexStart == HalfBefore(ArmCount(evs))
              && ReadyBlockInArena(s.indexStart)
              && !(s.indexStart <= s.indexRx < s.indexStart + AudioNum)
    decreases |evs|
  {
    AnnouncedRun(evs);
    RunCountsArms(evs, Corrected);
  }

  lemma {:induction false} AnnouncedRun(evs: seq<Event>)
    ensures Announced(Run(Init, evs, Corrected), ArmCount(evs))
    decreases |evs|
  {
    if |evs| > 0 {
      var prev := evs[..|evs| - 1];
      AnnouncedRun(prev);
      RunCountsArms(prev, Corrected);
      CorrectedStep(Run(Init, prev, Corrected), evs[|evs| - 1], ArmCount(prev));
    }
  }
}
