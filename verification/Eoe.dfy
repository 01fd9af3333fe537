/** Ethernet over EtherCAT: a frame is cut into mailbox fragments (`ecx_EOEsend`) and put together
    again fragment by fragment (`ecx_EOEreadfragment`) or in one blocking call (`ecx_EOErecv`). */
module Eoe {
  import opened Mailbox

  // ----- header words; the fields do not overlap, so `|` of fields is their sum -----

  function PortSet(x: nat): nat { x % 16 * 16 }
  function PortGet(w: nat): nat { w / 16 % 16 }
  function LastSet(x: nat): nat { x % 2 * 256 }
  function LastGet(w: nat): nat { w / 256 % 2 }
  function TimeAppendGet(w: nat): nat { w / 512 % 2 }

  function FragNoSet(x: nat): nat { x % 64 }
  function FragNoGet(w: nat): nat { w % 64 }
  function OffsetSet(x: nat): nat { x % 64 * 64 }
  function OffsetGet(w: nat): nat { w / 64 % 64 }
  function FrameNoSet(x: nat): nat { x % 16 * 4096 }
  function FrameNoGet(w: nat): nat { w / 4096 % 16 }

  lemma Word1Fields(port: nat, last: nat)
    ensures var w := LastSet(last) + PortSet(port);
            PortGet(w) == port % 16 && LastGet(w) == last % 2 && TimeAppendGet(w) == 0
  {
  }

  lemma Word2Fields(fragno: nat, offset: nat, frameno: nat)
    ensures var w := FragNoSet(fragno) + OffsetSet(offset) + FrameNoSet(frameno);
            FragNoGet(w) == fragno % 64 && OffsetGet(w) == offset % 64 && FrameNoGet(w) == frameno % 16
  {
    var w := FragNoSet(fragno) + OffsetSet(offset) + FrameNoSet(frameno);
    assert w / 64 == offset % 64 + frameno % 16 * 64;
    assert w / 4096 == frameno % 16;
  }

  datatype Header = Mbx(mbxtype: nat, length: nat, frameinfo1: nat, frameinfo2: nat, data: seq<byte>)

  /** The length field has 16 bits and the data it announces is inside the mailbox. */
  type Mbx = m: Header | m.length < 65536 && m.length <= 4 + |m.data| witness Mbx(0, 0, 0, 0, [])

  /** A mailbox whose length covers the two header words, as every sender fills it. */
  type Letter = m: Mbx | m.length >= 4 witness Mbx(0, 4, 0, 0, [])

  // ----- sender -----

  /** One Ethernet frame on its way: `maxdata` is the (16-bit) mailbox size less 6 and 4 header bytes. */
  datatype Sending = Sending(frame: seq<byte>, port: nat, frameno: nat, maxdata: nat) {
    /** Fragments other than the last are cut at 32-byte blocks. */
    function Chunk(): nat { maxdata / 32 * 32 }

    /** The send loop comes to an end. */
    predicate Sendable() { maxdata < 65526 && (maxdata >= 32 || |frame| <= maxdata) }

    /** The offsets and fragment numbers fit their six bits. */
    predicate Addressable() { 32 <= maxdata < 65526 && |frame| <= 63 * 32 }
  }

  function Blocks(n: nat): nat { (n + 31) / 32 }

  function Fragment(s: Sending, k: nat, off: nat, size: nat, last: bool, cnt: nat): Letter
    requires off + size <= |s.frame| && size <= s.maxdata < 65526
  {
    Mbx(MBXT_EOE + cnt * 16, 4 + size,
        (if last then LastSet(1) else 0) + PortSet(s.port),
        FragNoSet(k) + OffsetSet(if k > 0 then off / 32 else Blocks(|s.frame|)) + FrameNoSet(s.frameno),
        s.frame[off..off + size])
  }

  /** What a fragment says, field by field: the first one announces the frame's size in blocks of 32 bytes, every other
      one the block it starts at. */
  lemma FragmentSays(s: Sending, k: nat, off: nat, size: nat, last: bool, cnt: nat)
    requires off + size <= |s.frame| && size <= s.maxdata < 65526
    ensures var m := Fragment(s, k, off, size, last, cnt);
      && m.mbxtype == 2 + 16 * cnt && m.length == 4 + size && m.data == s.frame[off..off + size]
      && m.frameinfo1 == s.port % 16 * 16 + (if last then 256 else 0)
      && m.frameinfo2 == k % 64 + (if k == 0 then (|s.frame| + 31) / 32 else off / 32) % 64 * 64 + s.frameno % 16 * 4096
  {
  }

  /** All fragments from number `k` on, which starts at byte `off`; `cnt` is the last mailbox count used. */
  ghost function Fragments(s: Sending, k: nat, off: nat, cnt: nat): (f: seq<Letter>)
    requires s.Sendable() && off <= |s.frame|
    ensures |f| > 0
    decreases |s.frame| - off
  {
    var rest := |s.frame| - off;
    if rest <= s.maxdata then [Fragment(s, k, off, rest, true, NextMbxCnt(cnt))]
    else [Fragment(s, k, off, s.Chunk(), false, NextMbxCnt(cnt))] + Fragments(s, k + 1, off + s.Chunk(), NextMbxCnt(cnt))
  }

  /** What follows the fragment that starts at `off` and was sent with mailbox count `cnt`. */
  ghost function After(s: Sending, k: nat, off: nat, cnt: nat): seq<Letter>
    requires s.Sendable() && off <= |s.frame|
  {
    if |s.frame| - off <= s.maxdata then [] else Fragments(s, k + 1, off + s.Chunk(), cnt)
  }

  lemma MoveHead<T>(a: seq<T>, x: T, b: seq<T>)
    ensures a + ([x] + b) == (a + [x]) + b && a <= a + [x] <= (a + [x]) + b
  {
  }

  /** The sending side: mailbox length and counter of a slave, and the frame counter, which is one
      static variable for all slaves. */
  class Sender {
    const mbxl: nat
    var mbxcnt: nat
    var txframeno: nat

    constructor (mbxl: nat)
      ensures this.mbxl == mbxl && txframeno == 0
    {
      this.mbxl := mbxl;
      mbxcnt, txframeno := 0, 0;
    }

    /** Fill the mailbox with the fragment that starts at `txframeoffset`. */
    method Cut(port: nat, p: seq<byte>, txfragmentno: nat, txframeoffset: nat) returns (m: Letter, notLast: bool)
      requires 10 <= mbxl < 65536 && txframeoffset <= |p|
      modifies this
      ensures txframeno == if txfragmentno == 0 then (old(txframeno) + 1) % 256 else old(txframeno)
      ensures mbxcnt == NextMbxCnt(old(mbxcnt))
      ensures var s := Sending(p, port, txframeno, mbxl - 10);
              var rest := |p| - txframeoffset;
              && (notLast <==> rest > s.maxdata)
              && m == Fragment(s, txfragmentno, txframeoffset, if notLast then s.Chunk() else rest, !notLast, mbxcnt)
    {
      var maxdata := mbxl - 10;
      var psize := |p|;
      var txframesize := psize - txframeoffset;
      if txframesize > maxdata {
        txframesize := maxdata / 32 * 32;
      }
      var frameinfo1 := PortSet(port);
      notLast := true;
      if txframesize == psize - txframeoffset {
        frameinfo1 := LastSet(1) + PortSet(port);
        notLast := false;
      }
      var frameinfo2 := FragNoSet(txfragmentno);
      if txfragmentno > 0 {
        frameinfo2 := frameinfo2 + OffsetSet(txframeoffset / 32);
      } else {
        frameinfo2 := frameinfo2 + OffsetSet(Blocks(psize));
        txframeno := (txframeno + 1) % 256;
      }
      frameinfo2 := frameinfo2 + FrameNoSet(txframeno);
      var cnt := NextMbxCnt(mbxcnt);
      mbxcnt := cnt;
      m := Mbx(MBXT_EOE + cnt * 16, 4 + txframesize, frameinfo1, frameinfo2, p[txframeoffset..txframeoffset + txframesize]);
    }

    /** `ecx_EOEsend`; `outcome(i)` is the work counter of the i-th mailbox transfer. */
    method Send(port: nat, p: seq<byte>, outcome: nat -> int) returns (wkc: int, ghost sent: seq<Letter>)
      requires 10 <= mbxl < 65536 && Sending(p, port, 0, mbxl - 10).Sendable()
      modifies this
      ensures txframeno == (old(txframeno) + 1) % 256
      ensures 1 <= |sent| && wkc == outcome(|sent| - 1)
      ensures var all := Fragments(Sending(p, port, txframeno, mbxl - 10), 0, 0, old(mbxcnt));
              sent <= all && (wkc > 0 ==> sent == all)
    {
      ghost var s := Sending(p, port, (txframeno + 1) % 256, mbxl - 10);
      ghost var all := Fragments(s, 0, 0, mbxcnt);
      var m, notLast := Cut(port, p, 0, 0);
      sent := [m];
      wkc := outcome(0);
      var txfragmentno, txframeoffset := 0, 0;
      ghost var todo := After(s, 0, 0, mbxcnt);
      while notLast && wkc > 0
        invariant txframeno == s.frameno && 0 <= txframeoffset <= |p|
        invariant |sent| == txfragmentno + 1 && wkc == outcome(txfragmentno)
        invariant notLast <==> |p| - txframeoffset > s.maxdata
        invariant todo == After(s, txfragmentno, txframeoffset, mbxcnt) && all == sent + todo
        decreases |p| - txframeoffset, notLast
      {
        txframeoffset := txframeoffset + (mbxl - 10) / 32 * 32;
        txfragmentno := txfragmentno + 1;
        m, notLast := Cut(port, p, txfragmentno, txframeoffset);
        ghost var next := After(s, txfragmentno, txframeoffset, mbxcnt);
        MoveHead(sent, m, next);
        assert todo == [m] + next;
        todo := next;
        sent := sent + [m];
        wkc := outcome(txfragmentno);
      }
    }
  }

  // ----- receiver -----

  datatype Rx = Rx(fragno: nat, size: nat, offset: nat, frameno: nat, buf: seq<byte>) {
    function Reset(): Rx { Rx(0, 0, 0, 0, buf) }

    /** The announced frame size comes from a six-bit field. */
    predicate Sane() { size <= 63 * 32 }
  }

  datatype Outcome = Outcome(rx: Rx, wkc: int, psize: int)

  function DataSize(m: Mbx): nat { (m.length + 65536 - 4) % 65536 }

  /** What reading one fragment means for the receiver's state. */
  function Read(rx: Rx, m: Mbx, psize: int): (o: Outcome)
    requires rx.Sane() && psize <= |rx.buf|
    ensures |o.rx.buf| == |rx.buf| && o.rx.Sane()
  {
    if m.mbxtype % 16 != MBXT_EOE then Outcome(rx, -ERR_PACKET_ERROR, psize)
    else
      var fragno := FragNoGet(m.frameinfo2);
      var expected := rx.fragno == fragno;
      var rx := if !expected && rx.fragno != 0 then rx.Reset() else rx;
      if !expected && fragno > 0 then Outcome(rx, -ERR_EOE_INVALID_RX_DATA, psize)
      else if rx.fragno == 0 then
        Accept(rx.(size := OffsetGet(m.frameinfo2) * 32, offset := 0, frameno := FrameNoGet(m.frameinfo2)), m, psize)
      else if rx.frameno != FrameNoGet(m.frameinfo2) || rx.offset != OffsetGet(m.frameinfo2) * 32 then
        Outcome(rx.Reset(), -ERR_EOE_INVALID_RX_DATA, psize)
      else
        Accept(rx, m, psize)
  }

  function Accept(rx: Rx, m: Mbx, psize: int): (o: Outcome)
    requires rx.Sane() && psize <= |rx.buf|
    ensures |o.rx.buf| == |rx.buf| && o.rx.Sane()
  {
    var n := DataSize(m);
    var fits := rx.offset + n <= rx.size && rx.offset + n <= psize;
    var rx := if fits then rx.(buf := Splice(rx.buf, rx.offset, m.data[..n]), offset := rx.offset + n, fragno := rx.fragno + 1) else rx;
    if LastGet(m.frameinfo1) == 0 then Outcome(rx, 0, psize)
    else Outcome(rx.Reset(), 1, if TimeAppendGet(m.frameinfo1) == 1 then (rx.offset + 65536 - 4) % 65536 else rx.offset)
  }

  /** A fragment is refused if and only if the message is not one of EoE, or it claims to continue a frame and its
      number, frame number or offset is not what the receiver waits for.  Nothing is copied then, and a frame begun
      is given up, unless the message is of another protocol. */
  lemma RefusedIff(rx: Rx, m: Mbx, psize: int)
    requires rx.Sane() && psize <= |rx.buf|
    ensures var o, number, block, frame := Read(rx, m, psize), m.frameinfo2 % 64, m.frameinfo2 / 64 % 64, m.frameinfo2 / 4096 % 16;
      && (o.wkc < 0 <==> m.mbxtype % 16 != 2 || (number > 0 && !(rx.fragno == number && rx.offset == 32 * block && rx.frameno == frame)))
      && (o.wkc < 0 ==> o.wkc == (if m.mbxtype % 16 != 2 then -3 else -11) && o.rx.buf == rx.buf && o.psize == psize)
      && (o.wkc < 0 && (m.mbxtype % 16 != 2 || rx.fragno == 0) ==> o.rx == rx)
      && (o.wkc < 0 && m.mbxtype % 16 == 2 && rx.fragno > 0 ==> o.rx == Rx(0, 0, 0, 0, rx.buf))
  {
  }

  /** `o` is what becomes of the fragment `m` with `n` bytes of data when `rx` is held for it: the data is put behind what
      is there if it fits the frame and the buffer, and otherwise dropped, which the answer does not tell; the last
      fragment ends the frame, four bytes shorter when a time stamp follows. */
  ghost predicate Took(o: Outcome, rx: Rx, m: Mbx, psize: int, n: nat)
    requires psize <= |rx.buf|
  {
    var fits, last := rx.offset + n <= rx.size && rx.offset + n <= psize, m.frameinfo1 / 256 % 2 == 1;
    var end := if fits then rx.offset + n else rx.offset;
    && (fits ==> n <= |m.data| && o.rx.buf == rx.buf[..rx.offset] + m.data[..n] + rx.buf[rx.offset + n..])
    && (!fits ==> o.rx.buf == rx.buf)
    && (!last ==> o.wkc == 0 && o.psize == psize && o.rx == Rx(rx.fragno + (if fits then 1 else 0), rx.size, end, rx.frameno, o.rx.buf))
    && (last ==> o.wkc == 1 && o.rx == Rx(0, 0, 0, 0, o.rx.buf)
                 && o.psize == if m.frameinfo1 / 512 % 2 == 1 then (end + 65532) % 65536 else end)
  }

  /** What becomes of a fragment that is not refused: the first one of a frame announces the size, whatever was held
      before, and the others continue at the offset held. */
  lemma TakenUp(rx: Rx, m: Mbx, psize: int, start: nat, size: nat, n: nat)
    requires rx.Sane() && psize <= |rx.buf| && Read(rx, m, psize).wkc >= 0
    requires start == if m.frameinfo2 % 64 == 0 then 0 else rx.offset
    requires size == if m.frameinfo2 % 64 == 0 then 32 * (m.frameinfo2 / 64 % 64) else rx.size
    requires n == (m.length + 65532) % 65536
    ensures Took(Read(rx, m, psize), Rx(m.frameinfo2 % 64, size, start, m.frameinfo2 / 4096 % 16, rx.buf), m, psize, n)
  {
    var held := Rx(m.frameinfo2 % 64, size, start, m.frameinfo2 / 4096 % 16, rx.buf);
    GoesOn(rx, m, psize, held);
    Copied(held, m, psize, n);
  }

  lemma GoesOn(rx: Rx, m: Mbx, psize: int, held: Rx)
    requires rx.Sane() && psize <= |rx.buf| && Read(rx, m, psize).wkc >= 0
    requires var first := m.frameinfo2 % 64 == 0;
      held == Rx(m.frameinfo2 % 64, if first then 32 * (m.frameinfo2 / 64 % 64) else rx.size, if first then 0 else rx.offset,
                 m.frameinfo2 / 4096 % 16, rx.buf)
    ensures held.Sane() && Read(rx, m, psize) == Accept(held, m, psize)
  {
  }

  lemma Copied(rx: Rx, m: Mbx, psize: int, n: nat)
    requires rx.Sane() && psize <= |rx.buf| && n == (m.length + 65532) % 65536
    ensures Took(Accept(rx, m, psize), rx, m, psize, n)
  {
  }

  class Reassembly {
    var rxfragmentno: nat
    var rxframesize: nat
    var rxframeoffset: nat
    var rxframeno: nat
    const buf: array<byte>

    ghost function State(): Rx
      reads this, buf
    {
      Rx(rxfragmentno, rxframesize, rxframeoffset, rxframeno, buf[..])
    }

    constructor (buf: array<byte>)
      ensures this.buf == buf && State() == Rx(0, 0, 0, 0, buf[..])
    {
      this.buf := buf;
      rxfragmentno, rxframesize, rxframeoffset, rxframeno := 0, 0, 0, 0;
    }

    method Reset()
      modifies this
      ensures State() == old(State()).Reset()
    {
      rxfragmentno := 0;
      rxframesize := 0;
      rxframeoffset := 0;
      rxframeno := 0;
    }

    /** `ecx_EOEreadfragment`: 0 = fragment taken, 1 = frame complete, negative = error. */
    method ReadFragment(m: Mbx, psize: int) returns (wkc: int, newsize: int)
      requires State().Sane() && psize <= buf.Length
      modifies this, buf
      ensures Outcome(State(), wkc, newsize) == Read(old(State()), m, psize)
      ensures var number, block, frame := m.frameinfo2 % 64, m.frameinfo2 / 64 % 64, m.frameinfo2 / 4096 % 16;
              var awaited := old(rxfragmentno) == number && old(rxframeoffset) == 32 * block && old(rxframeno) == frame;
              wkc < 0 <==> m.mbxtype % 16 != 2 || (number > 0 && !awaited)
      ensures wkc < 0 ==> buf[..] == old(buf[..]) && newsize == psize
    {
      RefusedIff(State(), m, psize);
      wkc, newsize := 0, psize;
      if m.mbxtype % 16 != MBXT_EOE {
        wkc := -ERR_PACKET_ERROR;
        return;
      }
      if rxfragmentno != FragNoGet(m.frameinfo2) {
        if rxfragmentno != 0 {
          Reset();
        }
        if FragNoGet(m.frameinfo2) > 0 {
          wkc := -ERR_EOE_INVALID_RX_DATA;
          return;
        }
      }
      if rxfragmentno == 0 {
        rxframesize := OffsetGet(m.frameinfo2) * 32;
        rxframeoffset := 0;
        rxframeno := FrameNoGet(m.frameinfo2);
      } else if rxframeno != FrameNoGet(m.frameinfo2) {
        Reset();
        wkc := -ERR_EOE_INVALID_RX_DATA;
        return;
      } else if rxframeoffset != OffsetGet(m.frameinfo2) * 32 {
        Reset();
        wkc := -ERR_EOE_INVALID_RX_DATA;
        return;
      }
      wkc, newsize := Take(m, psize);
    }

    /** The tail of `ReadFragment`: copy the data, finish the frame after its last fragment. */
    method Take(m: Mbx, psize: int) returns (wkc: int, newsize: int)
      requires State().Sane() && psize <= buf.Length
      modifies this, buf
      ensures Outcome(State(), wkc, newsize) == Accept(old(State()), m, psize)
    {
      wkc, newsize := 0, psize;
      var n := DataSize(m);
      if rxframeoffset + n <= rxframesize && rxframeoffset + n <= psize {
        Copy(buf, rxframeoffset, m.data[..n]);
        rxframeoffset := rxframeoffset + n;
        rxfragmentno := rxfragmentno + 1;
      }
      if LastGet(m.frameinfo1) != 0 {
        if TimeAppendGet(m.frameinfo1) != 0 {
          rxframeoffset := (rxframeoffset + 65536 - 4) % 65536;
        }
        newsize := rxframeoffset;
        Reset();
        wkc := 1;
      }
    }
  }
}
