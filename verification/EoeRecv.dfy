/** The blocking receive of a whole Ethernet frame (`ecx_EOErecv`). */
module EoeRecv {
  import opened Mailbox
  import opened Eoe
  import opened EoeChannel

  datatype Progress = Progress(fragno: nat, frameno: nat, offset: nat, buf: seq<byte>)

  /** `size` is the frame size on success. */
  datatype Received = Received(wkc: int, size: int, buf: seq<byte>)

  const NO_FRAMENO := 0xff

  predicate Accepts(p: Progress, m: Mbx, port: nat, buffersize: int) {
    var fragno := FragNoGet(m.frameinfo2);
    && (p.fragno == fragno || fragno == 0)
    && (if p.fragno == 0 then OffsetGet(m.frameinfo2) * 32 <= buffersize && port == PortGet(m.frameinfo1)
        else p.frameno == FrameNoGet(m.frameinfo2) && p.offset == OffsetGet(m.frameinfo2) * 32)
  }

  function Store(p: Progress, m: Letter, buffersize: int): (r: Progress)
    requires buffersize <= |p.buf|
    ensures |r.buf| == |p.buf|
  {
    var p := if p.fragno == 0 then p.(frameno := FrameNoGet(m.frameinfo2)) else p;
    var n := m.length - 4;
    if p.offset + n <= buffersize then
      p.(buf := Splice(p.buf, p.offset, m.data[..n]), offset := p.offset + n, fragno := p.fragno + 1)
    else p
  }

  /** The receive loop over the mailboxes still to come; when none comes the work counter is 0. */
  ghost function Remaining(p: Progress, incoming: seq<Letter>, port: nat, psize: int): Received
    requires psize <= |p.buf|
    decreases |incoming|
  {
    if incoming == [] then Received(0, psize, p.buf)
    else
      var m := incoming[0];
      if m.mbxtype % 16 != MBXT_EOE then Received(-ERR_PACKET_ERROR, psize, p.buf)
      else if !Accepts(p, m, port, psize) then Received(-ERR_EOE_INVALID_RX_DATA, psize, p.buf)
      else
        var q := Store(p, m, psize);
        if LastGet(m.frameinfo1) == 0 then Remaining(q, incoming[1..], port, psize)
        else Received(1, if TimeAppendGet(m.frameinfo1) != 0 then q.offset - 4 else q.offset, q.buf)
  }

  /** Whether a fragment is the one waited for: number 0 is always taken for the beginning, but only an empty receiver
      looks at the size it announces and at the port. */
  ghost predicate Awaited(p: Progress, m: Letter, port: nat, psize: int) {
    var number, block, frame := m.frameinfo2 % 64, m.frameinfo2 / 64 % 64, m.frameinfo2 / 4096 % 16;
    && (number == p.fragno || number == 0)
    && if p.fragno == 0 then 32 * block <= psize && m.frameinfo1 / 16 % 16 == port else p.frameno == frame && p.offset == 32 * block
  }

  lemma AwaitedIff(p: Progress, m: Letter, port: nat, psize: int)
    ensures Accepts(p, m, port, psize) <==> Awaited(p, m, port, psize)
  {
  }

  lemma Stored(p: Progress, m: Letter, psize: int, n: nat, frame: nat)
    requires psize <= |p.buf| && n == m.length - 4 && frame == if p.fragno == 0 then m.frameinfo2 / 4096 % 16 else p.frameno
    ensures Store(p, m, psize) == if p.offset + n > psize then Progress(p.fragno, frame, p.offset, p.buf)
              else Progress(p.fragno + 1, frame, p.offset + n, p.buf[..p.offset] + m.data[..n] + p.buf[p.offset + n..])
  {
  }

  /** What one more message does: one of another protocol or a fragment not waited for ends the call with its own error,
      and nothing is copied; data that would not fit the buffer is dropped; the last fragment ends the call with what is
      there, four bytes less when a time stamp follows. */
  lemma MessageDecides(p: Progress, incoming: seq<Letter>, port: nat, psize: int, m: Letter, n: nat)
    requires psize <= |p.buf| && incoming != [] && m == incoming[0] && n == m.length - 4
    ensures var r, fits, last := Remaining(p, incoming, port, psize), p.offset + n <= psize, m.frameinfo1 / 256 % 2 == 1;
      if m.mbxtype % 16 != 2 then r == Received(-3, psize, p.buf)
      else if !Awaited(p, m, port, psize) then r == Received(-11, psize, p.buf)
      else
        var frame := if p.fragno == 0 then m.frameinfo2 / 4096 % 16 else p.frameno;
        var q := if fits then Progress(p.fragno + 1, frame, p.offset + n, p.buf[..p.offset] + m.data[..n] + p.buf[p.offset + n..])
                 else Progress(p.fragno, frame, p.offset, p.buf);
        r == if !last then Remaining(q, incoming[1..], port, psize)
             else Received(1, if m.frameinfo1 / 512 % 2 == 1 then q.offset - 4 else q.offset, q.buf)
  {
    AwaitedIff(p, m, port, psize);
    Stored(p, m, psize, n, if p.fragno == 0 then m.frameinfo2 / 4096 % 16 else p.frameno);
  }

  method Recv(buf: array<byte>, psize: int, port: nat, incoming: seq<Letter>) returns (wkc: int, size: int)
    requires psize <= buf.Length
    modifies buf
    ensures Received(wkc, size, buf[..]) == Remaining(Progress(0, NO_FRAMENO, 0, old(buf[..])), incoming, port, psize)
  {
    var notLast, next := true, 0;
    var rxfragmentno: nat, rxframeno: nat, rxframeoffset: nat := 0, NO_FRAMENO, 0;
    size := psize;
    wkc := if next < |incoming| then 1 else 0;
    ghost var all := Remaining(Progress(0, NO_FRAMENO, 0, buf[..]), incoming, port, psize);
    assert incoming[0..] == incoming;
    while wkc > 0 && notLast
      invariant 0 <= next <= |incoming| && (notLast ==> (wkc > 0 <==> next < |incoming|) || wkc < 0)
      invariant if notLast && wkc >= 0
                then size == psize && all == Remaining(Progress(rxfragmentno, rxframeno, rxframeoffset, buf[..]), incoming[next..], port, psize)
                else all == Received(wkc, size, buf[..])
      invariant (notLast && wkc == 0 ==> next == |incoming|) && (wkc > 0 ==> wkc == 1)
      decreases if wkc > 0 && notLast then |incoming| - next + 1 else 0
    {
      var m := incoming[next];
      assert incoming[next..][0] == m && incoming[next..][1..] == incoming[next + 1..];
      if m.mbxtype % 16 == MBXT_EOE {
        var ok;
        ok, rxfragmentno, rxframeno, rxframeoffset := Take(buf, psize, port, m, rxfragmentno, rxframeno, rxframeoffset);
        if !ok {
          wkc := -ERR_EOE_INVALID_RX_DATA;
        } else if LastGet(m.frameinfo1) != 0 {
          size := if TimeAppendGet(m.frameinfo1) != 0 then rxframeoffset - 4 else rxframeoffset;
          notLast := false;
        } else {
          next := next + 1;
          wkc := if next < |incoming| then 1 else 0;
        }
      } else {
        wkc := -ERR_PACKET_ERROR;
      }
    }
  }

  /** Check one fragment and copy its data. */
  method Take(buf: array<byte>, psize: int, port: nat, m: Letter, rxfragmentno: nat, rxframeno: nat, rxframeoffset: nat)
    returns (ok: bool, fragmentno: nat, frameno: nat, frameoffset: nat)
    requires psize <= buf.Length
    modifies buf
    ensures var p := Progress(rxfragmentno, rxframeno, rxframeoffset, old(buf[..]));
            && ok == Accepts(p, m, port, psize)
            && (if ok then Progress(fragmentno, frameno, frameoffset, buf[..]) == Store(p, m, psize) else buf[..] == old(buf[..]))
  {
    ok, fragmentno, frameno, frameoffset := false, rxfragmentno, rxframeno, rxframeoffset;
    var eoedatasize := m.length - 4;
    if rxfragmentno != FragNoGet(m.frameinfo2) {
      if FragNoGet(m.frameinfo2) > 0 {
        return;
      }
    }
    if rxfragmentno == 0 {
      frameno := FrameNoGet(m.frameinfo2);
      if OffsetGet(m.frameinfo2) * 32 > psize || port != PortGet(m.frameinfo1) {
        return;
      }
    } else if rxframeno != FrameNoGet(m.frameinfo2) || rxframeoffset != OffsetGet(m.frameinfo2) * 32 {
      return;
    }
    if rxframeoffset + eoedatasize <= psize {
      Copy(buf, rxframeoffset, m.data[..eoedatasize]);
      frameoffset := rxframeoffset + eoedatasize;
      fragmentno := rxfragmentno + 1;
    }
    ok := true;
  }

  /** The first `k` fragments, `off` bytes, are in the buffer. */
  ghost predicate Filled(p: Progress, s: Sending, k: nat, off: nat) {
    && p.fragno == k && p.offset == off && (k > 0 ==> p.frameno == s.frameno % 16)
    && off <= |p.buf| && off <= |s.frame| && p.buf[..off] == s.frame[..off]
  }

  lemma StoreNext(p: Progress, s: Sending, k: nat, off: nat, size: nat, last: bool, cnt: nat, port: nat, psize: nat)
    requires 32 * Blocks(|s.frame|) <= psize <= |p.buf| && s.port == port < 16
    requires Cutting(s, k, off) && off + size <= |s.frame| && size <= s.maxdata && Filled(p, s, k, off)
    ensures var m := Fragment(s, k, off, size, last, cnt);
            Accepts(p, m, port, psize) && Filled(Store(p, m, psize), s, k + 1, off + size)
  {
    FragmentFields(s, k, off, size, last, cnt);
    PortField(s, k, off, size, last, cnt);
    var m := Fragment(s, k, off, size, last, cnt);
    var q := Store(p, m, psize);
    assert m.data[..size] == s.frame[off..off + size];
    assert s.frame[..off] + s.frame[off..off + size] == s.frame[..off + size];
    assert q.buf[..off + size] == q.buf[..off] + q.buf[off..off + size];
  }

  lemma PortField(s: Sending, k: nat, off: nat, size: nat, last: bool, cnt: nat)
    requires off + size <= |s.frame| && size <= s.maxdata < 65526
    ensures PortGet(Fragment(s, k, off, size, last, cnt).frameinfo1) == s.port % 16
  {
    Word1Fields(s.port, if last then 1 else 0);
    assert LastSet(0) == 0;
  }

  /** The receive call reports exactly the frame. */
  ghost predicate Complete(r: Received, s: Sending) {
    r.wkc == 1 && r.size == |s.frame| && |s.frame| <= |r.buf| && r.buf[..|s.frame|] == s.frame
  }

  /** The call has stored the frame up to `off`, and all of it has room in the buffer. */
  ghost predicate Underway(p: Progress, s: Sending, k: nat, off: nat, port: nat, psize: nat) {
    32 * Blocks(|s.frame|) <= psize <= |p.buf| && s.port == port < 16 && Cutting(s, k, off) && Filled(p, s, k, off)
  }

  lemma {:induction false} FragmentsReceived(p: Progress, s: Sending, k: nat, off: nat, cnt: nat, port: nat, psize: nat, r: Received)
    requires Underway(p, s, k, off, port, psize) && r == Remaining(p, Fragments(s, k, off, cnt), port, psize)
    ensures Complete(r, s)
    decreases |s.frame| - off
  {
    var q := HeadReceived(p, s, k, off, cnt, port, psize, r);
    if |s.frame| - off > s.maxdata {
      FragmentsReceived(q, s, k + 1, off + s.Chunk(), NextMbxCnt(cnt), port, psize, r);
    }
  }

  /** The first of the remaining fragments is stored, and ends the call or leaves the others. */
  lemma HeadReceived(p: Progress, s: Sending, k: nat, off: nat, cnt: nat, port: nat, psize: nat, r: Received)
    returns (q: Progress)
    requires Underway(p, s, k, off, port, psize) && r == Remaining(p, Fragments(s, k, off, cnt), port, psize)
    ensures if |s.frame| - off <= s.maxdata then Complete(r, s)
            else s.Chunk() > 0 && Underway(q, s, k + 1, off + s.Chunk(), port, psize)
                 && r == Remaining(q, Fragments(s, k + 1, off + s.Chunk(), NextMbxCnt(cnt)), port, psize)
  {
    q := Store(p, Fragments(s, k, off, cnt)[0], psize);
    if |s.frame| - off <= s.maxdata {
      LastReceived(p, s, k, off, cnt, port, psize, r);
    } else {
      FragmentsHead(s, k, off, cnt);
      OneReceived(p, s, k, off, cnt, port, psize);
      RemainingHead(p, Fragments(s, k, off, cnt), port, psize);
    }
  }

  /** The last one ends the call. */
  lemma LastReceived(p: Progress, s: Sending, k: nat, off: nat, cnt: nat, port: nat, psize: nat, r: Received)
    requires Underway(p, s, k, off, port, psize) && r == Remaining(p, Fragments(s, k, off, cnt), port, psize)
    requires |s.frame| - off <= s.maxdata
    ensures Complete(r, s)
  {
    FragmentsHead(s, k, off, cnt);
    OneReceived(p, s, k, off, cnt, port, psize);
    RemainingHead(p, Fragments(s, k, off, cnt), port, psize);
    assert s.frame[..|s.frame|] == s.frame;
  }

  lemma OneReceived(p: Progress, s: Sending, k: nat, off: nat, cnt: nat, port: nat, psize: nat)
    requires 32 * Blocks(|s.frame|) <= psize <= |p.buf| && s.port == port < 16
    requires Cutting(s, k, off) && Filled(p, s, k, off)
    ensures var m := Fragments(s, k, off, cnt)[0];
            var last := |s.frame| - off <= s.maxdata;
            && m.mbxtype % 16 == MBXT_EOE && Accepts(p, m, port, psize) && TimeAppendGet(m.frameinfo1) == 0
            && (LastGet(m.frameinfo1) == if last then 1 else 0)
            && Filled(Store(p, m, psize), s, k + 1, if last then |s.frame| else off + s.Chunk())
  {
    FragmentsHead(s, k, off, cnt);
    var last := |s.frame| - off <= s.maxdata;
    var size := if last then |s.frame| - off else s.Chunk();
    FragmentFields(s, k, off, size, last, NextMbxCnt(cnt));
    StoreNext(p, s, k, off, size, last, NextMbxCnt(cnt), port, psize);
  }

  lemma RemainingHead(p: Progress, incoming: seq<Letter>, port: nat, psize: int)
    requires psize <= |p.buf| && incoming != []
    requires incoming[0].mbxtype % 16 == MBXT_EOE && Accepts(p, incoming[0], port, psize) && TimeAppendGet(incoming[0].frameinfo1) == 0
    ensures var q := Store(p, incoming[0], psize);
            Remaining(p, incoming, port, psize) ==
              if LastGet(incoming[0].frameinfo1) == 0 then Remaining(q, incoming[1..], port, psize) else Received(1, q.offset, q.buf)
  {
  }

  lemma OutOfTurn(p: Progress, incoming: seq<Letter>, port: nat, psize: int)
    requires psize <= |p.buf| && incoming != [] && incoming[0].mbxtype % 16 == MBXT_EOE
    requires FragNoGet(incoming[0].frameinfo2) != p.fragno && FragNoGet(incoming[0].frameinfo2) != 0
    ensures Remaining(p, incoming, port, psize) == Received(-ERR_EOE_INVALID_RX_DATA, psize, p.buf)
  {
  }

  /** One fragment of several, received when it comes first. */
  lemma OneOfSeveral(p: Progress, s: Sending, k: nat, off: nat, cnt: nat, f: seq<Letter>, left: seq<Letter>, port: nat, psize: nat)
    returns (q: Progress, next: nat)
    requires Underway(p, s, k, off, port, psize) && f == Fragments(s, k, off, cnt) && |f| > 1
    requires left != [] && left[0] == f[0]
    ensures
      && |q.buf| == |p.buf| && Remaining(p, left, port, psize) == Remaining(q, left[1..], port, psize)
      && Underway(q, s, k + 1, next, port, psize)
      && f[1..] == Fragments(s, k + 1, next, NextMbxCnt(cnt))
  {
    FragmentsHead(s, k, off, cnt);
    OneReceived(p, s, k, off, cnt, port, psize);
    RemainingHead(p, left, port, psize);
    q, next := Store(p, f[0], psize), off + s.Chunk();
  }

  lemma FirstIsLost(p: Progress, s: Sending, k: nat, off: nat, cnt: nat, f: seq<Letter>, port: nat, psize: nat)
    requires Underway(p, s, k, off, port, psize) && f == Fragments(s, k, off, cnt) && |f| >= 1
    ensures Remaining(p, f[1..], port, psize).wkc == if |f| == 1 then 0 else -11
  {
    FragmentsHead(s, k, off, cnt);
    if |f| > 1 {
      HeadNumber(s, k + 1, off + s.Chunk(), NextMbxCnt(cnt), f[1]);
      OutOfTurn(p, f[1..], port, psize);
    }
  }

  lemma WithoutOne(f: seq<Letter>, i: nat, left: seq<Letter>)
    requires i < |f| && left == f[..i] + f[i + 1..]
    ensures if i == 0 then left == f[1..] else left != [] && left[0] == f[0] && left[1..] == f[1..][..i - 1] + f[1..][i..]
  {
  }

  /** A frame of which one fragment is lost, and nothing else, is not received: the fragment behind the lost one is
      refused, or nothing comes any more. */
  lemma {:induction false} LossEndsTheCall(p: Progress, s: Sending, k: nat, off: nat, cnt: nat, f: seq<Letter>, i: nat,
                                          left: seq<Letter>, port: nat, psize: nat)
    requires Underway(p, s, k, off, port, psize) && f == Fragments(s, k, off, cnt) && i < |f| && left == f[..i] + f[i + 1..]
    ensures Remaining(p, left, port, psize).wkc == if i == |f| - 1 then 0 else -11
    decreases i
  {
    WithoutOne(f, i, left);
    if i == 0 {
      FirstIsLost(p, s, k, off, cnt, f, port, psize);
    } else {
      var q, next := OneOfSeveral(p, s, k, off, cnt, f, left, port, psize);
      LossEndsTheCall(q, s, k + 1, next, NextMbxCnt(cnt), f[1..], i - 1, left[1..], port, psize);
    }
  }

  /** A frame sent to this port arrives exactly if and only if its size, rounded up to 32-byte
      blocks, fits the buffer; otherwise the first fragment is refused. */
  lemma ReceivedIffItFits(buf: seq<byte>, s: Sending, cnt: nat, port: nat, psize: nat)
    requires psize <= |buf| && s.Addressable() && s.port == port < 16
    ensures var r := Remaining(Progress(0, NO_FRAMENO, 0, buf), Fragments(s, 0, 0, cnt), port, psize);
            if (|s.frame| + 31) / 32 * 32 <= psize
            then r.wkc == 1 && r.size == |s.frame| <= |r.buf| && r.buf[..|s.frame|] == s.frame
            else r.wkc == -11 && r.buf == buf
  {
    if 32 * Blocks(|s.frame|) <= psize {
      var p := Progress(0, NO_FRAMENO, 0, buf);
      FragmentsReceived(p, s, 0, 0, cnt, port, psize, Remaining(p, Fragments(s, 0, 0, cnt), port, psize));
    } else {
      FragmentsHead(s, 0, 0, cnt);
      var last := |s.frame| <= s.maxdata;
      FragmentFields(s, 0, 0, if last then |s.frame| else s.Chunk(), last, NextMbxCnt(cnt));
    }
  }
}
