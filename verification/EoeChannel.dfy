/** What arrives at the receiver of EoE fragments when the channel keeps the order but may lose any
    of them: exactly the frames of which nothing was lost. */
module EoeChannel {
  import opened Mailbox
  import opened Eoe

  ghost predicate AllKept(kept: seq<bool>) { kept == [] || (kept[0] && AllKept(kept[1..])) }
  ghost predicate AnyKept(kept: seq<bool>) { kept != [] && (kept[0] || AnyKept(kept[1..])) }

  /** The channel keeps the order of the fragments `f` but drops those that are not `kept`.  The
      receiver reads what arrives, with a buffer limit of `capacity`, and hands on the frame whenever
      `ReadFragment` reports one complete. */
  ghost function Arrive(rx: Rx, f: seq<Mbx>, kept: seq<bool>, capacity: nat): (r: (Rx, seq<seq<byte>>))
    requires rx.Sane() && capacity <= |rx.buf| && |f| == |kept|
    ensures r.0.Sane() && |r.0.buf| == |rx.buf|
    decreases |f|
  {
    if f == [] then (rx, [])
    else if !kept[0] then Arrive(rx, f[1..], kept[1..], capacity)
    else
      var o := Read(rx, f[0], capacity);
      var rest := Arrive(o.rx, f[1..], kept[1..], capacity);
      (rest.0, (if o.wkc > 0 then [Handed(o)] else []) + rest.1)
  }

  /** The first `psize` bytes of the buffer. */
  ghost function Handed(o: Outcome): seq<byte> {
    if 0 <= o.psize <= |o.rx.buf| then o.rx.buf[..o.psize] else []
  }

  /** The receiver holds the first `k` fragments of the frame, `off` bytes, and nothing else. */
  ghost predicate Holding(rx: Rx, s: Sending, k: nat, off: nat) {
    && rx.fragno == k && rx.offset == off && rx.frameno == s.frameno % 16
    && rx.size == 32 * Blocks(|s.frame|)
    && off <= |rx.buf| && off <= |s.frame| && rx.buf[..off] == s.frame[..off]
  }

  /** Where the last fragment of a frame starts, cutting from `off` on. */
  ghost function LastFrom(s: Sending, off: nat): (last: nat)
    requires s.maxdata >= 32 && off <= |s.frame|
    ensures off <= last <= |s.frame|
    decreases |s.frame| - off
  {
    if |s.frame| - off <= s.maxdata then off else LastFrom(s, off + s.Chunk())
  }

  ghost function LastOffset(s: Sending): nat
    requires s.maxdata >= 32
  {
    LastFrom(s, 0)
  }

  /** A frame of more than one fragment */
  predicate Multi(s: Sending) { |s.frame| > s.maxdata }

  /** The receiver holds the beginning of a frame that is too short for the last fragment of `s`. */
  ghost predicate TooShort(rx: Rx, s: Sending) {
    s.maxdata >= 32 && rx.offset <= rx.size < LastOffset(s)
  }

  /** Ready for the fragment with number `k` of frame `s`.  While nothing was lost (`whole`) the
      receiver holds all before it; otherwise it will not mistake the rest for a continuation. */
  ghost predicate Tracks(rx: Rx, s: Sending, k: nat, off: nat, whole: bool) {
    if whole then k == 0 || Holding(rx, s, k, off)
    else rx.fragno == 0 || rx.frameno != s.frameno % 16 || rx.fragno < k || TooShort(rx, s)
  }

  /** What a receiver in state `rx` may be left with by frame `s`: nothing, the beginning of `s`, or a
      beginning of the length it had announced before. */
  ghost predicate LeftBy(r: Rx, rx: Rx, s: Sending) {
    r.fragno > 0 ==>
      && r.frameno == s.frameno % 16 && r.offset <= r.size
      && ((Multi(s) && r.size == 32 * Blocks(|s.frame|)) || (rx.fragno > 0 && rx.frameno == r.frameno && r.size == rx.size))
  }

  /** Fragment number `k` can start at `off`. */
  ghost predicate Cutting(s: Sending, k: nat, off: nat) {
    && s.Addressable() && off <= |s.frame| && off % 32 == 0 && 32 * k <= off
    && (k == 0 <==> off == 0) && (k > 0 ==> off < |s.frame| && Multi(s))
    && LastFrom(s, off) == LastOffset(s)
  }

  lemma TypeField(cnt: nat)
    ensures (MBXT_EOE + cnt * 16) % 16 == MBXT_EOE
  {
  }

  lemma BlockField(off: nat)
    requires off % 32 == 0 && off <= 63 * 32
    ensures 32 * (off / 32) == off && off / 32 % 64 == off / 32
  {
  }

  lemma ChunkIsBlocks(s: Sending, off: nat)
    requires s.maxdata >= 32 && off % 32 == 0
    ensures 32 <= s.Chunk() <= s.maxdata && (off + s.Chunk()) % 32 == 0
  {
    assert s.Chunk() == 32 * (s.maxdata / 32) && off == 32 * (off / 32);
    assert off + s.Chunk() == 32 * (off / 32 + s.maxdata / 32);
  }

  lemma FirstWord(port: nat, last: bool, w: nat)
    requires w == (if last then LastSet(1) else 0) + PortSet(port)
    ensures (LastGet(w) == 1 <==> last) && TimeAppendGet(w) == 0
  {
    Word1Fields(port, if last then 1 else 0);
    assert LastSet(0) == 0;
  }

  lemma SecondWord(k: nat, block: nat, frameno: nat, w: nat)
    requires k < 64 && block < 64 && w == FragNoSet(k) + OffsetSet(block) + FrameNoSet(frameno)
    ensures FragNoGet(w) == k && OffsetGet(w) == block && FrameNoGet(w) == frameno % 16
  {
    Word2Fields(k, block, frameno);
  }

  lemma FragmentFields(s: Sending, k: nat, off: nat, size: nat, last: bool, cnt: nat)
    requires Cutting(s, k, off) && off + size <= |s.frame| && size <= s.maxdata
    ensures var m := Fragment(s, k, off, size, last, cnt);
            && m.mbxtype % 16 == MBXT_EOE && DataSize(m) == size
            && FragNoGet(m.frameinfo2) == k && FrameNoGet(m.frameinfo2) == s.frameno % 16
            && 32 * OffsetGet(m.frameinfo2) == (if k > 0 then off else 32 * Blocks(|s.frame|))
            && (LastGet(m.frameinfo1) == 1 <==> last) && TimeAppendGet(m.frameinfo1) == 0
  {
    var m := Fragment(s, k, off, size, last, cnt);
    var block := if k > 0 then off / 32 else Blocks(|s.frame|);
    TypeField(cnt);
    BlockField(off);
    FirstWord(s.port, last, m.frameinfo1);
    SecondWord(k, block, s.frameno, m.frameinfo2);
  }

  /** What reading a fragment comes to: with everything before it there (`whole`) the frame is complete or goes on,
      otherwise the receiver gives up or goes on with a frame that will never be complete. */
  ghost predicate Taken(o: Outcome, rx: Rx, s: Sending, k: nat, off: nat, size: nat, last: bool, whole: bool)
    requires off + size <= |s.frame|
  {
    if !whole then
      o.wkc <= 0 && LeftBy(o.rx, rx, s) && (o.rx.fragno == 0 || (!last && TooShort(o.rx, s)))
    else if last then
      && o.wkc == 1 && o.rx == o.rx.Reset()
      && o.psize == off + size <= |o.rx.buf| && o.rx.buf[..off + size] == s.frame[..off + size]
    else o.wkc == 0 && Holding(o.rx, s, k + 1, off + size)
  }

  /** Reading the next fragment of a frame of which all earlier ones arrived. */
  lemma ReadNext(rx: Rx, s: Sending, k: nat, off: nat, size: nat, last: bool, cnt: nat, capacity: nat)
    requires rx.Sane() && |s.frame| <= capacity <= |rx.buf|
    requires Cutting(s, k, off) && off + size <= |s.frame| && size <= s.maxdata && Tracks(rx, s, k, off, true)
    ensures Taken(Read(rx, Fragment(s, k, off, size, last, cnt), capacity), rx, s, k, off, size, last, true)
  {
    FragmentFields(s, k, off, size, last, cnt);
    var m := Fragment(s, k, off, size, last, cnt);
    var o := Read(rx, m, capacity);
    assert m.data[..size] == s.frame[off..off + size];
    assert s.frame[..off] + s.frame[off..off + size] == s.frame[..off + size];
    assert o.rx.buf[..off + size] == o.rx.buf[..off] + o.rx.buf[off..off + size];
  }

  /** Reading a fragment after something before it was lost. */
  lemma ReadBroken(rx: Rx, s: Sending, k: nat, off: nat, size: nat, last: bool, cnt: nat, capacity: nat)
    requires rx.Sane() && capacity <= |rx.buf|
    requires Cutting(s, k, off) && off + size <= |s.frame| && size <= s.maxdata && k > 0 && Tracks(rx, s, k, off, false)
    requires last ==> off == LastOffset(s)
    ensures Taken(Read(rx, Fragment(s, k, off, size, last, cnt), capacity), rx, s, k, off, size, last, false)
  {
    FragmentFields(s, k, off, size, last, cnt);
  }

  /** The first of the remaining fragments, and what follows it. */
  lemma FragmentsHead(s: Sending, k: nat, off: nat, cnt: nat)
    requires Cutting(s, k, off)
    ensures var f := Fragments(s, k, off, cnt);
            var rest := |s.frame| - off;
            if rest <= s.maxdata then f == [Fragment(s, k, off, rest, true, NextMbxCnt(cnt))]
            else
              && f[0] == Fragment(s, k, off, s.Chunk(), false, NextMbxCnt(cnt))
              && f[1..] == Fragments(s, k + 1, off + s.Chunk(), NextMbxCnt(cnt))
              && Cutting(s, k + 1, off + s.Chunk())
  {
    ChunkIsBlocks(s, off);
  }

  /** The size of the first of the remaining fragments */
  function HeadSize(s: Sending, off: nat): nat
    requires off <= |s.frame|
  {
    if |s.frame| - off <= s.maxdata then |s.frame| - off else s.Chunk()
  }

  /** The number of a fragment is in its header. */
  lemma HeadNumber(s: Sending, k: nat, off: nat, cnt: nat, m: Mbx)
    requires Cutting(s, k, off) && m == Fragments(s, k, off, cnt)[0]
    ensures m.frameinfo2 % 64 == k && m.mbxtype % 16 == 2
  {
    FragmentsHead(s, k, off, cnt);
    ChunkIsBlocks(s, off);
    FragmentFields(s, k, off, HeadSize(s, off), |s.frame| - off <= s.maxdata, NextMbxCnt(cnt));
  }

  /** What its arrival comes to */
  ghost predicate Arrived(o: Outcome, rx: Rx, s: Sending, k: nat, off: nat, whole: bool)
    requires off <= |s.frame|
  {
    && LeftBy(o.rx, rx, s)
    && if |s.frame| - off <= s.maxdata then
         o.rx.fragno == 0 && (if whole then o.wkc == 1 && Handed(o) == s.frame && o.rx == o.rx.Reset() else o.wkc <= 0)
       else
         o.wkc <= 0 && (whole ==> o.wkc == 0) && Tracks(o.rx, s, k + 1, off + s.Chunk(), whole)
  }

  lemma TakenHead(o: Outcome, rx: Rx, s: Sending, k: nat, off: nat, whole: bool)
    requires off <= |s.frame| && off + HeadSize(s, off) <= |s.frame|
    requires Taken(o, rx, s, k, off, HeadSize(s, off), |s.frame| - off <= s.maxdata, whole)
    ensures Arrived(o, rx, s, k, off, whole)
  {
    assert s.frame[..|s.frame|] == s.frame;
  }

  /** The first of the remaining fragments arrives. */
  lemma HeadArrives(rx: Rx, s: Sending, k: nat, off: nat, cnt: nat, whole: bool, capacity: nat)
    requires rx.Sane() && |s.frame| <= capacity <= |rx.buf|
    requires Cutting(s, k, off) && (whole || k > 0) && Tracks(rx, s, k, off, whole)
    ensures Arrived(Read(rx, Fragments(s, k, off, cnt)[0], capacity), rx, s, k, off, whole)
  {
    FragmentsHead(s, k, off, cnt);
    ChunkIsBlocks(s, off);
    var last, size := |s.frame| - off <= s.maxdata, HeadSize(s, off);
    if whole {
      ReadNext(rx, s, k, off, size, last, NextMbxCnt(cnt), capacity);
    } else {
      ReadBroken(rx, s, k, off, size, last, NextMbxCnt(cnt), capacity);
    }
    TakenHead(Read(rx, Fragments(s, k, off, cnt)[0], capacity), rx, s, k, off, whole);
  }

  /** What is claimed of the rest of a lossy frame: it is handed on iff all of it arrives, and
      afterwards the receiver is idle or left with the beginning of a frame of this number. */
  ghost predicate Settled(r: (Rx, seq<seq<byte>>), rx: Rx, s: Sending, kept: seq<bool>, whole: bool) {
    match r
    case (left, frames) =>
      && frames == (if whole && AllKept(kept) then [s.frame] else [])
      && (if AnyKept(kept) then LeftBy(left, rx, s) else left == rx)
  }

  /** Fragment 0 finds the receiver in a state in which the other fragments do it no harm. */
  ghost predicate Harmless(rx: Rx, s: Sending, kept: seq<bool>) {
    rx.fragno == 0 || rx.frameno != s.frameno % 16 || AllKept(kept) || !Multi(s) || TooShort(rx, s)
  }

  /** One fragment that hands nothing on, and the rest of the frame */
  lemma SettledStep(r: (Rx, seq<seq<byte>>), rx: Rx, rx1: Rx, s: Sending, kept: seq<bool>, whole: bool)
    requires kept != [] && Settled(r, rx1, s, kept[1..], whole && kept[0])
    requires if kept[0] then LeftBy(rx1, rx, s) else rx1 == rx
    ensures Settled(r, rx, s, kept, whole)
  {
  }

  lemma {:induction false} FrameArrives(
    rx: Rx, s: Sending, k: nat, off: nat, cnt: nat, f: seq<Mbx>, kept: seq<bool>, whole: bool, capacity: nat,
    r: (Rx, seq<seq<byte>>))
    requires rx.Sane() && |s.frame| <= capacity <= |rx.buf|
    requires Cutting(s, k, off) && f == Fragments(s, k, off, cnt) && |kept| == |f| && (whole || k > 0)
    requires Tracks(rx, s, k, off, whole)
    requires k == 0 ==> Harmless(rx, s, kept)
    requires r == Arrive(rx, f, kept, capacity)
    ensures Settled(r, rx, s, kept, whole)
    decreases |s.frame| - off
  {
    if |s.frame| - off <= s.maxdata {
      LastArrives(rx, s, k, off, cnt, kept, whole, capacity);
    } else {
      var rx1, next := HeadPassed(rx, s, k, off, cnt, f, kept, whole, capacity);
      var stillWhole := whole && kept[0];
      FrameArrives(rx1, s, k + 1, next, NextMbxCnt(cnt), f[1..], kept[1..], stillWhole, capacity, r);
      SettledStep(r, rx, rx1, s, kept, whole);
      assert Settled(r, rx, s, kept, whole);
    }
  }

  /** The first of several fragments, whether it arrives or not */
  lemma HeadPassed(rx: Rx, s: Sending, k: nat, off: nat, cnt: nat, f: seq<Mbx>, kept: seq<bool>, whole: bool, capacity: nat)
    returns (rx1: Rx, next: nat)
    requires rx.Sane() && |s.frame| <= capacity <= |rx.buf| && |s.frame| - off > s.maxdata
    requires Cutting(s, k, off) && f == Fragments(s, k, off, cnt) && |kept| == |f| && (whole || k > 0)
    requires Tracks(rx, s, k, off, whole) && (k == 0 ==> Harmless(rx, s, kept))
    ensures off < next <= |s.frame| && s.Sendable() && f[1..] == Fragments(s, k + 1, next, NextMbxCnt(cnt))
    ensures rx1.Sane() && |rx1.buf| == |rx.buf| && Cutting(s, k + 1, next) && Tracks(rx1, s, k + 1, next, whole && kept[0])
    ensures if kept[0] then LeftBy(rx1, rx, s) else rx1 == rx
    ensures Arrive(rx, f, kept, capacity) == Arrive(rx1, f[1..], kept[1..], capacity)
  {
    FragmentsHead(s, k, off, cnt);
    rx1, next := if kept[0] then Read(rx, f[0], capacity).rx else rx, off + s.Chunk();
    if kept[0] {
      HeadArrives(rx, s, k, off, cnt, whole, capacity);
    } else {
      HeadMissed(rx, s, k, off, whole, kept);
    }
    NothingHanded(rx, f, kept, capacity, rx1);
  }

  lemma HeadMissed(rx: Rx, s: Sending, k: nat, off: nat, whole: bool, kept: seq<bool>)
    requires Cutting(s, k, off) && |s.frame| - off > s.maxdata && Tracks(rx, s, k, off, whole)
    requires kept != [] && !kept[0] && (k == 0 ==> Harmless(rx, s, kept))
    ensures Tracks(rx, s, k + 1, off + s.Chunk(), false)
  {
    assert !AllKept(kept);
  }

  lemma NothingHanded(rx: Rx, f: seq<Mbx>, kept: seq<bool>, capacity: nat, rx1: Rx)
    requires rx.Sane() && capacity <= |rx.buf| && f != [] && |f| == |kept|
    requires if kept[0] then rx1 == Read(rx, f[0], capacity).rx && Read(rx, f[0], capacity).wkc <= 0 else rx1 == rx
    ensures Arrive(rx, f, kept, capacity) == Arrive(rx1, f[1..], kept[1..], capacity)
  {
    if kept[0] {
      var rest := Arrive(rx1, f[1..], kept[1..], capacity);
      assert [] + rest.1 == rest.1;
    }
  }

  lemma LastArrives(rx: Rx, s: Sending, k: nat, off: nat, cnt: nat, kept: seq<bool>, whole: bool, capacity: nat)
    requires rx.Sane() && |s.frame| <= capacity <= |rx.buf| && |s.frame| - off <= s.maxdata
    requires Cutting(s, k, off) && |kept| == |Fragments(s, k, off, cnt)| && (whole || k > 0)
    requires Tracks(rx, s, k, off, whole)
    ensures Settled(Arrive(rx, Fragments(s, k, off, cnt), kept, capacity), rx, s, kept, whole)
  {
    FragmentsHead(s, k, off, cnt);
    assert Fragments(s, k, off, cnt)[1..] == [] && kept[1..] == [];
    assert AnyKept(kept) == kept[0] && AllKept(kept) == kept[0];
    assert Arrive(rx, [], [], capacity) == (rx, []);
    if kept[0] {
      HeadArrives(rx, s, k, off, cnt, whole, capacity);
    }
  }

  /** The return codes of the fragments that arrive. */
  ghost function Codes(rx: Rx, f: seq<Mbx>, capacity: nat): (c: seq<int>)
    requires rx.Sane() && capacity <= |rx.buf|
    ensures |c| == |f|
    decreases |f|
  {
    if f == [] then []
    else
      var o := Read(rx, f[0], capacity);
      [o.wkc] + Codes(o.rx, f[1..], capacity)
  }

  /** A frame goes well: 0 for every fragment but the last, 1 for the last, and a receiver as at the start. */
  ghost predicate Completed(r: (Rx, seq<seq<byte>>), c: seq<int>, s: Sending) {
    && r.1 == [s.frame] && r.0 == r.0.Reset()
    && c != [] && c[|c| - 1] == 1 && forall i :: 0 <= i < |c| - 1 ==> c[i] == 0
  }

  lemma CompletedStep(rx: Rx, f: seq<Mbx>, kept: seq<bool>, capacity: nat, s: Sending)
    requires rx.Sane() && capacity <= |rx.buf| && |f| == |kept| && f != [] && kept[0]
    requires var o := Read(rx, f[0], capacity);
             o.wkc == 0 && Completed(Arrive(o.rx, f[1..], kept[1..], capacity), Codes(o.rx, f[1..], capacity), s)
    ensures Completed(Arrive(rx, f, kept, capacity), Codes(rx, f, capacity), s)
  {
    var o := Read(rx, f[0], capacity);
    assert Codes(rx, f, capacity) == [0] + Codes(o.rx, f[1..], capacity);
  }

  lemma LastCompleted(rx: Rx, f: seq<Mbx>, kept: seq<bool>, capacity: nat, s: Sending)
    requires rx.Sane() && capacity <= |rx.buf| && |f| == |kept| == 1 && kept[0]
    requires var o := Read(rx, f[0], capacity);
             o.wkc == 1 && Handed(o) == s.frame && o.rx == o.rx.Reset()
    ensures Completed(Arrive(rx, f, kept, capacity), Codes(rx, f, capacity), s)
  {
    var o := Read(rx, f[0], capacity);
    assert f[1..] == [] && kept[1..] == [];
    assert Arrive(o.rx, [], [], capacity) == (o.rx, []) && Codes(o.rx, [], capacity) == [];
  }

  lemma {:induction false} RestArrives(rx: Rx, s: Sending, k: nat, off: nat, cnt: nat, f: seq<Mbx>, kept: seq<bool>, capacity: nat)
    requires rx.Sane() && |s.frame| <= capacity <= |rx.buf| && Cutting(s, k, off) && f == Fragments(s, k, off, cnt)
    requires |kept| == |f| && AllKept(kept) && Tracks(rx, s, k, off, true)
    ensures Completed(Arrive(rx, f, kept, capacity), Codes(rx, f, capacity), s)
    decreases |s.frame| - off
  {
    FragmentsHead(s, k, off, cnt);
    HeadArrives(rx, s, k, off, cnt, true, capacity);
    var o := Read(rx, f[0], capacity);
    if |s.frame| - off <= s.maxdata {
      LastCompleted(rx, f, kept, capacity, s);
    } else {
      RestArrives(o.rx, s, k + 1, off + s.Chunk(), NextMbxCnt(cnt), f[1..], kept[1..], capacity);
      CompletedStep(rx, f, kept, capacity, s);
    }
  }

  /** From whatever state the receiver is in, one frame without loss is handed on exactly. */
  lemma WholeFrameArrives(rx: Rx, s: Sending, cnt: nat, kept: seq<bool>, capacity: nat)
    requires rx.Sane() && |s.frame| <= capacity <= |rx.buf| && s.Addressable()
    requires |kept| == |Fragments(s, 0, 0, cnt)| && AllKept(kept)
    ensures var f := Fragments(s, 0, 0, cnt);
            && Arrive(rx, f, kept, capacity).1 == [s.frame] && Arrive(rx, f, kept, capacity).0.Reset() == Arrive(rx, f, kept, capacity).0
            && var c := Codes(rx, f, capacity);
            && c[|f| - 1] == 1 && forall i :: 0 <= i < |f| - 1 ==> c[i] == 0
  {
    RestArrives(rx, s, 0, 0, cnt, Fragments(s, 0, 0, cnt), kept, capacity);
  }

  // ----- many frames -----

  /** A run of frames as `Send` numbers them. */
  ghost predicate Numbered(frames: seq<Sending>, first: nat) {
    forall j :: 0 <= j < |frames| ==> frames[j].frameno == (first + j) % 256
  }

  /** `kept[j][i]` says whether fragment `i` of frame `j` arrives; `cnts[j]` is the mailbox count the
      frame starts from. */
  ghost predicate Lossy(frames: seq<Sending>, cnts: seq<nat>, kept: seq<seq<bool>>) {
    |frames| == |cnts| == |kept| &&
    forall j :: 0 <= j < |frames| ==> frames[j].Addressable() && |kept[j]| == |Fragments(frames[j], 0, 0, cnts[j])|
  }

  /** What the receiver hands on while the frames from `j` on are sent. */
  ghost function ArriveAll(rx: Rx, frames: seq<Sending>, cnts: seq<nat>, kept: seq<seq<bool>>, j: nat, capacity: nat): seq<seq<byte>>
    requires rx.Sane() && capacity <= |rx.buf| && Lossy(frames, cnts, kept) && j <= |frames|
    decreases |frames| - j
  {
    if j == |frames| then []
    else
      var r := Arrive(rx, Fragments(frames[j], 0, 0, cnts[j]), kept[j], capacity);
      r.1 + ArriveAll(r.0, frames, cnts, kept, j + 1, capacity)
  }

  /** The frames from `j` on that lost nothing. */
  ghost function Unharmed(frames: seq<Sending>, kept: seq<seq<bool>>, j: nat): seq<seq<byte>>
    requires |frames| == |kept| && j <= |frames|
    decreases |frames| - j
  {
    if j == |frames| then []
    else (if AllKept(kept[j]) then [frames[j].frame] else []) + Unharmed(frames, kept, j + 1)
  }

  ghost predicate Silent(kept: seq<seq<bool>>, lo: int, hi: int)
    requires 0 <= lo && hi <= |kept|
  {
    forall m :: lo <= m < hi ==> !AnyKept(kept[m])
  }

  ghost predicate Heard(kept: seq<seq<bool>>, i: nat, j: nat)
    requires i < j < |kept|
  {
    AnyKept(kept[i]) && AnyKept(kept[j]) && Silent(kept, i + 1, j) ==> (j - i) % 16 != 0
  }

  /** Two frames that arrive at least in part, with nothing arriving in between, are not a multiple of
      sixteen apart. */
  ghost predicate NeverSilent(kept: seq<seq<bool>>) {
    forall i, j :: 0 <= i < j < |kept| ==> Heard(kept, i, j)
  }

  lemma NumbersDiffer(first: nat, i: nat, j: nat)
    requires i < j && (j - i) % 16 != 0
    ensures (first + i) % 256 % 16 != (first + j) % 256 % 16
  {
    FourBits(first + i);
    FourBits(first + j);
    EqualRemainders(first + i, first + j);
  }

  lemma EqualRemainders(a: nat, b: nat)
    ensures a % 16 == b % 16 ==> (b - a) % 16 == 0
  {
    if a % 16 == b % 16 {
      Remainder(b - a, b / 16 - a / 16, 0);
    }
  }

  /** The header keeps the last four bits of the eight-bit frame counter. */
  lemma FourBits(x: nat)
    ensures x % 256 % 16 == x % 16
  {
    var q, r := x / 256, x % 256;
    assert x == 16 * (16 * q + r / 16) + r % 16;
    Remainder(x, 16 * q + r / 16, r % 16);
  }

  lemma Remainder(x: int, k: int, m: int)
    requires x == 16 * k + m && 0 <= m < 16
    ensures x % 16 == m
  {
  }

  /** The receiver has just been through frame `j - 1`; `last` is the last frame of which anything
      arrived (-1: none), and the receiver is idle or still holds the beginning of it. */
  ghost predicate Between(rx: Rx, frames: seq<Sending>, kept: seq<seq<bool>>, last: int, j: nat) {
    && -1 <= last < j <= |frames| == |kept|
    && Silent(kept, last + 1, j)
    && (rx.fragno == 0 || (0 <= last && AnyKept(kept[last]) && rx.frameno == frames[last].frameno % 16))
  }

  lemma {:induction false} FramesArrive(
    rx: Rx, frames: seq<Sending>, cnts: seq<nat>, kept: seq<seq<bool>>, first: nat, last: int, j: nat, capacity: nat)
    requires rx.Sane() && capacity <= |rx.buf| && forall i :: 0 <= i < |frames| ==> |frames[i].frame| <= capacity
    requires Numbered(frames, first) && Lossy(frames, cnts, kept) && NeverSilent(kept)
    requires Between(rx, frames, kept, last, j)
    ensures ArriveAll(rx, frames, cnts, kept, j, capacity) == Unharmed(frames, kept, j)
    decreases |frames| - j
  {
    if j < |frames| {
      var r := Arrive(rx, Fragments(frames[j], 0, 0, cnts[j]), kept[j], capacity).0;
      if rx.fragno != 0 && AnyKept(kept[j]) {
        assert Heard(kept, last, j);
        NumbersDiffer(first, last, j);
      }
      if AnyKept(kept[j]) {
        var f := Fragments(frames[j], 0, 0, cnts[j]);
        FrameArrives(rx, frames[j], 0, 0, cnts[j], f, kept[j], true, capacity, Arrive(rx, f, kept[j], capacity));
        FramesArrive(r, frames, cnts, kept, first, j, j + 1, capacity);
      } else {
        NothingArrives(rx, Fragments(frames[j], 0, 0, cnts[j]), kept[j], capacity);
        FramesArrive(rx, frames, cnts, kept, first, last, j + 1, capacity);
      }
    }
  }

  lemma {:induction false} NothingArrives(rx: Rx, f: seq<Mbx>, kept: seq<bool>, capacity: nat)
    requires rx.Sane() && capacity <= |rx.buf| && |f| == |kept| && !AnyKept(kept)
    ensures Arrive(rx, f, kept, capacity) == (rx, [])
    decreases |f|
  {
    if f != [] { NothingArrives(rx, f[1..], kept[1..], capacity); }
  }

  /** Safety and liveness over an in-order channel that loses fragments: the receiver hands on exactly
      the frames of which nothing was lost, byte for byte and in order. */
  lemma ExactlyUnharmedFramesArrive(
    rx: Rx, frames: seq<Sending>, cnts: seq<nat>, kept: seq<seq<bool>>, first: nat, capacity: nat)
    requires rx.fragno == 0 && rx.Sane() && capacity <= |rx.buf|
    requires forall i :: 0 <= i < |frames| ==> |frames[i].frame| <= capacity
    requires Numbered(frames, first) && Lossy(frames, cnts, kept) && NeverSilent(kept)
    ensures ArriveAll(rx, frames, cnts, kept, 0, capacity) == Unharmed(frames, kept, 0)
  {
    FramesArrive(rx, frames, cnts, kept, first, -1, 0, capacity);
  }

  /** For up to sixteen frames no assumption on the losses is needed. */
  lemma SixteenFramesAreSafe(kept: seq<seq<bool>>)
    requires |kept| <= 16
    ensures NeverSilent(kept)
  {
  }

}
