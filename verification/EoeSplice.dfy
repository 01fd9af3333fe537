/** Which frames losses can spoil.  The header keeps four bits of the frame number, so the receiver may
    take the end of one frame for the end of an earlier one whose number differs by a multiple of
    sixteen. */
module EoeSplice {
  import opened Mailbox
  import opened Eoe
  import opened EoeChannel

  /** The end of `b` can complete the beginning of `a`: both have more than one fragment, and the last
      fragment of `b` starts within the size announced for `a`. */
  ghost predicate Joinable(a: Sending, b: Sending) {
    b.maxdata >= 32 && Multi(a) && Multi(b) && LastOffset(b) <= 32 * Blocks(|a.frame|)
  }

  ghost predicate Apart(frames: seq<Sending>, i: nat, j: nat)
    requires i < j < |frames|
  {
    (j - i) % 16 == 0 ==> !Joinable(frames[i], frames[j])
  }

  ghost predicate NoneJoinable(frames: seq<Sending>) {
    forall i, j :: 0 <= i < j < |frames| ==> Apart(frames, i, j)
  }

  /** Frames that one sender numbers and cuts for one mailbox, none too long for the receiver */
  ghost predicate Stream(frames: seq<Sending>, cnts: seq<nat>, first: nat, maxdata: nat, capacity: nat) {
    && Numbered(frames, first) && |cnts| == |frames|
    && forall i :: 0 <= i < |frames| ==> frames[i].Addressable() && frames[i].maxdata == maxdata && |frames[i].frame| <= capacity
  }

  /** Whatever is lost, the receiver hands on exactly the frames of which nothing was. */
  ghost predicate SafeForAllLosses(rx: Rx, frames: seq<Sending>, cnts: seq<nat>, capacity: nat)
    requires rx.Sane() && capacity <= |rx.buf|
  {
    forall kept :: Lossy(frames, cnts, kept) ==> ArriveAll(rx, frames, cnts, kept, 0, capacity) == Unharmed(frames, kept, 0)
  }

  // ----- frames that cannot be joined are safe -----

  /** The receiver is idle or was left with the beginning of frame `i`, or of that length. */
  ghost predicate Begun(rx: Rx, frames: seq<Sending>, i: nat, j: nat) {
    rx.fragno > 0 ==>
      && i < j <= |frames| && Multi(frames[i])
      && rx.frameno == frames[i].frameno % 16 && rx.offset <= rx.size == 32 * Blocks(|frames[i].frame|)
  }

  /** What is left of the frames before it does frame `j` no harm. */
  lemma BegunIsHarmless(rx: Rx, frames: seq<Sending>, i: nat, j: nat, first: nat, kept: seq<bool>)
    requires Numbered(frames, first) && NoneJoinable(frames) && j < |frames| && frames[j].Addressable()
    requires Begun(rx, frames, i, j)
    ensures Harmless(rx, frames[j], kept)
  {
    if rx.fragno > 0 {
      assert Apart(frames, i, j);
      if (j - i) % 16 != 0 { NumbersDiffer(first, i, j); }
    }
  }

  lemma {:induction false} UnjoinableArrive(
    rx: Rx, frames: seq<Sending>, cnts: seq<nat>, kept: seq<seq<bool>>, first: nat, maxdata: nat, i: nat, j: nat, capacity: nat)
    requires rx.Sane() && capacity <= |rx.buf| && Stream(frames, cnts, first, maxdata, capacity) && Lossy(frames, cnts, kept)
    requires NoneJoinable(frames) && j <= |frames| && Begun(rx, frames, i, j)
    ensures ArriveAll(rx, frames, cnts, kept, j, capacity) == Unharmed(frames, kept, j)
    decreases |frames| - j
  {
    if j < |frames| {
      var s, f := frames[j], Fragments(frames[j], 0, 0, cnts[j]);
      var r := Arrive(rx, f, kept[j], capacity).0;
      BegunIsHarmless(rx, frames, i, j, first, kept[j]);
      FrameArrives(rx, s, 0, 0, cnts[j], f, kept[j], true, capacity, Arrive(rx, f, kept[j], capacity));
      var origin := if r.fragno > 0 && AnyKept(kept[j]) && Multi(s) && r.size == 32 * Blocks(|s.frame|) then j else i;
      UnjoinableArrive(r, frames, cnts, kept, first, maxdata, origin, j + 1, capacity);
    }
  }

  // ----- frames that can be joined are not -----

  function None(n: nat): (kept: seq<bool>)
    ensures |kept| == n
  {
    seq(n, i => false)
  }

  function FirstOnly(n: nat): (kept: seq<bool>)
    ensures |kept| == n
  {
    seq(n, i => i == 0)
  }

  function AllButFirst(n: nat): (kept: seq<bool>)
    ensures |kept| == n
  {
    seq(n, i => i != 0)
  }

  /** Of frame `i` the first fragment arrives, of frame `j` all others, and of the other frames nothing. */
  ghost function Losses(frames: seq<Sending>, cnts: seq<nat>, i: nat, j: nat): (kept: seq<seq<bool>>)
    requires |frames| == |cnts| && forall m :: 0 <= m < |frames| ==> frames[m].Addressable()
    ensures Lossy(frames, cnts, kept)
  {
    seq(|frames|, m requires 0 <= m < |frames| && frames[m].Addressable() =>
      var n := |Fragments(frames[m], 0, 0, cnts[m])|;
      if m == i then FirstOnly(n) else if m == j then AllButFirst(n) else None(n))
  }

  lemma {:induction false} NoneIsSilent(kept: seq<bool>)
    requires forall i :: 0 <= i < |kept| ==> !kept[i]
    ensures !AnyKept(kept)
  {
    if kept != [] { NoneIsSilent(kept[1..]); }
  }

  lemma {:induction false} AllAreKept(kept: seq<bool>)
    requires forall i :: 0 <= i < |kept| ==> kept[i]
    ensures AllKept(kept)
  {
    if kept != [] { AllAreKept(kept[1..]); }
  }

  lemma {:induction false} OneIsMissing(kept: seq<bool>, i: nat)
    requires i < |kept| && !kept[i]
    ensures !AllKept(kept)
  {
    if i > 0 { OneIsMissing(kept[1..], i - 1); }
  }

  lemma {:induction false} SilentFramesChangeNothing(
    rx: Rx, frames: seq<Sending>, cnts: seq<nat>, kept: seq<seq<bool>>, lo: nat, hi: nat, capacity: nat)
    requires rx.Sane() && capacity <= |rx.buf| && Lossy(frames, cnts, kept) && lo <= hi <= |frames| && Silent(kept, lo, hi)
    ensures ArriveAll(rx, frames, cnts, kept, lo, capacity) == ArriveAll(rx, frames, cnts, kept, hi, capacity)
    decreases hi - lo
  {
    if lo < hi {
      NothingArrives(rx, Fragments(frames[lo], 0, 0, cnts[lo]), kept[lo], capacity);
      SilentFramesChangeNothing(rx, frames, cnts, kept, lo + 1, hi, capacity);
    }
  }

  /** With only its first fragment there, the receiver is left holding the beginning of a frame. */
  lemma FirstIsHeld(rx: Rx, s: Sending, cnt: nat, f: seq<Mbx>, kept: seq<bool>, capacity: nat)
    requires rx.Sane() && |s.frame| <= capacity <= |rx.buf| && s.Addressable() && Multi(s)
    requires f == Fragments(s, 0, 0, cnt) && kept == FirstOnly(|f|)
    ensures var r := Arrive(rx, f, kept, capacity); r.1 == [] && Holding(r.0, s, 1, s.Chunk())
  {
    FragmentsHead(s, 0, 0, cnt);
    HeadArrives(rx, s, 0, 0, cnt, true, capacity);
    NoneIsSilent(kept[1..]);
    NothingArrives(Read(rx, f[0], capacity).rx, f[1..], kept[1..], capacity);
  }

  /** Where the joined frame ends: a last fragment that does not fit is left out. */
  ghost function End(a: Sending, b: Sending): (n: nat)
    requires b.maxdata >= 32
    ensures n <= |b.frame|
  {
    if |b.frame| <= 32 * Blocks(|a.frame|) then |b.frame| else LastOffset(b)
  }

  /** The frame nobody sent: the beginning of `a` with the end of `b` */
  ghost function Spliced(a: Sending, b: Sending): seq<byte>
    requires Joinable(a, b) && a.maxdata == b.maxdata
  {
    LastIsBehindFirst(b);
    a.frame[..a.Chunk()] + b.frame[a.Chunk()..End(a, b)]
  }

  lemma LastIsBehindFirst(s: Sending)
    requires s.maxdata >= 32 && Multi(s)
    ensures s.Chunk() <= LastOffset(s) <= |s.frame|
  {
  }

  /** The receiver holds the first fragment of `a` and those of `b` before number `k`. */
  ghost predicate Joining(rx: Rx, a: Sending, b: Sending, k: nat, off: nat)
    requires Joinable(a, b) && a.maxdata == b.maxdata
  {
    && rx.fragno == k > 0 && rx.offset == off && rx.frameno == b.frameno % 16 && rx.size == 32 * Blocks(|a.frame|)
    && a.Chunk() <= off <= |rx.buf| && off <= |b.frame| && rx.buf[..off] == a.frame[..a.Chunk()] + b.frame[a.Chunk()..off]
  }

  /** Behind `head` and a piece of `frame` the next `size` bytes of the frame are put. */
  lemma BeginningGrows(buf: seq<byte>, off: nat, size: nat, head: seq<byte>, frame: seq<byte>, c: nat)
    requires c <= off && off + size <= |buf| && off + size <= |frame| && buf[..off] == head + frame[c..off]
    ensures Splice(buf, off, frame[off..off + size])[..off + size] == head + frame[c..off + size]
  {
    var r := Splice(buf, off, frame[off..off + size]);
    assert r[..off + size] == r[..off] + r[off..off + size];
    assert frame[c..off] + frame[off..off + size] == frame[c..off + size];
  }

  lemma ReadJoining(rx: Rx, a: Sending, b: Sending, k: nat, off: nat, size: nat, last: bool, cnt: nat, capacity: nat)
    requires rx.Sane() && |b.frame| <= capacity <= |rx.buf| && Joinable(a, b) && a.maxdata == b.maxdata
    requires Joining(rx, a, b, k, off) && Cutting(b, k, off) && size <= b.maxdata
    requires if last then off == LastOffset(b) && off + size == |b.frame| else off + size <= LastOffset(b)
    ensures var o := Read(rx, Fragment(b, k, off, size, last, cnt), capacity);
            if last then o.wkc == 1 && Handed(o) == Spliced(a, b) else o.wkc == 0 && Joining(o.rx, a, b, k + 1, off + size)
  {
    FragmentFields(b, k, off, size, last, cnt);
    var m := Fragment(b, k, off, size, last, cnt);
    var o := Read(rx, m, capacity);
    assert m.data[..size] == b.frame[off..off + size];
    BeginningGrows(rx.buf, off, size, a.frame[..a.Chunk()], b.frame, a.Chunk());
  }

  /** All fragments of `b` from number `k` on arrive, and complete the joined frame. */
  lemma {:induction false} RestIsJoined(
    rx: Rx, a: Sending, b: Sending, k: nat, off: nat, cnt: nat, f: seq<Mbx>, kept: seq<bool>, capacity: nat)
    requires rx.Sane() && |b.frame| <= capacity <= |rx.buf| && Joinable(a, b) && a.maxdata == b.maxdata
    requires Joining(rx, a, b, k, off) && Cutting(b, k, off) && f == Fragments(b, k, off, cnt)
    requires |kept| == |f| && AllKept(kept)
    ensures Arrive(rx, f, kept, capacity).1 == [Spliced(a, b)]
    decreases |b.frame| - off
  {
    FragmentsHead(b, k, off, cnt);
    ChunkIsBlocks(b, off);
    ReadJoining(rx, a, b, k, off, HeadSize(b, off), |b.frame| - off <= b.maxdata, NextMbxCnt(cnt), capacity);
    var o := Read(rx, f[0], capacity);
    if |b.frame| - off <= b.maxdata {
      assert f[1..] == [] && kept[1..] == [];
      assert Arrive(o.rx, [], [], capacity) == (o.rx, []);
    } else {
      RestIsJoined(o.rx, a, b, k + 1, off + b.Chunk(), NextMbxCnt(cnt), f[1..], kept[1..], capacity);
    }
  }

  /** With only its first fragment missing, a frame completes the one the receiver holds. */
  lemma EndIsJoined(rx: Rx, a: Sending, b: Sending, cnt: nat, f: seq<Mbx>, kept: seq<bool>, capacity: nat)
    requires rx.Sane() && |a.frame| <= capacity && |b.frame| <= capacity <= |rx.buf| && b.Addressable()
    requires Joinable(a, b) && a.maxdata == b.maxdata && a.frameno % 16 == b.frameno % 16 && Holding(rx, a, 1, a.Chunk())
    requires f == Fragments(b, 0, 0, cnt) && kept == AllButFirst(|f|)
    ensures Arrive(rx, f, kept, capacity).1 == [Spliced(a, b)]
  {
    FragmentsHead(b, 0, 0, cnt);
    LastIsBehindFirst(b);
    AllAreKept(kept[1..]);
    assert b.frame[a.Chunk()..a.Chunk()] == [];
    assert Joining(rx, a, b, 1, a.Chunk());
    RestIsJoined(rx, a, b, 1, a.Chunk(), NextMbxCnt(cnt), f[1..], kept[1..], capacity);
  }

  lemma LossesAt(frames: seq<Sending>, cnts: seq<nat>, i: nat, j: nat, kept: seq<seq<bool>>)
    requires |frames| == |cnts| && (forall m :: 0 <= m < |frames| ==> frames[m].Addressable())
    requires i < j < |frames| && kept == Losses(frames, cnts, i, j)
    ensures Silent(kept, 0, i) && Silent(kept, i + 1, j) && Silent(kept, j + 1, |frames|)
    ensures kept[i] == FirstOnly(|kept[i]|) && kept[j] == AllButFirst(|kept[j]|)
  {
    forall m | 0 <= m < |frames| && m != i && m != j ensures !AnyKept(kept[m]) {
      NoneIsSilent(kept[m]);
    }
  }

  /** Nothing arrives of the frames behind `j`, and all but the first fragment of frame `j`. */
  lemma LaterFrameCompletes(
    rx: Rx, frames: seq<Sending>, cnts: seq<nat>, a: Sending, lo: nat, j: nat, kept: seq<seq<bool>>, capacity: nat)
    requires rx.Sane() && lo <= j < |frames| && Lossy(frames, cnts, kept)
    requires Silent(kept, lo, j) && Silent(kept, j + 1, |frames|) && kept[j] == AllButFirst(|kept[j]|)
    requires |a.frame| <= capacity && |frames[j].frame| <= capacity <= |rx.buf| && Holding(rx, a, 1, a.Chunk())
    requires Joinable(a, frames[j]) && a.maxdata == frames[j].maxdata && a.frameno % 16 == frames[j].frameno % 16
    ensures ArriveAll(rx, frames, cnts, kept, lo, capacity) == [Spliced(a, frames[j])]
  {
    SilentFramesChangeNothing(rx, frames, cnts, kept, lo, j, capacity);
    var f := Fragments(frames[j], 0, 0, cnts[j]);
    EndIsJoined(rx, a, frames[j], cnts[j], f, kept[j], capacity);
    SilentFramesChangeNothing(Arrive(rx, f, kept[j], capacity).0, frames, cnts, kept, j + 1, |frames|, capacity);
  }

  /** Of frames `i` and `j` the receiver hands on one that nobody sent. */
  lemma JoinedFrameArrives(
    rx: Rx, frames: seq<Sending>, cnts: seq<nat>, first: nat, maxdata: nat, i: nat, j: nat, kept: seq<seq<bool>>, capacity: nat)
    requires rx.Sane() && capacity <= |rx.buf| && Stream(frames, cnts, first, maxdata, capacity)
    requires i < j < |frames| && (j - i) % 16 == 0 && Joinable(frames[i], frames[j]) && kept == Losses(frames, cnts, i, j)
    ensures ArriveAll(rx, frames, cnts, kept, 0, capacity) == [Spliced(frames[i], frames[j])]
  {
    LossesAt(frames, cnts, i, j, kept);
    SameNumber(first, i, j);
    SilentFramesChangeNothing(rx, frames, cnts, kept, 0, i, capacity);
    var f := Fragments(frames[i], 0, 0, cnts[i]);
    FirstIsHeld(rx, frames[i], cnts[i], f, kept[i], capacity);
    LaterFrameCompletes(Arrive(rx, f, kept[i], capacity).0, frames, cnts, frames[i], i + 1, j, kept, capacity);
  }

  lemma SameNumber(first: nat, i: nat, j: nat)
    requires i < j && (j - i) % 16 == 0
    ensures (first + i) % 256 % 16 == (first + j) % 256 % 16
  {
    FourBits(first + i);
    FourBits(first + j);
    Remainder(first + j, (first + i) / 16 + (j - i) / 16, (first + i) % 16);
  }

  lemma {:induction false} NoneUnharmed(frames: seq<Sending>, kept: seq<seq<bool>>, j: nat)
    requires |frames| == |kept| && j <= |frames| && forall m :: j <= m < |frames| ==> !AllKept(kept[m])
    ensures Unharmed(frames, kept, j) == []
    decreases |frames| - j
  {
    if j < |frames| { NoneUnharmed(frames, kept, j + 1); }
  }

  lemma NothingIsWhole(frames: seq<Sending>, cnts: seq<nat>, i: nat, j: nat, kept: seq<seq<bool>>)
    requires |frames| == |cnts| && (forall m :: 0 <= m < |frames| ==> frames[m].Addressable())
    requires i < j < |frames| && Multi(frames[i]) && kept == Losses(frames, cnts, i, j)
    ensures Unharmed(frames, kept, 0) == []
  {
    forall m | 0 <= m < |frames| ensures !AllKept(kept[m]) {
      FragmentsHead(frames[m], 0, 0, cnts[m]);
      OneIsMissing(kept[m], if m == i then 1 else 0);
    }
    NoneUnharmed(frames, kept, 0);
  }

  /** A stream is safe for all losses if and only if it holds no two frames, a multiple of sixteen apart,
      of which the end of the later one can complete the beginning of the earlier. */
  lemma SafeForAllLossesIffNoneJoinable(rx: Rx, frames: seq<Sending>, cnts: seq<nat>, first: nat, maxdata: nat, capacity: nat)
    requires rx.fragno == 0 && rx.Sane() && capacity <= |rx.buf| && Stream(frames, cnts, first, maxdata, capacity)
    ensures SafeForAllLosses(rx, frames, cnts, capacity) <==> NoneJoinable(frames)
  {
    if NoneJoinable(frames) {
      forall kept | Lossy(frames, cnts, kept)
        ensures ArriveAll(rx, frames, cnts, kept, 0, capacity) == Unharmed(frames, kept, 0)
      {
        UnjoinableArrive(rx, frames, cnts, kept, first, maxdata, 0, 0, capacity);
      }
    } else {
      var i, j :| 0 <= i < j < |frames| && !Apart(frames, i, j);
      var kept := Losses(frames, cnts, i, j);
      JoinedFrameArrives(rx, frames, cnts, first, maxdata, i, j, kept, capacity);
      NothingIsWhole(frames, cnts, i, j, kept);
      assert Lossy(frames, cnts, kept) && ArriveAll(rx, frames, cnts, kept, 0, capacity) != Unharmed(frames, kept, 0);
    }
  }

  /** Frames of one size, more than a mailbox holds, are safe if and only if there are at most sixteen. */
  lemma EqualFramesAreSafeIffSixteen(rx: Rx, frames: seq<Sending>, cnts: seq<nat>, first: nat, maxdata: nat, size: nat, capacity: nat)
    requires rx.fragno == 0 && rx.Sane() && capacity <= |rx.buf| && Stream(frames, cnts, first, maxdata, capacity)
    requires size > maxdata && forall i :: 0 <= i < |frames| ==> |frames[i].frame| == size
    ensures SafeForAllLosses(rx, frames, cnts, capacity) <==> |frames| <= 16
  {
    SafeForAllLossesIffNoneJoinable(rx, frames, cnts, first, maxdata, capacity);
    if |frames| > 16 {
      LastIsBehindFirst(frames[16]);
      assert !Apart(frames, 0, 16);
    }
  }
}
