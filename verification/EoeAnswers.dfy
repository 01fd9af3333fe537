/** What the receiver of EoE fragments answers when some are lost: from the loss on, every fragment of the frame is
    refused. */
module EoeAnswers {
  import opened Mailbox
  import opened Eoe
  import opened EoeChannel

  /** The answer to fragment `j`, which arrives, when of those before it only the `kept` ones do */
  ghost function AnswerTo(rx: Rx, f: seq<Mbx>, kept: seq<bool>, capacity: nat, j: nat): int
    requires rx.Sane() && capacity <= |rx.buf| && |f| == |kept| && j < |f|
    decreases j
  {
    if j == 0 then Read(rx, f[0], capacity).wkc
    else AnswerTo(if kept[0] then Read(rx, f[0], capacity).rx else rx, f[1..], kept[1..], capacity, j - 1)
  }

  ghost predicate LostBefore(kept: seq<bool>, j: nat)
    requires j <= |kept|
  {
    exists i :: 0 <= i < j && !kept[i]
  }

  lemma LostStep(kept: seq<bool>, j: nat)
    requires 0 < j <= |kept|
    ensures LostBefore(kept, j) <==> !kept[0] || LostBefore(kept[1..], j - 1)
  {
    assert forall i :: 0 < i < j ==> kept[i] == kept[1..][i - 1];
    if LostBefore(kept[1..], j - 1) {
      var i :| 0 <= i < j - 1 && !kept[1..][i];
      assert !kept[i + 1];
    }
  }

  /** Before fragment `k` either nothing has been lost, or the receiver waits for an earlier one. */
  ghost predicate Ready(rx: Rx, s: Sending, k: nat, off: nat, whole: bool) {
    rx.fragno <= k && if whole then Tracks(rx, s, k, off, true) && (k == 0 ==> rx.fragno == 0) else rx.fragno < k
  }

  /** One fragment of several, whether it arrives or not */
  lemma ReadyStep(rx: Rx, s: Sending, k: nat, off: nat, cnt: nat, m: Mbx, kept: bool, whole: bool, capacity: nat, rx1: Rx)
    requires rx.Sane() && |s.frame| <= capacity <= |rx.buf| && Ready(rx, s, k, off, whole)
    requires Cutting(s, k, off) && m == Fragments(s, k, off, cnt)[0] && rx1 == if kept then Read(rx, m, capacity).rx else rx
    ensures |s.frame| - off > s.maxdata ==> Ready(rx1, s, k + 1, off + s.Chunk(), whole && kept)
    ensures Read(rx, m, capacity).wkc == if !whole then -11 else if |s.frame| - off > s.maxdata then 0 else 1
  {
    FragmentsHead(s, k, off, cnt);
    HeadNumber(s, k, off, cnt, m);
    if whole {
      HeadArrives(rx, s, k, off, cnt, true, capacity);
    } else {
      RefusedIff(rx, m, capacity);
    }
  }

  /** The answers tell exactly what has been lost: a receiver that is idle takes every fragment of a frame of which
      none before it was lost, and refuses every other one. */
  lemma {:induction false} RefusedIffLost(rx: Rx, s: Sending, k: nat, off: nat, cnt: nat, f: seq<Mbx>, kept: seq<bool>, whole: bool, capacity: nat, j: nat)
    requires rx.Sane() && |s.frame| <= capacity <= |rx.buf| && Ready(rx, s, k, off, whole)
    requires Cutting(s, k, off) && f == Fragments(s, k, off, cnt) && |kept| == |f| && j < |f|
    ensures AnswerTo(rx, f, kept, capacity, j) == if !whole || LostBefore(kept, j) then -11 else if j == |f| - 1 then 1 else 0
    decreases j
  {
    FragmentsHead(s, k, off, cnt);
    var rx1 := if kept[0] then Read(rx, f[0], capacity).rx else rx;
    ReadyStep(rx, s, k, off, cnt, f[0], kept[0], whole, capacity, rx1);
    if j > 0 {
      LostStep(kept, j);
      RefusedIffLost(rx1, s, k + 1, off + s.Chunk(), NextMbxCnt(cnt), f[1..], kept[1..], whole && kept[0], capacity, j - 1);
    }
  }

  /** From an idle receiver: fragment `j` is refused if and only if one before it was lost. */
  lemma LossIsReported(rx: Rx, s: Sending, cnt: nat, kept: seq<bool>, capacity: nat, j: nat)
    requires rx.Sane() && rx.fragno == 0 && |s.frame| <= capacity <= |rx.buf| && s.Addressable()
    requires |kept| == |Fragments(s, 0, 0, cnt)| && j < |kept|
    ensures AnswerTo(rx, Fragments(s, 0, 0, cnt), kept, capacity, j) < 0 <==> exists i :: 0 <= i < j && !kept[i]
  {
    RefusedIffLost(rx, s, 0, 0, cnt, Fragments(s, 0, 0, cnt), kept, true, capacity, j);
  }
}
