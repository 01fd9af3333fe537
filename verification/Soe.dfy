/** Servo drive profile over EtherCAT: writing an element of a drive parameter (`ecx_SoEwrite`) and reading one
    (`ecx_SoEread`), both in as many fragments as it takes. */
module Soe {
  import opened Mailbox

  /** `word` holds the parameter number in the last fragment and a count of what follows in the others. */
  datatype Fragment = Fragment(incomplete: bool, word: nat, data: seq<byte>)

  datatype Outcome = Good | Refused | NoAnswer

  // ----- writing -----

  /** What happens around one fragment: whether it reaches the mailbox, whether the slave's mailbox is then found
      empty, and what a receive would give. */
  datatype Answer = Confirmed | Wrong | Silence
  datatype Turn = Turn(placed: bool, empty: bool, answer: Answer)

  /** How many full fragments `left` bytes make */
  function Full(left: nat, maxdata: nat): nat
    requires maxdata > 0
  {
    if left < maxdata then 0 else 1 + Full(left - maxdata, maxdata)
  }

  lemma {:induction false} FullIsQuotient(left: nat, maxdata: nat)
    requires maxdata > 0
    ensures Full(left, maxdata) == left / maxdata
  {
    if left >= maxdata {
      FullIsQuotient(left - maxdata, maxdata);
      OneLess(left, maxdata);
    }
  }

  method CountFull(left: nat, maxdata: nat) returns (n: nat)
    requires maxdata > 0
    ensures n == Full(left, maxdata)
  {
    n := left / maxdata;
    FullIsQuotient(left, maxdata);
  }

  /** The fragments from byte `off` on */
  function FragmentsFrom(p: seq<byte>, off: nat, idn: nat, maxdata: nat): (s: seq<Fragment>)
    requires off <= |p| && maxdata > 0
    ensures |s| > 0
    decreases |p| - off
  {
    var left := |p| - off;
    if left > maxdata then
      [Fragment(true, Full(left, maxdata), p[off..off + maxdata])] + FragmentsFrom(p, off + maxdata, idn, maxdata)
    else [Fragment(false, idn, p[off..])]
  }

  /** The drive has said something before it was due, and that is the end. */
  predicate Stops(turn: Turn) {
    turn.placed && !turn.empty && turn.answer != Silence
  }

  predicate Listens(turn: Turn, last: bool) {
    turn.placed && (last || !turn.empty)
  }

  /** What comes back after the last message counts. */
  function Verdict(turn: Turn, last: bool): Outcome {
    if !turn.placed then NoAnswer
    else if !Listens(turn, last) then Good
    else match turn.answer
      case Confirmed => Good
      case Wrong => Refused
      case Silence => NoAnswer
  }

  ghost predicate NoneStops(turns: nat -> Turn, k: int) {
    forall j: nat :: j < k ==> !Stops(turns(j))
  }

  /** Fragments go out in order, whether they reach the drive or not, until it answers; its answer, or the one to
      the last fragment, decides. */
  ghost predicate Writes(p: seq<byte>, idn: nat, maxdata: nat, turns: nat -> Turn, outcome: Outcome, sent: seq<Fragment>)
    requires maxdata > 0
  {
    var all := FragmentsFrom(p, 0, idn, maxdata);
    sent != [] && Prefix(sent, all) && NoneStops(turns, |sent| - 1)
    && (sent == all || Stops(turns(|sent| - 1)))
    && outcome == Verdict(turns(|sent| - 1), sent == all)
  }

  ghost predicate Going(all: seq<Fragment>, sent: seq<Fragment>, turns: nat -> Turn, p: seq<byte>, off: nat, idn: nat, maxdata: nat)
    requires maxdata > 0
  {
    off <= |p| && Prefix(sent, all) && NoneStops(turns, |sent|)
    && |sent| < |all| && all[|sent|..] == FragmentsFrom(p, off, idn, maxdata)
  }

  lemma SendsNext(all: seq<Fragment>, sent: seq<Fragment>, turns: nat -> Turn, p: seq<byte>, off: nat, idn: nat, maxdata: nat, f: Fragment)
    requires maxdata > 0 && Going(all, sent, turns, p, off, idn, maxdata) && f == FragmentsFrom(p, off, idn, maxdata)[0]
    ensures Prefix(sent + [f], all) && NoneStops(turns, |sent|)
    ensures |p| - off <= maxdata <==> sent + [f] == all
    ensures |p| - off > maxdata && !Stops(turns(|sent|)) ==> Going(all, sent + [f], turns, p, off + maxdata, idn, maxdata)
  {
    assert all[|sent|] == all[|sent|..][0];
    assert all[|sent| + 1..] == all[|sent|..][1..];
  }

  /** One fragment of the loop in `ecx_SoEwrite` */
  method Cut(p: seq<byte>, hp: nat, idn: nat, maxdata: nat) returns (f: Fragment, next: nat)
    requires maxdata > 0 && hp <= |p|
    ensures f == FragmentsFrom(p, hp, idn, maxdata)[0] && next == hp + |f.data|
    ensures f.incomplete <==> |p| - hp > maxdata
    ensures f.incomplete ==> |f.data| == maxdata
  {
    var size, word, notLast := |p| - hp, idn, false;
    if size > maxdata {
      word := CountFull(size, maxdata);
      size, notLast := maxdata, true;
    }
    f, next := Fragment(notLast, word, p[hp..hp + size]), hp + size;
  }

  /** What comes back after a fragment: how the call ends if it ends here, and whether it goes on. */
  method Listen(turn: Turn, last: bool) returns (outcome: Outcome, goesOn: bool)
    ensures outcome == Verdict(turn, last) && goesOn == (!last && !Stops(turn))
  {
    outcome, goesOn := NoAnswer, !last;
    if turn.placed {
      outcome := Good;
      if last || !turn.empty {
        match turn.answer {
          case Silence => outcome := NoAnswer;
          case Confirmed => goesOn := false;
          case Wrong => outcome, goesOn := Refused, false;
        }
      }
    }
  }

  /** `ecx_SoEwrite` */
  method Write(p: seq<byte>, idn: nat, maxdata: nat, turns: nat -> Turn) returns (outcome: Outcome, sent: seq<Fragment>)
    requires maxdata > 0
    ensures Writes(p, idn, maxdata, turns, outcome, sent)
  {
    var hp: nat, notLast := 0, true;
    ghost var all := FragmentsFrom(p, 0, idn, maxdata);
    outcome, sent := Good, [];
    while notLast
      invariant notLast ==> Going(all, sent, turns, p, hp, idn, maxdata)
      invariant !notLast ==> Writes(p, idn, maxdata, turns, outcome, sent)
      decreases |p| - hp, notLast
    {
      var f, next := Cut(p, hp, idn, maxdata);
      SendsNext(all, sent, turns, p, hp, idn, maxdata, f);
      outcome, notLast := Listen(turns(|sent|), !f.incomplete);
      sent, hp := sent + [f], next;
    }
  }

  /** Everything goes out if and only if the drive keeps quiet until the last fragment. */
  lemma AllSentIffNotInterrupted(p: seq<byte>, idn: nat, maxdata: nat, turns: nat -> Turn, outcome: Outcome, sent: seq<Fragment>)
    requires maxdata > 0 && Writes(p, idn, maxdata, turns, outcome, sent)
    ensures var all := FragmentsFrom(p, 0, idn, maxdata);
            sent == all <==> NoneStops(turns, |all| - 1)
  {
    var all := FragmentsFrom(p, 0, idn, maxdata);
    assert |sent| < |all| ==> Stops(turns(|sent| - 1));
  }

  /** The answer to the fragment sent last decides how the call ends: one that is not placed, or the last one without an
      answer, gives none; a confirmation is good and anything else is a refusal. */
  lemma EndsAsAnswered(p: seq<byte>, idn: nat, maxdata: nat, turns: nat -> Turn, outcome: Outcome, sent: seq<Fragment>)
    requires maxdata > 0 && Writes(p, idn, maxdata, turns, outcome, sent)
    ensures var turn, last := turns(|sent| - 1), |sent| == |FragmentsFrom(p, 0, idn, maxdata)|;
      && (last || (turn.placed && !turn.empty && turn.answer != Silence))
      && (outcome == NoAnswer <==> last && (!turn.placed || turn.answer == Silence))
      && (outcome == Good <==> turn.placed && turn.answer == Confirmed)
      && (outcome == Refused <==> turn.placed && turn.answer == Wrong)
  {
  }

  ghost predicate AllPlaced(turns: nat -> Turn, n: nat) {
    forall k: nat :: k < n ==> turns(k).placed
  }

  /** The drive confirms fragment k although it is not the last. */
  ghost predicate ConfirmedEarly(turns: nat -> Turn, k: nat) {
    NoneStops(turns, k) && turns(k) == Turn(true, false, Confirmed)
  }

  /** A call that ends well has placed every fragment, unless the drive confirms one before the last, or confirms the
      last one although an earlier one never reached the mailbox. */
  lemma GoodMeansPlacedIff(p: seq<byte>, idn: nat, maxdata: nat, turns: nat -> Turn, outcome: Outcome, sent: seq<Fragment>, n: nat)
    requires maxdata > 0 && Writes(p, idn, maxdata, turns, outcome, sent) && n == |FragmentsFrom(p, 0, idn, maxdata)|
    ensures (outcome == Good ==> |sent| == n && AllPlaced(turns, n)) <==>
            !((exists k: nat :: k < n - 1 && ConfirmedEarly(turns, k))
              || (NoneStops(turns, n - 1) && turns(n - 1).placed && turns(n - 1).answer == Confirmed && !AllPlaced(turns, n - 1)))
  {
    var last: nat := |sent| - 1;
    assert NoneStops(turns, n - 1) && last < n - 1 ==> !Stops(turns(last));
    if exists k: nat :: k < n - 1 && ConfirmedEarly(turns, k) {
      var k: nat :| k < n - 1 && ConfirmedEarly(turns, k);
      assert Stops(turns(k)) && last <= k;
    }
    if last < n - 1 && outcome == Good {
      assert ConfirmedEarly(turns, last);
    }
  }

  lemma {:induction false} Remainder(left: nat, maxdata: nat)
    requires left >= maxdata > 0
    ensures left % maxdata == (left - maxdata) % maxdata
  {
    OneLess(left, maxdata);
    var q := left / maxdata;
    assert left == maxdata * q + left % maxdata;
    assert left - maxdata == maxdata * (q - 1) + (left - maxdata) % maxdata;
    assert maxdata * (q - 1) == maxdata * q - maxdata;
  }

  /** The count in an incomplete fragment is that of the fragments that follow, unless the whole is a multiple of
      the fragment size: then it is one too many. */
  lemma {:induction false} CountIsRightUnlessMultiple(p: seq<byte>, off: nat, idn: nat, maxdata: nat, k: nat)
    requires off <= |p| && maxdata > 0
    ensures var s := FragmentsFrom(p, off, idn, maxdata);
            |s| == (if (|p| - off) % maxdata == 0 && off < |p| then Full(|p| - off, maxdata) else Full(|p| - off, maxdata) + 1)
            && (k < |s| - 1 ==> s[k].incomplete && (s[k].word == |s| - 1 - k <==> (|p| - off) % maxdata != 0))
            && (k == |s| - 1 ==> !s[k].incomplete && s[k].word == idn)
    decreases |p| - off
  {
    var left := |p| - off;
    if left > maxdata {
      Remainder(left, maxdata);
      CountIsRightUnlessMultiple(p, off + maxdata, idn, maxdata, if k > 0 then k - 1 else 0);
    } else if left == maxdata {
      assert Full(0, maxdata) == 0 && left % maxdata == 0;
    } else {
      assert left % maxdata == left;
    }
  }

  // ----- reading -----

  datatype Reply = Data(fragment: Fragment) | WrongReply

  predicate Continues(reply: Reply) {
    reply.Data? && reply.fragment.incomplete
  }

  /** The data of the first n replies put together */
  ghost function Collected(replies: seq<Reply>, n: nat): seq<byte>
    requires n <= |replies| && forall k :: 0 <= k < n ==> replies[k].Data?
  {
    if n == 0 then [] else Collected(replies, n - 1) + replies[n - 1].fragment.data
  }

  ghost predicate AllData(replies: seq<Reply>, n: nat) {
    n <= |replies| && forall k :: 0 <= k < n ==> replies[k].Data?
  }

  ghost predicate Unfinished(replies: seq<Reply>, n: nat) {
    n <= |replies| && forall k :: 0 <= k < n ==> Continues(replies[k])
  }

  /** As much of the data as fits, and nothing behind it */
  ghost predicate Truncated(now: seq<byte>, was: seq<byte>, data: seq<byte>, size: nat) {
    |now| == |was| && size == (if |data| < |now| then |data| else |now|)
    && now[..size] == data[..size] && now[size..] == was[size..]
  }

  /** The n-th reply is the last one looked at: no answer in time, a wrong one, or a fragment nothing follows. */
  function Ending(replies: seq<Reply>, n: nat): Outcome
    requires n <= |replies|
  {
    if n == |replies| then NoAnswer else if replies[n].Data? then Good else Refused
  }

  lemma TruncatedStep(now: seq<byte>, after: seq<byte>, was: seq<byte>, data: seq<byte>, size: nat, more: seq<byte>)
    requires Truncated(now, was, data, size)
    requires var room := if |more| < |now| - size then |more| else |now| - size;
             after == Splice(now, size, more[..room])
    ensures var room := if |more| < |now| - size then |more| else |now| - size;
            Truncated(after, was, data + more, size + room)
  {
    var room := if |more| < |now| - size then |more| else |now| - size;
    var end := size + room;
    assert after[..end] == now[..size] + more[..room];
    assert (data + more)[..end] == data[..size] + more[..room];
    assert after[end..] == now[size..][room..] == was[size..][room..] == was[end..];
  }

  /** The copying in `ecx_SoEread`: `total` bytes are there already, and what does not fit is dropped. */
  method Keep(p: array<byte>, total: nat, data: seq<byte>, ghost was: seq<byte>, ghost before: seq<byte>) returns (size: nat)
    requires Truncated(p[..], was, before, total)
    modifies p
    ensures Truncated(p[..], was, before + data, size)
  {
    var framedatasize := |data|;
    size := total + framedatasize;
    if size > p.Length {
      framedatasize := framedatasize - (size - p.Length);
      size := p.Length;
    }
    TruncatedStep(p[..], Splice(p[..], total, data[..framedatasize]), was, before, total, data);
    if framedatasize > 0 {
      Copy(p, total, data[..framedatasize]);
    } else {
      assert Splice(p[..], total, []) == p[..];
    }
  }

  /** The replies up to the n-th have been put together, and it decided how the call ends. */
  ghost predicate Reads(replies: seq<Reply>, n: nat, outcome: Outcome, was: seq<byte>, now: seq<byte>, size: nat) {
    Unfinished(replies, n) && outcome == Ending(replies, n)
    && if outcome == Good then !Continues(replies[n]) && Truncated(now, was, Collected(replies, n + 1), size)
       else Truncated(now, was, Collected(replies, n), size)
  }

  /** `ecx_SoEread`, `replies` being what comes back until nothing comes any more.  Never more than the buffer
      takes is written, and it holds the first bytes of all data received; n counts the fragments that announced
      another one.  Only a good ending reports the size to the caller. */
  method Read(p: array<byte>, replies: seq<Reply>) returns (outcome: Outcome, totalsize: nat, n: nat)
    modifies p
    ensures Reads(replies, n, outcome, old(p[..]), p[..], totalsize)
    ensures n <= |replies| && forall k :: 0 <= k < n ==> replies[k].Data? && replies[k].fragment.incomplete
    ensures outcome == NoAnswer <==> n == |replies|
    ensures outcome == Refused <==> n < |replies| && replies[n] == WrongReply
    ensures outcome == Good <==> n < |replies| && replies[n].Data? && !replies[n].fragment.incomplete
  {
    var notLast := true;
    totalsize, n, outcome := 0, 0, Good;
    ghost var was := p[..];
    while notLast
      invariant Unfinished(replies, n)
      invariant notLast ==> Truncated(p[..], was, Collected(replies, n), totalsize)
      invariant !notLast ==> Reads(replies, n, outcome, was, p[..], totalsize)
      decreases notLast, |replies| - n
    {
      if n == |replies| {
        return NoAnswer, totalsize, n;
      }
      match replies[n] {
        case Data(fragment) =>
          totalsize := Keep(p, totalsize, fragment.data, was, Collected(replies, n));
          if fragment.incomplete {
            n := n + 1;
          } else {
            outcome, notLast := Good, false;
          }
        case WrongReply => return Refused, totalsize, n;
      }
    }
  }

  // ----- round trip -----

  /** The drive sends the same fragments back. */
  ghost predicate Echoes(replies: seq<Reply>, all: seq<Fragment>) {
    |replies| == |all| && forall k :: 0 <= k < |all| ==> replies[k] == Data(all[k])
  }

  lemma {:induction false} FragmentsJoin(p: seq<byte>, off: nat, idn: nat, maxdata: nat, all: seq<Fragment>, k: nat, replies: seq<Reply>)
    requires off <= |p| && maxdata > 0 && Echoes(replies, all) && AllData(replies, |replies|)
    requires k < |all| && all[k..] == FragmentsFrom(p, off, idn, maxdata) && Collected(replies, k) == p[..off]
    ensures Collected(replies, |replies|) == p && !Continues(replies[|replies| - 1])
    ensures forall j :: k <= j < |replies| - 1 ==> Continues(replies[j])
    decreases |p| - off
  {
    assert all[k] == all[k..][0] && replies[k] == Data(all[k]);
    if |p| - off > maxdata {
      assert p[..off] + p[off..off + maxdata] == p[..off + maxdata];
      assert all[k + 1..] == all[k..][1..];
      FragmentsJoin(p, off + maxdata, idn, maxdata, all, k + 1, replies);
    } else {
      assert p[..off] + p[off..] == p;
    }
  }

  /** Main result: an element written in fragments and read back in the same ones comes back as exactly the bytes
      that fit the buffer: all of them if and only if it is large enough. */
  lemma ReadsBackWhatFits(p: seq<byte>, idn: nat, maxdata: nat, replies: seq<Reply>, n: nat, outcome: Outcome,
                          was: seq<byte>, now: seq<byte>, size: nat)
    requires maxdata > 0 && Echoes(replies, FragmentsFrom(p, 0, idn, maxdata))
    requires Reads(replies, n, outcome, was, now, size)
    ensures outcome == Good && Truncated(now, was, p, size)
    ensures now[..size] == p <==> |p| <= |now|
  {
    var all := FragmentsFrom(p, 0, idn, maxdata);
    forall k | 0 <= k < |replies| ensures replies[k].Data? {
      assert replies[k] == Data(all[k]);
    }
    assert all[0..] == all && p[..0] == [];
    FragmentsJoin(p, 0, idn, maxdata, all, 0, replies);
    assert n == |replies| - 1;
    assert now[..size] == p[..size];
  }
}
