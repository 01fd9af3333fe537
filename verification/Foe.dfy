/** File access over EtherCAT: sending a file to a slave (`ecx_FOEwrite`) and receiving one (`ecx_FOEread`). */
module Foe {
  import opened Mailbox

  datatype Packet = Packet(number: nat, data: seq<byte>)

  /** How a transfer ends: with a positive work counter, without one, or with an error code. */
  datatype Outcome = Good | Lost | Failed(code: nat)

  /** What the mailbox holds after waiting for the slave: an acknowledgement, a data packet, one of the other FoE
      messages, something else, or nothing. */
  datatype Reply = Ack(number: int) | Data(packet: Packet) | Busy | Error(code: nat) | Odd | Silence

  /** One turn of the conversation; `placed` tells whether the message sent in it reached the mailbox. */
  datatype Turn = Turn(reply: Reply, placed: bool)

  const FILE_NOT_FOUND := 0x8001

  function Verdict(reply: Reply): Outcome {
    match reply
    case Ack(_) => Failed(ERR_FOE_PACKETNUMBER)
    case Busy => Good
    case Error(code) => Failed(if code == FILE_NOT_FOUND then ERR_FOE_FILE_NOTFOUND else ERR_FOE_ERROR)
    case Silence => Lost
    case _ => Failed(ERR_PACKET_ERROR)
  }

  // ----- what has to be sent -----

  /** The packets from byte `off` on: full ones, and one that is not full to end with. */
  function PacketsFrom(file: seq<byte>, off: nat, number: nat, maxdata: nat): (s: seq<Packet>)
    requires off <= |file| && maxdata > 0
    ensures |s| > 0
    decreases |file| - off
  {
    if |file| - off < maxdata then [Packet(number, file[off..])]
    else [Packet(number, file[off..off + maxdata])] + PacketsFrom(file, off + maxdata, number + 1, maxdata)
  }

  /** Nothing at all is sent of an empty file, or when the mailbox has no room for data. */
  function Packets(file: seq<byte>, maxdata: nat): seq<Packet> {
    if file == [] || maxdata == 0 then [] else PacketsFrom(file, 0, 1, maxdata)
  }

  lemma {:induction false} PacketCount(file: seq<byte>, off: nat, number: nat, maxdata: nat)
    requires off <= |file| && maxdata > 0
    ensures |PacketsFrom(file, off, number, maxdata)| == (|file| - off) / maxdata + 1
    decreases |file| - off
  {
    if |file| - off >= maxdata {
      PacketCount(file, off + maxdata, number + 1, maxdata);
      OneLess(|file| - off, maxdata);
    }
  }

  lemma {:induction false} PacketAt(file: seq<byte>, off: nat, number: nat, maxdata: nat, k: nat)
    requires off <= |file| && maxdata > 0 && k < |PacketsFrom(file, off, number, maxdata)|
    ensures var s := PacketsFrom(file, off, number, maxdata);
            s[k].number == number + k && |s[k].data| <= maxdata && (|s[k].data| < maxdata <==> k == |s| - 1)
    decreases |file| - off
  {
    if k > 0 {
      PacketAt(file, off + maxdata, number + 1, maxdata, k - 1);
    }
  }

  /** Size / maxdata + 1 packets, numbered 1, 2, 3, ...; all full but the last, which is not. */
  lemma PacketsAreWellFormed(file: seq<byte>, maxdata: nat, k: nat)
    requires file != [] && k < |Packets(file, maxdata)|
    ensures var s := Packets(file, maxdata);
            |s| == |file| / maxdata + 1 && s[k].number == k + 1 && |s[k].data| <= maxdata
            && (|s[k].data| < maxdata <==> k == |s| - 1)
  {
    PacketCount(file, 0, 1, maxdata);
    PacketAt(file, 0, 1, maxdata, k);
  }

  // ----- sending -----

  /** The first k packets were each asked for by the acknowledgement of the one before. */
  ghost predicate Asked(turns: nat -> Turn, k: nat) {
    forall j: nat :: j < k ==> turns(j).reply == Ack(j)
  }

  ghost predicate Placed(turns: nat -> Turn, k: nat) {
    forall j: nat :: j < k ==> turns(j).placed
  }

  /** What a transfer does, whatever the slave answers: it sends the packets in order for as long as the right
      acknowledgement comes, and the first other answer decides how it ends. */
  ghost predicate Transfers(file: seq<byte>, maxdata: nat, turns: nat -> Turn, outcome: Outcome, sent: seq<Packet>) {
    var k := |sent|;
    Prefix(sent, Packets(file, maxdata)) && Asked(turns, k)
    && if k > 0 && !turns(k - 1).placed then Placed(turns, k - 1) && outcome == Lost
       else Placed(turns, k)
            && if turns(k).reply == Ack(k) then sent == Packets(file, maxdata) && outcome == Good
               else outcome == Verdict(turns(k).reply)
  }

  /** Where the loop stands when another reply is waited for. */
  ghost predicate Going(all: seq<Packet>, sent: seq<Packet>, turns: nat -> Turn, file: seq<byte>, off: nat, finalZero: bool, maxdata: nat) {
    off <= |file| && (finalZero ==> maxdata > 0)
    && Prefix(sent, all) && Asked(turns, |sent|) && Placed(turns, |sent|)
    && if (off == |file| && !finalZero) || maxdata == 0 then sent == all
       else |sent| < |all| && all[|sent|..] == PacketsFrom(file, off, |sent| + 1, maxdata)
  }

  lemma SendsNext(all: seq<Packet>, sent: seq<Packet>, turns: nat -> Turn, file: seq<byte>, off: nat, finalZero: bool, maxdata: nat, n: nat)
    requires Going(all, sent, turns, file, off, finalZero, maxdata) && maxdata > 0 && (off < |file| || finalZero)
    requires turns(|sent|).reply == Ack(|sent|) && n == (if |file| - off > maxdata then maxdata else |file| - off)
    ensures var sent' := sent + [Packet(|sent| + 1, file[off..off + n])];
            Prefix(sent', all) && Asked(turns, |sent'|)
            && (turns(|sent|).placed ==> Going(all, sent', turns, file, off + n, off + n == |file| && n == maxdata, maxdata))
  {
    assert all[|sent|] == all[|sent|..][0];
    assert all[|sent| + 1..] == all[|sent|..][1..];
    assert n < maxdata ==> file[off..] == file[off..off + n];
  }

  /** `ecx_FOEwrite` from the point where the write request has been placed. */
  method Write(file: seq<byte>, maxdata: nat, turns: nat -> Turn) returns (outcome: Outcome, sent: seq<Packet>)
    ensures Transfers(file, maxdata, turns, outcome, sent)
  {
    var off: nat, sendpacket, finalZero, worktodo := 0, 0, false, true;
    ghost var all := Packets(file, maxdata);
    outcome, sent := Good, [];
    while worktodo
      invariant sendpacket == |sent|
      invariant worktodo ==> Going(all, sent, turns, file, off, finalZero, maxdata)
      invariant !worktodo ==> Transfers(file, maxdata, turns, outcome, sent)
      decreases worktodo, |file| - off, finalZero
    {
      worktodo := false;
      var turn := turns(sendpacket);
      if turn.reply != Ack(sendpacket) {
        outcome := Verdict(turn.reply);
      } else {
        var size := |file| - off;
        if size > maxdata {
          size := maxdata;
        }
        outcome := Good;
        if size > 0 || finalZero {
          SendsNext(all, sent, turns, file, off, finalZero, maxdata, size);
          sendpacket := sendpacket + 1;
          sent := sent + [Packet(sendpacket, file[off..off + size])];
          off := off + size;
          finalZero := off == |file| && size == maxdata;
          worktodo := turn.placed;
          outcome := if turn.placed then Good else Lost;
        }
      }
    }
  }

  /** The whole file goes out if and only if every packet but the last was acknowledged and placed: the slave
      can stop the transfer at any point, and nothing else can. */
  lemma AllSentIffAcknowledged(file: seq<byte>, maxdata: nat, turns: nat -> Turn, outcome: Outcome, sent: seq<Packet>)
    requires Transfers(file, maxdata, turns, outcome, sent)
    ensures var n := |Packets(file, maxdata)|;
            sent == Packets(file, maxdata) <==> Asked(turns, n) && (n > 0 ==> Placed(turns, n - 1))
  {
    var n := |Packets(file, maxdata)|;
    if |sent| < n {
      assert Asked(turns, n) ==> turns(|sent|).reply == Ack(|sent|);
    }
  }

  /** How a transfer ends after k packets that were asked for and placed: each answer but the one waited for has its own
      ending, and the slave's own error is told only when it means that there is no such file. */
  lemma EndsAsAnswered(file: seq<byte>, maxdata: nat, turns: nat -> Turn, outcome: Outcome, sent: seq<Packet>, k: nat)
    requires Transfers(file, maxdata, turns, outcome, sent) && Asked(turns, k) && Placed(turns, k) && k <= |Packets(file, maxdata)|
    ensures turns(k).reply != Ack(k) ==> |sent| == k && sent == Packets(file, maxdata)[..k]
    ensures turns(k).reply.Ack? && turns(k).reply.number != k ==> outcome == Failed(7)
    ensures turns(k).reply.Error? ==> outcome == Failed(if turns(k).reply.code == 0x8001 then 10 else 5)
    ensures turns(k).reply.Data? || turns(k).reply.Odd? ==> outcome == Failed(3)
    ensures turns(k).reply.Silence? ==> outcome == Lost
    ensures turns(k).reply == Ack(k) && k < |Packets(file, maxdata)| && !turns(k).placed ==> |sent| == k + 1 && outcome == Lost
  {
    var m: nat := |sent|;
    assert m < k ==> turns(m).reply == Ack(m) && turns(m).placed;
    assert k < m ==> turns(k).reply == Ack(k);
    assert m > 0 && m <= k ==> turns(m - 1).placed;
  }

  /** After k packets that were asked for and placed, the slave says that it is busy. */
  ghost predicate BusyAfter(turns: nat -> Turn, k: nat) {
    Asked(turns, k) && Placed(turns, k) && turns(k).reply == Busy
  }

  /** The transfer stops where the slave is busy. */
  lemma StopsWhenBusy(file: seq<byte>, maxdata: nat, turns: nat -> Turn, outcome: Outcome, sent: seq<Packet>, k: nat)
    requires Transfers(file, maxdata, turns, outcome, sent) && BusyAfter(turns, k) && k <= |Packets(file, maxdata)|
    ensures |sent| == k && outcome == Good
  {
    var m: nat := |sent|;
    assert k < m ==> turns(k).reply == Ack(k);
    assert m < k ==> turns(m).reply == Ack(m);
  }

  /** A busy slave ends the transfer: the packet is taken back, but the loop is left all the same and the work
      counter stays positive.  So a good ending means the complete file if and only if the slave is not busy before
      all n packets are out; and the transfer ends well if and only if all of it is asked for, placed and
      acknowledged, or the slave is busy. */
  lemma BusyEndsTheTransfer(file: seq<byte>, maxdata: nat, turns: nat -> Turn, outcome: Outcome, sent: seq<Packet>, n: nat)
    requires Transfers(file, maxdata, turns, outcome, sent) && n == |Packets(file, maxdata)|
    ensures (outcome == Good ==> sent == Packets(file, maxdata)) <==> !exists k: nat :: k < n && BusyAfter(turns, k)
    ensures outcome == Good <==> (Asked(turns, n + 1) && Placed(turns, n)) || exists k: nat :: k <= n && BusyAfter(turns, k)
  {
    if k: nat :| k <= n && BusyAfter(turns, k) {
      StopsWhenBusy(file, maxdata, turns, outcome, sent, k);
    }
    if exists k: nat :: k < n && BusyAfter(turns, k) {
      var k: nat :| k < n && BusyAfter(turns, k);
      StopsWhenBusy(file, maxdata, turns, outcome, sent, k);
    }
    if Asked(turns, n + 1) && Placed(turns, n) {
      assert turns(|sent|).reply == Ack(|sent|);
      assert |sent| > 0 ==> turns(|sent| - 1).placed;
    }
    if outcome == Good && turns(|sent|).reply == Busy {
      assert BusyAfter(turns, |sent|);
    }
  }

  lemma BusyLooksLikeSuccess(turns: nat -> Turn, outcome: Outcome, sent: seq<Packet>)
    requires forall k: nat :: turns(k) == Turn(if k == 0 then Ack(0) else Busy, true)
    requires Transfers([7, 8, 9], 2, turns, outcome, sent)
    ensures outcome == Good && sent == [Packet(1, [7, 8])]
  {
    var all := Packets([7, 8, 9], 2);
    assert turns(1).reply == Busy;
    assert |sent| <= 1;
    assert |sent| > 0 by {
      assert turns(0).reply == Ack(0);
      assert |all| == 2 by { PacketCount([7, 8, 9], 0, 1, 2); }
    }
    assert all[0] == Packet(1, [7, 8]);
  }

  // ----- receiving -----

  /** `acks` packets have been acknowledged. */
  datatype Received = Received(outcome: Outcome, data: seq<byte>, acks: nat)

  /** What a receiver with `room` bytes makes of the packets from the i-th on, of which it has kept `got` so far:
      it wants them numbered i + 1, i + 2, ... and stops after the first one that is not full. */
  ghost function Accept(turns: nat -> Turn, i: nat, got: seq<byte>, room: nat, maxdata: nat): Received
    requires |got| <= room && maxdata > 0
    decreases room - |got|
  {
    match turns(i).reply
    case Data(packet) =>
      if packet.number != i + 1 || |got| + |packet.data| > room then Received(Failed(ERR_FOE_BUF2SMALL), got, i)
      else if !turns(i).placed then Received(Lost, got + packet.data, i)
      else if |packet.data| == maxdata then Accept(turns, i + 1, got + packet.data, room, maxdata)
      else Received(Good, got + packet.data, i + 1)
    case Error(_) => Received(Failed(ERR_FOE_ERROR), got, i)
    case Silence => Received(Lost, got, i)
    case _ => Received(Failed(ERR_PACKET_ERROR), got, i)
  }

  /** `ecx_FOEread` from the point where the read request has been placed; `acks` counts the acknowledgements
      that have been placed. */
  method Read(p: array<byte>, maxdata: nat, turns: nat -> Turn) returns (outcome: Outcome, dataread: nat, acks: nat)
    requires maxdata > 0
    modifies p
    ensures dataread <= p.Length && Received(outcome, p[..dataread], acks) == Accept(turns, 0, [], p.Length, maxdata)
  {
    var prevpacket: nat, worktodo := 0, true;
    dataread, acks := 0, 0;
    outcome := Good;
    ghost var result := Accept(turns, 0, [], p.Length, maxdata);
    while worktodo
      invariant dataread <= p.Length
      invariant result == if worktodo then Accept(turns, prevpacket, p[..dataread], p.Length, maxdata)
                          else Received(outcome, p[..dataread], acks)
      invariant worktodo ==> acks == prevpacket
      decreases worktodo, p.Length - dataread
    {
      worktodo := false;
      var turn := turns(prevpacket);
      match turn.reply {
        case Data(packet) =>
          prevpacket := prevpacket + 1;
          if packet.number == prevpacket && dataread + |packet.data| <= p.Length {
            Append(p, dataread, packet.data);
            dataread := dataread + |packet.data|;
            worktodo := |packet.data| == maxdata && turn.placed;
            outcome, acks := if turn.placed then Good else Lost, if turn.placed then packet.number else acks;
          } else {
            outcome := Failed(ERR_FOE_BUF2SMALL);
          }
        case Error(_) => outcome := Failed(ERR_FOE_ERROR);
        case Silence => outcome := Lost;
        case _ => outcome := Failed(ERR_PACKET_ERROR);
      }
    }
  }

  /** The first k turns brought packets numbered 1 to k, all full, which fit the buffer and were acknowledged. */
  ghost predicate InOrder(turns: nat -> Turn, k: nat, maxdata: nat) {
    forall j: nat :: j < k ==>
      turns(j).placed && turns(j).reply.Data? && turns(j).reply.packet.number == j + 1 && |turns(j).reply.packet.data| == maxdata
  }

  /** The data of these packets */
  ghost function Gathered(turns: nat -> Turn, k: nat, maxdata: nat): (s: seq<byte>)
    requires InOrder(turns, k, maxdata)
    ensures |s| == k * maxdata
  {
    if k == 0 then [] else Gathered(turns, k - 1, maxdata) + turns(k - 1).reply.packet.data
  }

  lemma {:induction false} AcceptsInOrder(turns: nat -> Turn, k: nat, room: nat, maxdata: nat)
    requires maxdata > 0 && InOrder(turns, k, maxdata) && k * maxdata <= room
    ensures Accept(turns, 0, [], room, maxdata) == Accept(turns, k, Gathered(turns, k, maxdata), room, maxdata)
  {
    if k > 0 {
      assert k * maxdata == (k - 1) * maxdata + maxdata;
      AcceptsInOrder(turns, k - 1, room, maxdata);
    }
  }

  /** How a reception ends after k packets in order: a packet is kept exactly if it has the next number and fits, and
      then acknowledged; one that is not full is the last; a wrong number is answered like a buffer that is too small. */
  lemma ReceivedAsSent(turns: nat -> Turn, k: nat, room: nat, maxdata: nat)
    requires maxdata > 0 && InOrder(turns, k, maxdata) && k * maxdata <= room
    ensures var r, got, reply := Accept(turns, 0, [], room, maxdata), Gathered(turns, k, maxdata), turns(k).reply;
      && (reply.Error? ==> r == Received(Failed(5), got, k))
      && (reply.Ack? || reply.Busy? || reply.Odd? ==> r == Received(Failed(3), got, k))
      && (reply.Silence? ==> r == Received(Lost, got, k))
      && (reply.Data? ==>
            var fits := reply.packet.number == k + 1 && k * maxdata + |reply.packet.data| <= room;
            && (!fits ==> r == Received(Failed(6), got, k))
            && (fits && !turns(k).placed ==> r == Received(Lost, got + reply.packet.data, k))
            && (fits && turns(k).placed && |reply.packet.data| != maxdata ==> r == Received(Good, got + reply.packet.data, k + 1)))
  {
    AcceptsInOrder(turns, k, room, maxdata);
  }

  // ----- both together -----

  /** The packets of a transfer arrive one by one, and after them nothing; every acknowledgement is placed. */
  ghost predicate Carries(turns: nat -> Turn, sent: seq<Packet>) {
    forall k: nat :: turns(k) == Turn(if k < |sent| then Data(sent[k]) else Silence, true)
  }

  /** The write request and every packet the receiver takes are acknowledged; after that nothing comes back. */
  ghost predicate Acknowledges(turns: nat -> Turn, acks: nat) {
    forall k: nat :: turns(k) == Turn(if k <= acks then Ack(k) else Silence, true)
  }

  /** A receiver with enough room takes every packet that is sent. */
  lemma {:induction false} TakesWhatIsSent(file: seq<byte>, off: nat, all: seq<Packet>, sent: seq<Packet>, i: nat, turns: nat -> Turn, room: nat, maxdata: nat)
    requires off <= |file| <= room && maxdata > 0 && Carries(turns, sent) && Prefix(sent, all)
    requires i <= |sent| && i < |all| && all[i..] == PacketsFrom(file, off, i + 1, maxdata)
    ensures Accept(turns, i, file[..off], room, maxdata).acks == |sent|
    ensures sent == all ==> Accept(turns, i, file[..off], room, maxdata) == Received(Good, file, |all|)
    decreases |file| - off
  {
    assert turns(i).reply == if i < |sent| then Data(sent[i]) else Silence;
    assert all[i] == all[i..][0];
    if i == |sent| {
    } else if |file| - off < maxdata {
      assert file[..off] + file[off..] == file;
    } else {
      assert file[..off] + file[off..off + maxdata] == file[..off + maxdata];
      assert all[i + 1..] == all[i..][1..];
      TakesWhatIsSent(file, off + maxdata, all, sent, i + 1, turns, room, maxdata);
    }
  }

  lemma {:induction false} NeverTooMuch(turns: nat -> Turn, i: nat, got: seq<byte>, room: nat, maxdata: nat)
    requires |got| <= room && maxdata > 0
    ensures |Accept(turns, i, got, room, maxdata).data| <= room
    decreases room - |got|
  {
    if turns(i).reply.Data? {
      var data := turns(i).reply.packet.data;
      if |got| + |data| <= room && |data| == maxdata {
        NeverTooMuch(turns, i + 1, got + data, room, maxdata);
      }
    }
  }

  /** Main result: when the two sides talk to each other, the sender ends well and the receiver ends well with
      exactly the file, if and only if the file is not empty and fits; an empty file never gets across. */
  lemma FileArrivesIffItFits(file: seq<byte>, maxdata: nat, room: nat, outcome: Outcome, sent: seq<Packet>,
                             out: nat -> Turn, back: nat -> Turn)
    requires maxdata > 0 && Transfers(file, maxdata, back, outcome, sent) && Carries(out, sent)
    requires Acknowledges(back, Accept(out, 0, [], room, maxdata).acks)
    ensures outcome == Good && Accept(out, 0, [], room, maxdata) == Received(Good, file, |Packets(file, maxdata)|)
            <==> file != [] && |file| <= room
  {
    if file == [] {
      assert out(0).reply == Silence;
    } else if |file| <= room {
      var all := Packets(file, maxdata);
      assert all[0..] == all && file[..0] == [];
      TakesWhatIsSent(file, 0, all, sent, 0, out, room, maxdata);
      assert back(|sent|).reply == Ack(|sent|);
      assert |sent| > 0 ==> back(|sent| - 1).placed;
    } else {
      NeverTooMuch(out, 0, [], room, maxdata);
    }
  }
}
