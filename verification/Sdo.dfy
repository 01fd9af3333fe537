/** CANopen over EtherCAT: writing an object to a slave in one or several mailboxes (`ecx_SDOwrite`);
    section 7.2.4.3 of CiA 301. */
module Sdo {
  import opened Mailbox

  /** Mailbox bytes behind the command byte. */
  const BODY: nat := 1478
  const MAXMBX: nat := 1486

  const COES_SDOREQ: nat := 2
  const COES_SDORES: nat := 3
  const SDO_DOWN_INIT: byte := 0x21
  const SDO_DOWN_EXP: byte := 0x23
  const SDO_DOWN_INIT_CA: byte := 0x31

  function Zeros(n: nat): (r: seq<byte>)
    ensures |r| == n
  {
    seq(n, i => 0)
  }

  type Body = s: seq<byte> | |s| == BODY witness Zeros(BODY)

  /** `body` starts with index, subindex and the four bytes of the first data word; a segment's data starts
      right at the beginning of it. */
  datatype Message = Message(mbxtype: nat, length: nat, service: nat, command: byte, body: Body)

  function Long(x: nat): (r: seq<byte>)
    requires x < 0x1_0000_0000
    ensures |r| == 4
  {
    [x % 256, x / 256 % 256, x / 65536 % 256, x / 16777216]
  }

  function Head(index: nat, subindex: byte, word: seq<byte>): (r: seq<byte>)
    requires index < 65536 && |word| <= 4
    ensures |r| == 3 + |word|
  {
    [index % 256, index / 256, subindex] + word
  }

  // ----- the messages of a download -----

  /** One object on its way; `maxdata` is the mailbox length less 16. */
  datatype Job = Job(index: nat, subindex: byte, ca: bool, data: seq<byte>, maxdata: nat) {
    predicate Valid() { index < 65536 && |data| < 0x8000_0000 && maxdata <= MAXMBX - 16 }
    predicate Expedited() { |data| <= 4 && !ca }
    /** With complete access only subindex 0 and 1 exist. */
    function Sub(): byte { if ca && subindex > 1 then 1 else subindex }
    function FirstSize(): nat { if |data| > maxdata then maxdata else |data| }
  }

  type Object = o: Job | o.Valid() witness Job(0, 0, false, [], 0)

  function Expedited(o: Object, cnt: nat): Message
    requires o.Expedited()
  {
    Message(MBXT_COE + cnt * 16, 10, COES_SDOREQ, SDO_DOWN_EXP + (4 - |o.data|) * 4 % 16,
            Splice(Zeros(BODY), 0, Head(o.index, o.subindex, o.data)))
  }

  function Initial(o: Object, cnt: nat): Message {
    Message(MBXT_COE + cnt * 16, 10 + o.FirstSize(), COES_SDOREQ, if o.ca then SDO_DOWN_INIT_CA else SDO_DOWN_INIT,
            Splice(Splice(Zeros(BODY), 0, Head(o.index, o.Sub(), Long(|o.data|))), 7, o.data[..o.FirstSize()]))
  }

  /** Size of the segment that starts at `off`. */
  function SegmentSize(o: Object, off: nat): (n: nat)
    requires off <= |o.data|
    ensures off + n <= |o.data| && n <= o.maxdata + 7
  {
    if |o.data| - off > o.maxdata + 7 then o.maxdata + 7 else |o.data| - off
  }

  predicate IsLast(o: Object, off: nat)
    requires off <= |o.data|
  {
    |o.data| - off <= o.maxdata + 7
  }

  /** The command says whether more follows and how many of seven bytes a short last segment leaves unused. */
  function SegmentCommand(last: bool, n: nat, toggle: bool): byte {
    (if !last then 0 else if n < 7 then 1 + (7 - n) * 2 else 1) + (if toggle then 0x10 else 0)
  }

  /** A segment; the mailbox is not cleared in between, so `body` shows through behind the data. */
  function Segment(o: Object, off: nat, toggle: bool, cnt: nat, body: Body): Message
    requires off <= |o.data|
  {
    var n := SegmentSize(o, off);
    Message(MBXT_COE + cnt * 16, if IsLast(o, off) && n < 7 then 10 else n + 3, COES_SDOREQ,
            SegmentCommand(IsLast(o, off), n, toggle), Splice(body, 0, o.data[off..off + n]))
  }

  /** What a segment says, byte by byte: at least ten bytes are announced, and the last one tells how many of its seven
      data bytes are unused; behind the data the mailbox is as it was. */
  lemma SegmentBytes(o: Object, off: nat, toggle: bool, cnt: nat, body: Body, n: nat, last: bool)
    requires off <= |o.data| && last == (|o.data| - off <= o.maxdata + 7) && n == if last then |o.data| - off else o.maxdata + 7
    ensures var m := Segment(o, off, toggle, cnt, body);
      && m.mbxtype == 3 + 16 * cnt && m.service == 2 && m.length == (if last && n < 7 then 10 else n + 3)
      && m.command == (if !last then 0 else if n < 7 then 1 + 2 * (7 - n) else 1) + (if toggle then 16 else 0)
      && m.body[..n] == o.data[off..off + n] && m.body[n..] == body[n..]
  {
    SplicedFront(body, o.data[off..off + n]);
  }

  lemma SplicedFront(body: Body, data: seq<byte>)
    requires |data| <= BODY
    ensures Splice(body, 0, data)[..|data|] == data && Splice(body, 0, data)[|data|..] == body[|data|..]
  {
    assert Splice(body, 0, data)[..|data|] == Splice(body, 0, data)[0..0 + |data|];
  }

  ghost function Segments(o: Object, off: nat, toggle: bool, cnt: nat, body: Body): (s: seq<Message>)
    requires off <= |o.data|
    ensures |s| > 0
    decreases |o.data| - off
  {
    var m := Segment(o, off, toggle, NextMbxCnt(cnt), body);
    if IsLast(o, off) then [m] else [m] + Segments(o, off + SegmentSize(o, off), !toggle, NextMbxCnt(cnt), m.body)
  }

  /** The toggle bit alternates, the last flag is set on the last segment alone. */
  lemma {:induction false} TogglesAndEndsOnce(o: Object, off: nat, toggle: bool, cnt: nat, body: Body, k: nat)
    requires off <= |o.data| && k < |Segments(o, off, toggle, cnt, body)|
    ensures var s := Segments(o, off, toggle, cnt, body);
            s[k].command / 16 % 2 == (if toggle then k + 1 else k) % 2 && (s[k].command % 2 == 1 <==> k == |s| - 1)
    decreases |o.data| - off
  {
    if k > 0 {
      var m := Segment(o, off, toggle, NextMbxCnt(cnt), body);
      TogglesAndEndsOnce(o, off + SegmentSize(o, off), !toggle, NextMbxCnt(cnt), m.body, k - 1);
    }
  }

  /** All messages of the download, when every exchange succeeds. */
  ghost function Download(o: Object, cnt: nat): (s: seq<Message>)
    ensures |s| > 0
  {
    if o.Expedited() then [Expedited(o, NextMbxCnt(cnt))] else LongDownload(o, NextMbxCnt(cnt))
  }

  ghost function LongDownload(o: Object, cnt: nat): (s: seq<Message>)
    ensures |s| > 0 && s[0] == Initial(o, cnt)
  {
    var m := Initial(o, cnt);
    if |o.data| <= o.maxdata then [m] else [m] + Segments(o, o.FirstSize(), false, cnt, m.body)
  }

  /** Index and subindex of an object stand in the first three bytes, the lower half of the index first. */
  ghost predicate Addresses(b: Body, index: nat, subindex: nat) {
    (b[0] as int) + 256 * (b[1] as int) == index && b[2] == subindex
  }

  /** The four bytes behind hold a length, the lowest one first. */
  ghost predicate LengthAt3(b: Body, n: nat) {
    (b[3] as int) + 256 * (b[4] as int) + 65536 * (b[5] as int) + 16777216 * (b[6] as int) == n
  }

  /** What the first message of a download says, byte by byte: which object is written, with complete access only
      subindex 0 or 1; then up to four bytes of data and how many of the four are unused, or the length of the object
      and as much of it as there is room for. */
  ghost predicate Announces(m: Message, o: Object) {
    match m
    case Message(mbxtype, length, service, command, b) =>
      var sub, n := if o.ca && o.subindex > 1 then 1 else o.subindex, if |o.data| > o.maxdata then o.maxdata else |o.data|;
      && Addresses(b, o.index, sub) && mbxtype % 16 == 3 && service == 2
      && if |o.data| <= 4 && !o.ca then
           && length == 10 && command == (if o.data == [] then 0x23 else 0x23 + 4 * (4 - |o.data|))
           && b[3..3 + |o.data|] == o.data && Cleared(b, 3 + |o.data|)
         else
           && length == 10 + n && command == (if o.ca then 0x31 else 0x21)
           && LengthAt3(b, |o.data|) && b[7..7 + n] == o.data[..n] && Cleared(b, 7 + n)
  }

  ghost predicate Cleared(b: Body, from: nat) {
    forall k :: from <= k < BODY ==> b[k] == 0
  }

  lemma LongBytes(x: nat)
    requires x < 0x1_0000_0000
    ensures x == x % 256 + 256 * (x / 256 % 256) + 65536 * (x / 65536 % 256) + 16777216 * (x / 16777216)
  {
    assert x / 256 / 256 == x / 65536 && x / 65536 / 256 == x / 16777216;
  }

  lemma HeadStands(b: Body, index: nat, subindex: byte, word: seq<byte>)
    requires index < 65536 && |word| <= 4 && b[..3 + |word|] == Head(index, subindex, word)
    ensures Addresses(b, index, subindex) && b[3..3 + |word|] == word
  {
    var head := Head(index, subindex, word);
    assert b[0] == head[0] && b[1] == head[1] && b[2] == head[2];
    assert b[3..3 + |word|] == head[3..];
  }

  lemma LengthStands(b: Body, n: nat)
    requires n < 0x1_0000_0000 && b[3..7] == Long(n)
    ensures LengthAt3(b, n)
  {
    LongBytes(n);
    var word := b[3..7];
    assert b[3] == word[0] && b[4] == word[1] && b[5] == word[2] && b[6] == word[3];
  }

  lemma ExpeditedAnnounces(o: Object, cnt: nat)
    requires o.Expedited()
    ensures Announces(Expedited(o, cnt), o)
  {
    var b, n := Expedited(o, cnt).body, 3 + |o.data|;
    assert b[..n] == b[0..0 + n];
    HeadStands(b, o.index, o.subindex, o.data);
  }

  lemma InitialAnnounces(o: Object, cnt: nat)
    requires !o.Expedited()
    ensures Announces(Initial(o, cnt), o)
  {
    var head, b := Head(o.index, o.Sub(), Long(|o.data|)), Initial(o, cnt).body;
    InitialBody(o, cnt, head, b);
    HeadStands(b, o.index, o.Sub(), Long(|o.data|));
    LengthStands(b, |o.data|);
  }

  lemma InitialBody(o: Object, cnt: nat, head: seq<byte>, b: Body)
    requires head == Head(o.index, o.Sub(), Long(|o.data|)) && b == Initial(o, cnt).body
    ensures b[..7] == head && b[7..7 + o.FirstSize()] == o.data[..o.FirstSize()] && Cleared(b, 7 + o.FirstSize())
  {
    var start := Splice(Zeros(BODY), 0, head);
    assert start[..7] == start[0..0 + |head|];
  }

  // ----- the code -----

  /** The outcome of one mailbox exchange: nothing came back, or an answer did. */
  datatype Reply = NoReply | Reply(m: Message)

  predicate IsResponse(m: Message) {
    m.mbxtype % 16 == MBXT_COE && m.service == COES_SDORES
  }

  ghost predicate Confirmed(r: Reply, o: Object) {
    match r
    case NoReply => false
    case Reply(m) =>
      m.mbxtype % 16 == 3 && m.service == 3 && Addresses(m.body, o.index, if o.ca && o.subindex > 1 then 1 else o.subindex)
  }

  ghost predicate SegmentConfirmed(r: Reply) {
    match r
    case NoReply => false
    case Reply(m) => m.mbxtype % 16 == 3 && m.service == 3 && m.command / 32 == 1
  }

  /** An answer to the first message is a CoE response that repeats index and subindex. */
  lemma ConfirmsIff(r: Reply, o: Object, m: Message)
    requires Announces(m, o)
    ensures Confirms(r, m.body) <==> Confirmed(r, o)
  {
    var a, b := m.body[..3], if r.Reply? then r.m.body[..3] else [];
    assert a[0] == m.body[0] && a[1] == m.body[1] && a[2] == m.body[2];
    if r.Reply? {
      assert b[0] == r.m.body[0] && b[1] == r.m.body[1] && b[2] == r.m.body[2];
      TwoBytes(m.body[0], m.body[1], r.m.body[0], r.m.body[1]);
    }
  }

  lemma TwoBytes(a: byte, b: byte, c: byte, d: byte)
    ensures a + 256 * b == c + 256 * d <==> a == c && b == d
  {
  }

  /** The answer to a first message repeats index and subindex. */
  predicate Confirms(r: Reply, body: Body) {
    r.Reply? && IsResponse(r.m) && r.m.body[..3] == body[..3]
  }

  predicate ConfirmsSegment(r: Reply) {
    r.Reply? && IsResponse(r.m) && r.m.command / 32 == 1
  }

  /** No wrong answer among the first n; answers may be missing. */
  ghost predicate NoneRefused(exchange: nat -> Reply, n: nat) {
    forall k: nat :: k < n ==> exchange(k).NoReply? || ConfirmsSegment(exchange(k))
  }

  /** When the segment loop ends well: nothing was refused and the last segment was confirmed. */
  ghost predicate EndsWell(exchange: nat -> Reply, n: nat) {
    n > 0 && NoneRefused(exchange, n) && ConfirmsSegment(exchange(n - 1))
  }

  ghost predicate AllConfirmed(exchange: nat -> Reply, n: nat) {
    forall k: nat :: k < n ==> ConfirmsSegment(exchange(k))
  }

  /** A good ending means that every segment was confirmed, unless one before the last was never answered while
      nothing was refused and the last one was confirmed. */
  lemma GoodMeansConfirmedIff(exchange: nat -> Reply, n: nat)
    requires n > 0
    ensures (EndsWell(exchange, n) ==> AllConfirmed(exchange, n)) <==>
            !((exists k: nat :: k < n - 1 && exchange(k).NoReply?) && NoneRefused(exchange, n - 1) && ConfirmsSegment(exchange(n - 1)))
  {
    if (exists k: nat :: k < n - 1 && exchange(k).NoReply?) && NoneRefused(exchange, n - 1) && ConfirmsSegment(exchange(n - 1)) {
      var k: nat :| k < n - 1 && exchange(k).NoReply?;
      assert !ConfirmsSegment(exchange(k));
    }
  }

  /** From position n on `all` holds the segments from `off` on. */
  ghost predicate Ahead(all: seq<Message>, n: nat, o: Object, off: nat, toggle: bool, cnt: nat, body: Body) {
    off <= |o.data| && n < |all| && all[n..] == Segments(o, off, toggle, cnt, body)
  }

  lemma OneFurther(all: seq<Message>, sent: seq<Message>, n: nat, o: Object, off: nat, toggle: bool, cnt: nat, body: Body, m: Message)
    requires Ahead(all, n, o, off, toggle, cnt, body) && m == Segment(o, off, toggle, NextMbxCnt(cnt), body)
    requires Prefix(sent, all) && |sent| == n
    ensures Prefix(sent + [m], all)
    ensures if IsLast(o, off) then n + 1 == |all| && sent + [m] == all
            else Ahead(all, n + 1, o, off + SegmentSize(o, off), !toggle, NextMbxCnt(cnt), m.body)
  {
    assert all[n] == all[n..][0];
    assert all[n + 1..] == all[n..][1..];
  }

  /** The first message with the segments sent so far is a beginning of the whole. */
  lemma InitialAnd(o: Object, cnt: nat, m: Message, rest: seq<Message>, segments: seq<Message>, all: seq<Message>)
    requires |o.data| > o.maxdata && m == Initial(o, cnt) && all == LongDownload(o, cnt)
    requires segments == Segments(o, o.maxdata, false, cnt, m.body) && Prefix(rest, segments)
    ensures Prefix([m] + rest, all) && |all| == 1 + |segments| && (rest == segments ==> [m] + rest == all)
  {
    assert all[..1 + |rest|] == [m] + segments[..|rest|];
  }

  /** After the answer to segment `n` of `total` the loop goes on with nothing refused, or has ended as it should. */
  lemma OneAnswer(exchange: nat -> Reply, n: nat, total: nat, r: Reply, ok: bool)
    requires n < total && NoneRefused(exchange, n) && r == exchange(n) && ok == ConfirmsSegment(r)
    ensures if n + 1 < total && (ok || r.NoReply?) then NoneRefused(exchange, n + 1) else ok <==> EndsWell(exchange, total)
  {
  }

  class Master {
    const mbxl: nat
    var mbxcnt: nat

    constructor (mbxl: nat)
      ensures this.mbxl == mbxl
    {
      this.mbxl := mbxl;
      mbxcnt := 0;
    }

    predicate Carries(o: Object) { o.maxdata + 16 == mbxl }

    method NextCount() returns (cnt: nat)
      modifies this
      ensures cnt == mbxcnt == NextMbxCnt(old(mbxcnt))
    {
      cnt := NextMbxCnt(mbxcnt);
      mbxcnt := cnt;
    }

    /** The message for one turn of the segment loop */
    method MakeSegment(o: Object, off: nat, toggle: bool, body: Body) returns (m: Message, size: nat, notLast: bool)
      requires Carries(o) && off <= |o.data|
      modifies this
      ensures mbxcnt == NextMbxCnt(old(mbxcnt)) && m == Segment(o, off, toggle, mbxcnt, body)
      ensures size == SegmentSize(o, off) && notLast == !IsLast(o, off)
      ensures var left, room := |o.data| - off, mbxl - 9; size == (if left > room then room else left) && (notLast <==> left > room)
    {
      var maxdata := mbxl - 16 + 7;
      size, notLast := |o.data| - off, false;
      var command: byte := 0x01;
      if size > maxdata {
        size, notLast, command := maxdata, true, 0x00;
      }
      var length: nat;
      if !notLast && size < 7 {
        length, command := 10, 0x01 + (7 - size) * 2;
      } else {
        length := size + 3;
      }
      assert size == SegmentSize(o, off) && notLast == !IsLast(o, off);
      command := command + if toggle then 0x10 else 0;
      assert command == SegmentCommand(!notLast, size, toggle) && length == if IsLast(o, off) && size < 7 then 10 else size + 3;
      var cnt := NextCount();
      m := Message(MBXT_COE + cnt * 16, length, COES_SDOREQ, command,
                   Splice(body, 0, o.data[off..off + size]));
    }

    /** The segment loop.  It goes on when no answer comes and ends early only on a wrong one. */
    method WriteSegments(o: Object, first: Body, exchange: nat -> Reply) returns (ok: bool, sent: seq<Message>)
      requires Carries(o) && |o.data| > o.maxdata
      modifies this
      ensures Prefix(sent, Segments(o, o.maxdata, false, old(mbxcnt), first))
      ensures ok <==> EndsWell(exchange, |Segments(o, o.maxdata, false, old(mbxcnt), first)|)
      ensures ok ==> sent == Segments(o, o.maxdata, false, old(mbxcnt), first) && SegmentConfirmed(exchange(|sent| - 1))
    {
      var off: nat, toggle, notLast, body := o.maxdata, false, true, first;
      ok, sent := true, [];
      ghost var all := Segments(o, off, false, mbxcnt, first);
      while notLast
        invariant off <= |o.data| && Prefix(sent, all)
        invariant notLast ==> Ahead(all, |sent|, o, off, toggle, mbxcnt, body)
        invariant notLast ==> NoneRefused(exchange, |sent|)
        invariant !notLast ==> (ok <==> EndsWell(exchange, |all|)) && (ok ==> sent == all)
        decreases |o.data| - off, notLast
      {
        var r := exchange(|sent|);
        ghost var cnt := mbxcnt;
        var m, size, more := MakeSegment(o, off, toggle, body);
        OneFurther(all, sent, |sent|, o, off, toggle, cnt, body, m);
        sent, off, body := sent + [m], off + size, m.body;
        ok := ConfirmsSegment(r);
        OneAnswer(exchange, |sent| - 1, |all|, r, ok);
        notLast := more && (ok || r.NoReply?);
        toggle := !toggle;
      }
    }

    /** The only message, with the data in it */
    method MakeExpedited(o: Object, cnt: nat) returns (m: Message)
      requires Carries(o) && o.Expedited()
      ensures m == Expedited(o, cnt) && Announces(m, o)
    {
      m := Message(MBXT_COE + cnt * 16, 10, COES_SDOREQ, SDO_DOWN_EXP + (4 - |o.data|) * 4 % 16,
                   Splice(Zeros(BODY), 0, Head(o.index, o.subindex, o.data)));
      ExpeditedAnnounces(o, cnt);
    }

    /** The first message, with as much data as fits */
    method MakeInitial(o: Object, cnt: nat) returns (m: Message, notLast: bool)
      requires Carries(o)
      ensures m == Initial(o, cnt) && notLast == (|o.data| > o.maxdata)
      ensures !o.Expedited() ==> Announces(m, o)
    {
      if !o.Expedited() { InitialAnnounces(o, cnt); }
      var maxdata, size := mbxl - 16, |o.data|;
      notLast := false;
      if size > maxdata {
        size, notLast := maxdata, true;
      }
      var sub: byte := if o.ca && o.subindex > 1 then 1 else o.subindex;
      var head := Splice(Zeros(BODY), 0, Head(o.index, sub, Long(|o.data|)));
      m := Message(MBXT_COE + cnt * 16, 10 + size, COES_SDOREQ, if o.ca then SDO_DOWN_INIT_CA else SDO_DOWN_INIT,
                   Splice(head, 7, o.data[..size]));
    }

    /** `ecx_SDOwrite`; `first` and `exchange(k)` are what comes back for the first message and for the k-th
        segment.  What is sent is always a beginning of the complete download, and it is all of it
        when the call succeeds.  Only the first and the last message have to be confirmed for that. */
    method Write(o: Object, first: Reply, exchange: nat -> Reply) returns (ok: bool, sent: seq<Message>)
      requires Carries(o)
      modifies this
      ensures sent != [] && Prefix(sent, Download(o, old(mbxcnt)))
      ensures ok <==> Confirms(first, sent[0].body)
                      && (|Download(o, old(mbxcnt))| > 1 ==> EndsWell(exchange, |Download(o, old(mbxcnt))| - 1))
      ensures ok ==> sent == Download(o, old(mbxcnt))
      ensures Announces(sent[0], o)
      ensures ok ==> Confirmed(first, o)
      ensures ok && |sent| > 1 ==> SegmentConfirmed(exchange(|sent| - 2))
    {
      var cnt := NextCount();
      if |o.data| <= 4 && !o.ca {
        var m := MakeExpedited(o, cnt);
        ConfirmsIff(first, o, m);
        assert Download(o, old(mbxcnt)) == [m];
        return Confirms(first, m.body), [m];
      }
      ok, sent := WriteLong(o, cnt, first, exchange);
    }

    /** A normal or segmented download */
    method WriteLong(o: Object, cnt: nat, first: Reply, exchange: nat -> Reply) returns (ok: bool, sent: seq<Message>)
      requires Carries(o) && !o.Expedited() && mbxcnt == cnt
      modifies this
      ensures sent != [] && Prefix(sent, LongDownload(o, cnt)) && Announces(sent[0], o)
      ensures ok <==> Confirms(first, sent[0].body) && (|LongDownload(o, cnt)| > 1 ==> EndsWell(exchange, |LongDownload(o, cnt)| - 1))
      ensures ok ==> sent == LongDownload(o, cnt)
      ensures ok ==> Confirmed(first, o) && (|sent| > 1 ==> SegmentConfirmed(exchange(|sent| - 2)))
    {
      ghost var all := LongDownload(o, cnt);
      var m, notLast := MakeInitial(o, cnt);
      ConfirmsIff(first, o, m);
      ok, sent := Confirms(first, m.body), [m];
      if ok && notLast {
        var rest;
        ok, rest := WriteSegments(o, m.body, exchange);
        InitialAnd(o, cnt, m, rest, Segments(o, o.maxdata, false, cnt, m.body), all);
        sent := sent + rest;
      }
    }
  }
}
