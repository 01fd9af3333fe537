/** CANopen over EtherCAT: reading an object from a slave (`ecx_SDOread`), and what it makes of the messages of
    a download.  The upload requests themselves are not part of this model, only the answers to them. */
module SdoRead {
  import opened Mailbox
  import opened Sdo

  /** `Stalled`: the segment loop is left by an answer only, so without one the call does not return.
      `Overrun`: the C code writes behind the buffer it was given. */
  datatype Status = Done | NoAnswer | Unexpected | TooSmall | Stalled | Overrun

  function LongOf(body: Body): nat {
    var b: seq<int> := body[3..7];
    b[0] + 256 * b[1] + 65536 * b[2] + 16777216 * b[3]
  }

  /** The length field less what is not data, in 16 bits */
  function Payload(m: Message, overhead: nat): nat
    requires overhead <= 65536
  {
    (m.length + 65536 - overhead) % 65536
  }

  function IsSegment(m: Message): bool {
    IsResponse(m) && m.command / 32 == 0
  }

  /** How many bytes of a segment are data */
  function Useful(m: Message): nat {
    var n := Payload(m, 3);
    if m.command % 2 == 1 && n == 7 then n - m.command / 2 % 8 else n
  }

  /** The segments from the i-th on, when `got` is already in a buffer of `room` bytes; second part: what is in
      the buffer in the end. */
  function ReadRest(rest: seq<Message>, i: nat, got: seq<byte>, room: nat): (Status, seq<byte>)
    requires i <= |rest|
    decreases |rest| - i
  {
    if i == |rest| then (Stalled, got)
    else if !IsSegment(rest[i]) then (Unexpected, got)
    else if Useful(rest[i]) > BODY || |got| + Useful(rest[i]) > room then (Overrun, got)
    else
      var more := got + rest[i].body[..Useful(rest[i])];
      if rest[i].command % 2 == 1 then (Done, more) else ReadRest(rest, i + 1, more, room)
  }

  /** The bytes of the first `n` segments */
  function Bytes(rest: seq<Message>, n: nat): nat
    requires n <= |rest|
  {
    if n == 0 then 0 else Bytes(rest, n - 1) + Useful(rest[n - 1])
  }

  /** Segment `k` has room, in the mailbox and behind what `start` and the segments before it take of the buffer. */
  predicate Roomy(rest: seq<Message>, start: nat, room: nat, k: nat)
    requires k < |rest|
  {
    Useful(rest[k]) <= BODY && start + Bytes(rest, k + 1) <= room
  }

  /** The first `n` answers are segments with room, none of them the last of the object. */
  ghost predicate GoesOn(rest: seq<Message>, start: nat, room: nat, n: nat)
    requires n <= |rest|
  {
    forall k :: 0 <= k < n ==> IsSegment(rest[k]) && Roomy(rest, start, room, k) && rest[k].command % 2 == 0
  }

  /** The segment loop writes behind the buffer if and only if segments that go on are followed by one without room. */
  ghost predicate Overruns(rest: seq<Message>, start: nat, room: nat) {
    exists n :: 0 <= n < |rest| && OverrunsAt(rest, start, room, n)
  }

  ghost predicate OverrunsAt(rest: seq<Message>, start: nat, room: nat, n: nat)
    requires n < |rest|
  {
    GoesOn(rest, start, room, n) && IsSegment(rest[n]) && !Roomy(rest, start, room, n)
  }

  lemma {:induction false} HowTheLoopEnds(rest: seq<Message>, i: nat, got: seq<byte>, start: nat, room: nat)
    requires i <= |rest| && |got| == start + Bytes(rest, i) && GoesOn(rest, start, room, i)
    ensures ReadRest(rest, i, got, room).0 == Stalled <==> GoesOn(rest, start, room, |rest|)
    ensures ReadRest(rest, i, got, room).0 == Overrun <==> Overruns(rest, start, room)
    decreases |rest| - i
  {
    if i < |rest| && IsSegment(rest[i]) && Roomy(rest, start, room, i) && rest[i].command % 2 == 0 {
      HowTheLoopEnds(rest, i + 1, got + rest[i].body[..Useful(rest[i])], start, room);
    } else if i < |rest| {
      if n :| 0 <= n < |rest| && OverrunsAt(rest, start, room, n) { assert n == i; }
      if IsSegment(rest[i]) && !Roomy(rest, start, room, i) { assert OverrunsAt(rest, start, room, i); }
    }
  }

  /** A segment of an upload by its fields: a CoE response with command specifier 0 */
  ghost predicate OfUpload(m: Message) { m.mbxtype % 16 == 3 && m.service == 3 && m.command / 32 == 0 }

  /** What one more answer does in the segment loop.  A segment brings as many bytes as its length field says; only the
      last one, and only when it is of the least length, says in its command how many of its seven bytes are unused. */
  lemma SegmentDecides(rest: seq<Message>, i: nat, got: seq<byte>, room: nat, n: nat, last: bool)
    requires i < |rest| && last == (rest[i].command % 2 == 1)
    requires var whole := (rest[i].length + 65533) % 65536; n == if last && whole == 7 then 7 - rest[i].command / 2 % 8 else whole
    ensures !OfUpload(rest[i]) ==> ReadRest(rest, i, got, room) == (Unexpected, got)
    ensures OfUpload(rest[i]) && (n > 1478 || |got| + n > room) ==> ReadRest(rest, i, got, room) == (Overrun, got)
    ensures OfUpload(rest[i]) && n <= 1478 && |got| + n <= room ==>
      ReadRest(rest, i, got, room) == if last then (Done, got + rest[i].body[..n]) else ReadRest(rest, i + 1, got + rest[i].body[..n], room)
  {
  }

  function ReadNormal(m: Message, rest: seq<Message>, room: nat): (Status, seq<byte>) {
    var len, size := LongOf(m.body), Payload(m, 10);
    if len >= 0x8000_0000 then (Overrun, [])
    else if len > room then (TooSmall, [])
    else if 7 + (if size < len then size else len) > BODY then (Overrun, [])
    else if size < len then ReadRest(rest, 0, m.body[7..7 + size], room)
    else (Done, m.body[7..7 + len])
  }

  function ReadObject(index: nat, first: Reply, rest: seq<Message>, room: nat): (Status, seq<byte>)
    requires index < 65536
  {
    if first.NoReply? then (NoAnswer, [])
    else if !IsResponse(first.m) || first.m.body[..2] != Head(index, 0, [])[..2] then (Unexpected, [])
    else if first.m.command / 2 % 2 == 1 then
      var size := 4 - first.m.command / 4 % 4;
      if room >= size then (Done, first.m.body[3..3 + size]) else (TooSmall, [])
    else ReadNormal(first.m, rest, room)
  }

  /** The bytes behind index and subindex are a little-endian number, and the first two are the index. */
  lemma FieldsOfBody(b: Body, index: nat, n: nat)
    requires index < 65536
    ensures b[..2] == Head(index, 0, [])[..2] <==> (b[0] as int) + 256 * (b[1] as int) == index
    ensures n == LongOf(b) <==> LengthAt3(b, n)
  {
    var head, a, word: seq<int> := Head(index, 0, [])[..2], b[..2], b[3..7];
    assert a[0] == b[0] && a[1] == b[1] && head[0] == index % 256 && head[1] == index / 256;
    assert word[0] == b[3] && word[1] == b[4] && word[2] == b[5] && word[3] == b[6];
    if (b[0] as int) + 256 * (b[1] as int) == index {
      assert a == head;
    }
  }

  /** What the first answer decides, by its fields: it has to be a CoE response for the index asked for; then it holds
      up to four bytes, or a length and what there is room for of the data.  The subindex it repeats is not looked at. */
  lemma FirstAnswerDecides(index: nat, first: Reply, rest: seq<Message>, room: nat, len: nat, size: nat)
    requires index < 65536
    requires first.Reply? ==> LengthAt3(first.m.body, len) && size == (first.m.length + 65526) % 65536
    ensures var r := ReadObject(index, first, rest, room);
      match first
      case NoReply => r == (NoAnswer, [])
      case Reply(m) =>
        if m.mbxtype % 16 != 3 || m.service != 3 || (m.body[0] as int) + 256 * (m.body[1] as int) != index then r == (Unexpected, [])
        else if m.command / 2 % 2 == 1 then
          var n := 4 - m.command / 4 % 4;
          r == if n <= room then (Done, m.body[3..3 + n]) else (TooSmall, [])
        else if len >= 0x8000_0000 then r == (Overrun, [])
        else if len > room then r == (TooSmall, [])
        else if 7 + size > 1478 && 7 + len > 1478 then r == (Overrun, [])
        else if size < len then r == ReadRest(rest, 0, m.body[7..7 + size], room)
        else r == (Done, m.body[7..7 + len])
  {
    if first.Reply? { FieldsOfBody(first.m.body, index, len); }
  }

  // ----- the code -----

  method ReadSegments(p: array<byte>, start: nat, rest: seq<Message>) returns (status: Status, psize: nat)
    requires start <= p.Length
    modifies p
    ensures start <= psize <= p.Length && (status, p[..psize]) == ReadRest(rest, 0, old(p[..start]), p.Length)
    ensures Untouched(p[..], old(p[..]), psize)
  {
    var i := 0;
    psize := start;
    ghost var result := ReadRest(rest, 0, p[..start], p.Length);
    while i < |rest|
      invariant i <= |rest| && start <= psize <= p.Length
      invariant result == ReadRest(rest, i, p[..psize], p.Length)
      invariant Untouched(p[..], old(p[..]), psize)
    {
      var m := rest[i];
      if !IsResponse(m) || m.command / 32 != 0 {
        return Unexpected, psize;
      }
      var size := Payload(m, 3);
      if m.command % 2 == 1 && size == 7 {
        size := size - m.command / 2 % 8;
      }
      if size > BODY || psize + size > p.Length {
        return Overrun, psize;
      }
      Append(p, psize, m.body[..size]);
      psize := psize + size;
      if m.command % 2 == 1 {
        return Done, psize;
      }
      i := i + 1;
    }
    status := Stalled;
  }

  method Read(index: nat, p: array<byte>, first: Reply, rest: seq<Message>) returns (status: Status, psize: nat)
    requires index < 65536
    modifies p
    ensures psize <= p.Length && (status, p[..psize]) == ReadObject(index, first, rest, p.Length)
    ensures status == Done ==> first.Reply? && first.m.mbxtype % 16 == 3 && first.m.service == 3
                               && (first.m.body[0] as int) + 256 * (first.m.body[1] as int) == index
    ensures Untouched(p[..], old(p[..]), psize)
  {
    if first.NoReply? {
      return NoAnswer, 0;
    }
    var m := first.m;
    FieldsOfBody(m.body, index, 0);
    if !IsResponse(m) || m.body[..2] != Head(index, 0, [])[..2] {
      return Unexpected, 0;
    }
    if m.command / 2 % 2 == 1 {
      var bytesize := 4 - m.command / 4 % 4;
      if p.Length < bytesize {
        return TooSmall, 0;
      }
      Append(p, 0, m.body[3..3 + bytesize]);
      return Done, bytesize;
    }
    status, psize := ReadLong(p, m, rest);
  }

  method ReadLong(p: array<byte>, m: Message, rest: seq<Message>) returns (status: Status, psize: nat)
    modifies p
    ensures psize <= p.Length && (status, p[..psize]) == ReadNormal(m, rest, p.Length)
    ensures Untouched(p[..], old(p[..]), psize)
  {
    var len, size := LongOf(m.body), Payload(m, 10);
    if len >= 0x8000_0000 {
      return Overrun, 0;
    }
    if len > p.Length {
      return TooSmall, 0;
    }
    var first := if size < len then size else len;
    if 7 + first > BODY {
      return Overrun, 0;
    }
    Append(p, 0, m.body[7..7 + first]);
    if size < len {
      status, psize := ReadSegments(p, size, rest);
    } else {
      return Done, len;
    }
  }

  // ----- round trip -----

  /** A slave that answers with the same message: the same object on its way up. */
  function Answer(m: Message): Message {
    m.(service := COES_SDORES)
  }

  /** From the i-th on the answers are those to `msgs`. */
  ghost predicate Answers(rest: seq<Message>, i: nat, msgs: seq<Message>) {
    |rest| == i + |msgs| && forall k :: 0 <= k < |msgs| ==> rest[i + k] == Answer(msgs[k])
  }

  lemma AnswersSplit(rest: seq<Message>, i: nat, m: Message, msgs: seq<Message>)
    requires Answers(rest, i, [m] + msgs)
    ensures i < |rest| && rest[i] == Answer(m) && Answers(rest, i + 1, msgs)
  {
    assert rest[i + 0] == Answer(([m] + msgs)[0]);
    forall k | 0 <= k < |msgs| ensures rest[i + 1 + k] == Answer(msgs[k]) {
      assert rest[i + (k + 1)] == Answer(([m] + msgs)[k + 1]);
    }
  }

  /** The message is a segment with just these data. */
  ghost predicate Tells(m: Message, data: seq<byte>, last: bool) {
    IsSegment(m) && Useful(m) == |data| <= BODY && m.body[..|data|] == data && (m.command % 2 == 1 <==> last)
  }

  /** The length field and the command give back the number of bytes the segment was cut with. */
  lemma SegmentIsUnderstood(o: Object, off: nat, toggle: bool, cnt: nat, body: Body)
    requires off <= |o.data|
    ensures Tells(Answer(Segment(o, off, toggle, NextMbxCnt(cnt), body)), o.data[off..off + SegmentSize(o, off)], IsLast(o, off))
  {
    var n := SegmentSize(o, off);
    var m := Segment(o, off, toggle, NextMbxCnt(cnt), body);
    assert m.body[0..0 + n] == o.data[off..off + n];
  }

  lemma ReadOne(rest: seq<Message>, i: nat, got: seq<byte>, room: nat, data: seq<byte>, last: bool)
    requires i < |rest| && Tells(rest[i], data, last) && |got| + |data| <= room
    ensures ReadRest(rest, i, got, room) == if last then (Done, got + data) else ReadRest(rest, i + 1, got + data, room)
  {
  }

  /** Reading the first of the remaining segments */
  lemma HeadIsUnderstood(o: Object, off: nat, m: Message, rest: seq<Message>, i: nat, room: nat)
    requires off <= |o.data| <= room && i < |rest| && rest[i] == m
    requires Tells(m, o.data[off..off + SegmentSize(o, off)], IsLast(o, off))
    ensures var next := off + SegmentSize(o, off);
            ReadRest(rest, i, o.data[..off], room)
            == if IsLast(o, off) then (Done, o.data) else ReadRest(rest, i + 1, o.data[..next], room)
  {
    var n := SegmentSize(o, off);
    ReadOne(rest, i, o.data[..off], room, o.data[off..off + n], IsLast(o, off));
    assert o.data[..off] + o.data[off..off + n] == o.data[..off + n];
    assert o.data[..|o.data|] == o.data;
  }

  lemma {:induction false} SegmentsAreUnderstood(o: Object, off: nat, toggle: bool, cnt: nat, body: Body, rest: seq<Message>, i: nat, room: nat)
    requires off <= |o.data| <= room && Answers(rest, i, Segments(o, off, toggle, cnt, body))
    ensures ReadRest(rest, i, o.data[..off], room) == (Done, o.data)
    decreases |o.data| - off
  {
    var m, n := Segment(o, off, toggle, NextMbxCnt(cnt), body), SegmentSize(o, off);
    var others := if IsLast(o, off) then [] else Segments(o, off + n, !toggle, NextMbxCnt(cnt), m.body);
    assert Segments(o, off, toggle, cnt, body) == [m] + others;
    AnswersSplit(rest, i, m, others);
    SegmentIsUnderstood(o, off, toggle, cnt, body);
    HeadIsUnderstood(o, off, Answer(m), rest, i, room);
    if !IsLast(o, off) {
      SegmentsAreUnderstood(o, off + n, !toggle, NextMbxCnt(cnt), m.body, rest, i + 1, room);
    }
  }

  lemma LongRoundTrip(o: Object, sub: byte)
    ensures var head := Splice(Zeros(BODY), 0, Head(o.index, sub, Long(|o.data|)));
            LongOf(head) == |o.data| && head[..2] == Head(o.index, 0, [])[..2]
  {
    var head := Splice(Zeros(BODY), 0, Head(o.index, sub, Long(|o.data|)));
    LongBytes(|o.data|);
    assert head[0..0 + 7] == Head(o.index, sub, Long(|o.data|));
    assert head[3..7] == head[0..7][3..7] == Long(|o.data|);
    assert head[..2] == head[0..7][..2];
  }

  lemma InitialIsUnderstood(o: Object, cnt: nat)
    requires !o.Expedited()
    ensures var m, n := Answer(Initial(o, cnt)), o.FirstSize();
            IsResponse(m) && m.command / 2 % 2 == 0 && m.body[..2] == Head(o.index, 0, [])[..2]
            && LongOf(m.body) == |o.data| && Payload(m, 10) == n && m.body[7..7 + n] == o.data[..n]
  {
    var head := Splice(Zeros(BODY), 0, Head(o.index, o.Sub(), Long(|o.data|)));
    LongRoundTrip(o, o.Sub());
    var b := Initial(o, cnt).body;
    assert b[..7] == head[..7];
    assert b[..2] == b[..7][..2] == head[..7][..2] == head[..2];
    assert b[3..7] == b[..7][3..7] == head[..7][3..7] == head[3..7];
  }

  lemma ExpeditedIsUnderstood(o: Object, cnt: nat)
    requires o.Expedited()
    ensures var m := Answer(Expedited(o, cnt));
            IsResponse(m) && m.command / 2 % 2 == 1 && m.body[..2] == Head(o.index, 0, [])[..2]
            && 4 - m.command / 4 % 4 == (if o.data == [] then 4 else |o.data|) && m.body[3..3 + |o.data|] == o.data
  {
    var b := Expedited(o, cnt).body;
    assert b[0..0 + 3 + |o.data|] == Head(o.index, o.subindex, o.data);
    assert b[3..3 + |o.data|] == b[0..0 + 3 + |o.data|][3..];
    assert b[..2] == b[0..0 + 3 + |o.data|][..2];
  }

  /** Main result: the messages cut by the writer, sent back, are read as exactly the object and its length
      when they fit the buffer -- and only then, but for one more case: an empty object without complete
      access goes out as an expedited message whose size code means four bytes. */
  lemma ReadsWhatWasWritten(o: Object, cnt: nat, rest: seq<Message>, room: nat)
    requires Answers(rest, 0, Download(o, cnt)[1..])
    ensures ReadObject(o.index, Reply(Answer(Download(o, cnt)[0])), rest, room) == (Done, o.data)
            <==> |o.data| <= room && (o.data != [] || o.ca)
  {
    var next := NextMbxCnt(cnt);
    if o.Expedited() {
      ExpeditedIsUnderstood(o, next);
    } else {
      var m := Initial(o, next);
      InitialIsUnderstood(o, next);
      assert o.data[..|o.data|] == o.data;
      if |o.data| > o.maxdata && |o.data| <= room {
        assert Download(o, cnt)[1..] == Segments(o, o.FirstSize(), false, next, m.body);
        SegmentsAreUnderstood(o, o.FirstSize(), false, next, m.body, rest, 0, room);
      }
    }
  }
}
