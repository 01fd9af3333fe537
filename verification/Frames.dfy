/** Building an EtherCAT frame from datagrams (`ecx_setupdatagram`, `ecx_adddatagram`) and walking it again
    by the length and follows fields of its headers (section 5 of ETG.1000.4). */
module Frames {
  import opened Mailbox

  const ETH_HEADERSIZE := 14
  const EC_ELENGTHSIZE := 2
  /** Size of the header record, which begins with the two bytes of `elength`. */
  const EC_HEADERSIZE := 12
  const EC_WKCSIZE := 2
  const EC_ECATTYPE := 0x1000
  const EC_DATAGRAMFOLLOWS := 0x8000
  const EC_BUFSIZE := 1518

  type word = x: int | 0 <= x < 65536

  datatype Datagram = Datagram(command: byte, index: byte, adp: word, ado: word, data: seq<byte>)

  /** A datagram in a frame, with its follows flag. */
  datatype Item = Item(d: Datagram, follows: bool)

  /** Commands that only read: NOP, APRD, FPRD, BRD, LRD. */
  predicate ReadsOnly(com: byte) { com == 0 || com == 1 || com == 4 || com == 7 || com == 10 }

  /** The data part as it is sent: nothing to send for a read. */
  function Sent(com: byte, data: seq<byte>): (r: seq<byte>)
    ensures |r| == |data|
  {
    if ReadsOnly(com) then seq(|data|, i => 0) else data
  }

  // ----- reading a frame -----

  function Word(buf: seq<byte>, pos: nat): (w: word)
    requires pos + 2 <= |buf|
  {
    (buf[pos] as int) + 256 * (buf[pos + 1] as int)
  }

  /** Bytes of a datagram behind `elength`: header, data and working counter. */
  function Size(length: nat): nat { EC_HEADERSIZE - EC_ELENGTHSIZE + length + EC_WKCSIZE }

  /** Walk the datagrams from position `pos` on; nothing is returned when a header or its data would lie
      beyond the end of the frame. */
  function Parse(frame: seq<byte>, pos: nat): (r: (bool, seq<Datagram>))
    decreases |frame| - pos
  {
    if pos + Size(0) > |frame| then (false, [])
    else
      var dlength := Word(frame, pos + 6);
      var length := dlength % EC_DATAGRAMFOLLOWS;
      if pos + Size(length) > |frame| then (false, [])
      else
        var d := Datagram(frame[pos], frame[pos + 1], Word(frame, pos + 2), Word(frame, pos + 4), frame[pos + 10..pos + 10 + length]);
        if dlength < EC_DATAGRAMFOLLOWS then (true, [d])
        else
          var rest := Parse(frame, pos + Size(length));
          (rest.0, [d] + rest.1)
  }

  // ----- what a buffer holds -----

  ghost function Total(items: seq<Item>): nat {
    if items == [] then 0 else Total(items[..|items| - 1]) + Size(|items[|items| - 1].d.data|)
  }

  function Dlength(it: Item): nat { |it.d.data| + if it.follows then EC_DATAGRAMFOLLOWS else 0 }

  /** The datagram is written at `pos`, with working counter 0; the interrupt field is left alone. */
  ghost predicate HoldsAt(buf: seq<byte>, pos: nat, it: Item) {
    && pos + Size(|it.d.data|) <= |buf| && |it.d.data| < EC_DATAGRAMFOLLOWS
    && buf[pos] == it.d.command && buf[pos + 1] == it.d.index
    && Word(buf, pos + 2) == it.d.adp && Word(buf, pos + 4) == it.d.ado && Word(buf, pos + 6) == Dlength(it)
    && buf[pos + 10..pos + 10 + |it.d.data|] == it.d.data
    && Word(buf, pos + 10 + |it.d.data|) == 0
  }

  const FIRST := ETH_HEADERSIZE + EC_ELENGTHSIZE

  /** The buffer holds the items one behind the other. */
  ghost predicate Holds(buf: seq<byte>, items: seq<Item>) {
    items == [] ||
    var n := |items| - 1;
    HoldsAt(buf, FIRST + Total(items[..n]), items[n]) && Holds(buf, items[..n])
  }

  /** Where the data of item `k` stand in the buffer, or would stand if it came next. */
  ghost function DataAt(items: seq<Item>, k: nat): nat
    requires k <= |items|
  {
    FIRST + Total(items[..k]) + 10
  }

  lemma DataBehind(items: seq<Item>, end: nat)
    requires end == FIRST + Total(items)
    ensures DataAt(items, |items|) == end + 10
  {
    assert items[..|items|] == items;
  }

  /** Nothing between `lo` and `hi` differs. */
  ghost predicate Same(a: seq<byte>, b: seq<byte>, lo: nat, hi: nat) {
    |a| == |b| && hi <= |a| && forall k :: lo <= k < hi ==> a[k] == b[k]
  }

  lemma HoldsAtLocal(a: seq<byte>, b: seq<byte>, pos: nat, it: Item)
    requires HoldsAt(a, pos, it) && Same(a, b, pos, pos + Size(|it.d.data|))
    ensures HoldsAt(b, pos, it)
  {
    assert b[pos + 10..pos + 10 + |it.d.data|] == a[pos + 10..pos + 10 + |it.d.data|];
  }

  /** The items when the follows flag of the first one is set. */
  ghost function Flagged(items: seq<Item>): (r: seq<Item>)
    requires items != []
    ensures |r| == |items|
  {
    items[0 := items[0].(follows := true)]
  }

  lemma {:induction false} TotalFlagged(items: seq<Item>)
    requires items != []
    ensures Total(Flagged(items)) == Total(items)
  {
    var n := |items| - 1;
    if n > 0 {
      TotalFlagged(items[..n]);
      assert Flagged(items)[..n] == Flagged(items[..n]);
    } else {
      assert Flagged(items)[..0] == items[..0];
    }
  }

  lemma {:induction false} FirstWithin(items: seq<Item>)
    requires items != []
    ensures Size(|items[0].d.data|) <= Total(items)
  {
    if |items| > 1 { FirstWithin(items[..|items| - 1]); }
  }

  lemma {:induction false} HoldsFirst(buf: seq<byte>, items: seq<Item>)
    requires items != [] && Holds(buf, items)
    ensures HoldsAt(buf, FIRST, items[0])
  {
    if |items| > 1 {
      HoldsFirst(buf, items[..|items| - 1]);
    } else {
      assert items[..0] == [];
    }
  }

  /** Setting the follows bit of the first datagram, and nothing else, does just that. */
  lemma {:induction false} HoldsFlagged(a: seq<byte>, b: seq<byte>, items: seq<Item>)
    requires items != [] && Holds(a, items) && |a| == |b| && FIRST + Total(items) <= |a|
    requires Same(a, b, FIRST, FIRST + 6) && Same(a, b, FIRST + 8, FIRST + Total(items))
    requires Word(b, FIRST + 6) == |items[0].d.data| + EC_DATAGRAMFOLLOWS
    ensures Holds(b, Flagged(items))
  {
    var n := |items| - 1;
    if n == 0 {
      assert items[..0] == [] && Flagged(items)[..0] == [];
      FlagAt(a, b, items[0]);
    } else {
      var before := items[..n];
      HoldsFlagged(a, b, before);
      FirstWithin(before);
      TotalFlagged(before);
      HoldsAtLocal(a, b, FIRST + Total(before), items[n]);
      assert Flagged(items)[..n] == Flagged(before);
    }
  }

  lemma FlagAt(a: seq<byte>, b: seq<byte>, it: Item)
    requires HoldsAt(a, FIRST, it) && |a| == |b|
    requires Same(a, b, FIRST, FIRST + 6) && Same(a, b, FIRST + 8, FIRST + Size(|it.d.data|))
    requires Word(b, FIRST + 6) == |it.d.data| + EC_DATAGRAMFOLLOWS
    ensures HoldsAt(b, FIRST, it.(follows := true))
  {
    var n := |it.d.data|;
    assert b[FIRST + 10..FIRST + 10 + n] == a[FIRST + 10..FIRST + 10 + n];
  }

  lemma {:induction false} HoldsLocal(a: seq<byte>, b: seq<byte>, items: seq<Item>)
    requires Holds(a, items) && |a| == |b| && FIRST + Total(items) <= |a| && Same(a, b, FIRST, FIRST + Total(items))
    ensures Holds(b, items)
  {
    if items != [] {
      var n := |items| - 1;
      HoldsLocal(a, b, items[..n]);
      HoldsAtLocal(a, b, FIRST + Total(items[..n]), items[n]);
    }
  }

  class Frame {
    /** Transmit buffer; the Ethernet header in front is preset. */
    const buf: array<byte>
    var txbuflength: nat
    ghost var items: seq<Item>

    ghost predicate Valid()
      reads this, buf
    {
      && buf.Length == EC_BUFSIZE && items != []
      && txbuflength == FIRST + Total(items) <= EC_BUFSIZE
      && Word(buf[..], ETH_HEADERSIZE) == EC_ECATTYPE + Total(items)
      && Holds(buf[..], items)
    }

    constructor (buf: array<byte>)
      ensures this.buf == buf
    {
      this.buf := buf;
      txbuflength := 0;
      items := [];
    }

    method PutWord(pos: nat, w: word)
      requires pos + 2 <= buf.Length
      modifies buf
      ensures Word(buf[..], pos) == w
      ensures forall k :: 0 <= k < buf.Length && k != pos && k != pos + 1 ==> buf[k] == old(buf[k])
    {
      buf[pos] := w % 256;
      buf[pos + 1] := w / 256;
    }

    /** `ecx_writedatagramdata` */
    method WriteData(pos: nat, com: byte, data: seq<byte>)
      requires pos + |data| <= buf.Length
      modifies buf
      ensures buf[pos..pos + |data|] == Sent(com, data)
      ensures com !in {0, 1, 4, 7, 10} ==> buf[pos..pos + |data|] == data
      ensures com in {0, 1, 4, 7, 10} ==> forall k :: pos <= k < pos + |data| ==> buf[k] == 0
      ensures forall k :: 0 <= k < buf.Length && !(pos <= k < pos + |data|) ==> buf[k] == old(buf[k])
    {
      if |data| > 0 {
        if ReadsOnly(com) {
          forall i | 0 <= i < |data| {
            buf[pos + i] := 0;
          }
        } else {
          forall i | 0 <= i < |data| {
            buf[pos + i] := data[i];
          }
        }
      }
    }

    /** Command, index, addresses and length with the follows flag */
    method PutHeader(pos: nat, com: byte, idx: byte, more: bool, adp: word, ado: word, length: nat)
      requires pos + 10 <= buf.Length && length < EC_DATAGRAMFOLLOWS
      modifies buf
      ensures buf[pos] == com && buf[pos + 1] == idx && Word(buf[..], pos + 2) == adp && Word(buf[..], pos + 4) == ado
      ensures Word(buf[..], pos + 6) == if more then length + EC_DATAGRAMFOLLOWS else length
      ensures forall k :: 0 <= k < buf.Length && !(pos <= k < pos + 8) ==> buf[k] == old(buf[k])
    {
      buf[pos] := com;
      buf[pos + 1] := idx;
      PutWord(pos + 2, adp);
      PutWord(pos + 4, ado);
      if more {
        PutWord(pos + 6, length + EC_DATAGRAMFOLLOWS);
      } else {
        PutWord(pos + 6, length);
      }
    }

    /** Write one datagram behind its `elength` position. */
    method PutDatagram(pos: nat, com: byte, idx: byte, more: bool, adp: word, ado: word, data: seq<byte>)
      requires pos + Size(|data|) <= buf.Length && |data| < EC_DATAGRAMFOLLOWS
      modifies buf
      ensures HoldsAt(buf[..], pos, Item(Datagram(com, idx, adp, ado, Sent(com, data)), more))
      ensures buf[pos + 10..pos + 10 + |data|] == Sent(com, data)
      ensures Same(old(buf[..]), buf[..], 0, pos)
    {
      PutHeader(pos, com, idx, more, adp, ado, |data|);
      WriteData(pos + 10, com, data);
      PutWord(pos + 10 + |data|, 0);
      assert buf[..][pos + 10..pos + 10 + |data|] == Sent(com, data);
    }

    method SetupDatagram(com: byte, idx: byte, adp: word, ado: word, data: seq<byte>)
      requires buf.Length == EC_BUFSIZE && ETH_HEADERSIZE + EC_HEADERSIZE + EC_WKCSIZE + |data| <= EC_BUFSIZE
      modifies this, buf
      ensures Valid() && items == [Item(Datagram(com, idx, adp, ado, Sent(com, data)), false)]
      ensures buf[..ETH_HEADERSIZE] == old(buf[..ETH_HEADERSIZE])
    {
      PutWord(ETH_HEADERSIZE, EC_ECATTYPE + EC_HEADERSIZE + |data|);
      PutDatagram(FIRST, com, idx, false, adp, ado, data);
      txbuflength := ETH_HEADERSIZE + EC_HEADERSIZE + EC_WKCSIZE + |data|;
      items := [Item(Datagram(com, idx, adp, ado, Sent(com, data)), false)];
      assert items[..0] == [];
    }

    /** `more`: still more datagrams will follow.  Returns where the data is found in the received
        frame, which comes without Ethernet header. */
    method AddDatagram(com: byte, idx: byte, more: bool, adp: word, ado: word, data: seq<byte>) returns (offset: nat)
      requires Valid() && txbuflength + EC_HEADERSIZE - EC_ELENGTHSIZE + EC_WKCSIZE + |data| <= EC_BUFSIZE
      modifies `txbuflength, `items, buf
      ensures Valid()
      ensures items == Flagged(old(items)) + [Item(Datagram(com, idx, adp, ado, Sent(com, data)), more)]
      ensures ETH_HEADERSIZE + offset + |data| <= EC_BUFSIZE && buf[ETH_HEADERSIZE + offset..ETH_HEADERSIZE + offset + |data|] == Sent(com, data)
      ensures ETH_HEADERSIZE + offset == DataAt(old(items), |old(items)|)
      ensures buf[..ETH_HEADERSIZE] == old(buf[..ETH_HEADERSIZE])
    {
      var prevlength := txbuflength;
      DataBehind(items, prevlength);
      SetFollows(|data|);
      ghost var before := buf[..];
      PutDatagram(prevlength, com, idx, more, adp, ado, data);
      ghost var it, after := Item(Datagram(com, idx, adp, ado, Sent(com, data)), more), buf[..];
      ExtendFrame(before, after, items, it, prevlength);
      SamePrefix(before, after, prevlength, ETH_HEADERSIZE);
      txbuflength := prevlength + EC_HEADERSIZE - EC_ELENGTHSIZE + EC_WKCSIZE + |data|;
      items := items + [it];
      offset := prevlength + EC_HEADERSIZE - EC_ELENGTHSIZE - ETH_HEADERSIZE;
    }

    /** Count the new datagram in `elength` and mark the first one as followed. */
    method SetFollows(length: nat)
      requires Valid() && txbuflength + Size(length) <= EC_BUFSIZE
      modifies this`items, buf
      ensures items == Flagged(old(items)) && txbuflength == FIRST + Total(items)
      ensures Word(buf[..], ETH_HEADERSIZE) == EC_ECATTYPE + Total(items) + Size(length)
      ensures Holds(buf[..], items) && buf[..ETH_HEADERSIZE] == old(buf[..ETH_HEADERSIZE])
    {
      HoldsFirst(buf[..], items);
      FirstWithin(items);
      ghost var a := buf[..];
      var elength := Word(buf[..], ETH_HEADERSIZE);
      PutWord(ETH_HEADERSIZE, elength + EC_HEADERSIZE + length);
      var dlength := Word(buf[..], FIRST + 6);
      PutWord(FIRST + 6, if dlength >= EC_DATAGRAMFOLLOWS then dlength else dlength + EC_DATAGRAMFOLLOWS);
      HoldsFlagged(a, buf[..], items);
      TotalFlagged(items);
      items := Flagged(items);
    }
  }

  lemma SamePrefix(a: seq<byte>, b: seq<byte>, n: nat, m: nat)
    requires Same(a, b, 0, n) && m <= n
    ensures a[..m] == b[..m]
  {
  }

  lemma ExtendFrame(a: seq<byte>, b: seq<byte>, items: seq<Item>, it: Item, pos: nat)
    requires Holds(a, items) && pos == FIRST + Total(items) <= |a| && Same(a, b, 0, pos)
    requires HoldsAt(b, pos, it)
    ensures Holds(b, items + [it]) && Total(items + [it]) == Total(items) + Size(|it.d.data|)
  {
    HoldsLocal(a, b, items);
    AppendItem(b, items, it);
  }

  lemma AppendItem(b: seq<byte>, items: seq<Item>, it: Item)
    requires Holds(b, items) && HoldsAt(b, FIRST + Total(items), it)
    ensures Holds(b, items + [it]) && Total(items + [it]) == Total(items) + Size(|it.d.data|)
  {
    var longer := items + [it];
    assert longer[..|longer| - 1] == items && longer[|longer| - 1] == it;
  }
}
