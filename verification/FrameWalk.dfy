/** Walking a frame that was built by `Frames.Frame` yields the datagrams that were put in. */
module FrameWalk {
  import opened Mailbox
  import opened Frames

  /** What a walk by the follows flags meets from item `k` on: it stops behind the first item without the
      flag, and fails at the end of the frame when there is none. */
  ghost function Met(items: seq<Item>, k: nat): (r: (bool, seq<Datagram>))
    requires k <= |items|
    decreases |items| - k
  {
    if k == |items| then (false, [])
    else if !items[k].follows then (true, [items[k].d])
    else
      var rest := Met(items, k + 1);
      (rest.0, [items[k].d] + rest.1)
  }

  lemma {:induction false} HoldsEach(buf: seq<byte>, items: seq<Item>, k: nat)
    requires Holds(buf, items) && k < |items|
    ensures HoldsAt(buf, FIRST + Total(items[..k]), items[k])
    ensures Total(items[..k + 1]) == Total(items[..k]) + Size(|items[k].d.data|) <= Total(items)
  {
    var n := |items| - 1;
    if k < n {
      HoldsEach(buf, items[..n], k);
      assert items[..n][..k] == items[..k] && items[..n][..k + 1] == items[..k + 1];
    } else {
      assert items[..n + 1] == items;
    }
  }

  /** In every valid frame the data of item `k` stand where its position says. */
  lemma DataOfEach(f: Frame, k: nat)
    requires f.Valid() && k < |f.items|
    ensures var pos, n := DataAt(f.items, k), |f.items[k].d.data|;
            pos + n <= f.txbuflength && pos + n <= f.buf.Length && f.buf[pos..pos + n] == f.items[k].d.data
  {
    HoldsEach(f.buf[..], f.items, k);
    var pos, n := DataAt(f.items, k), |f.items[k].d.data|;
    assert f.buf[..][pos..pos + n] == f.buf[pos..pos + n];
  }

  /** Where datagrams stand: the data of the first one begin at byte 26, behind the Ethernet header of 14, the frame header
      of 2 and ten bytes of its own header; every other one twelve bytes behind the data of the one before. */
  lemma PositionsAre(items: seq<Item>, k: nat)
    requires k < |items|
    ensures DataAt(items, 0) == 26 && DataAt(items, k + 1) == DataAt(items, k) + |items[k].d.data| + 12
  {
    assert items[..0] == [];
    assert items[..k + 1][..k] == items[..k];
  }

  /** The bytes of a valid frame: its length and type, and for each datagram the header in front of its data and a
      working counter of 0 behind them. */
  lemma BytesOfEach(f: Frame, k: nat)
    requires f.Valid() && k < |f.items|
    ensures f.txbuflength + 10 == DataAt(f.items, |f.items|) && Word(f.buf[..], 14) == 0x1000 + f.txbuflength - 16
    ensures var b, pos, d := f.buf[..], DataAt(f.items, k), f.items[k].d;
      && 26 <= pos && pos + |d.data| + 2 <= f.txbuflength <= |b|
      && b[pos - 10] == d.command && b[pos - 9] == d.index
      && (b[pos - 8] as int) + 256 * (b[pos - 7] as int) == d.adp && (b[pos - 6] as int) + 256 * (b[pos - 5] as int) == d.ado
      && (b[pos - 4] as int) + 256 * (b[pos - 3] as int) == |d.data| + (if f.items[k].follows then 0x8000 else 0)
      && b[pos..pos + |d.data|] == d.data && b[pos + |d.data|] == 0 && b[pos + |d.data| + 1] == 0
  {
    HoldsEach(f.buf[..], f.items, k);
    assert f.items[..|f.items|] == f.items;
    HeaderAt(f.buf[..], DataAt(f.items, k), f.items[k]);
  }

  lemma HeaderAt(b: seq<byte>, pos: nat, it: Item)
    requires pos >= 10 && HoldsAt(b, pos - 10, it)
    ensures var d := it.d;
      && pos + |d.data| + 2 <= |b| && b[pos - 10] == d.command && b[pos - 9] == d.index
      && (b[pos - 8] as int) + 256 * (b[pos - 7] as int) == d.adp && (b[pos - 6] as int) + 256 * (b[pos - 5] as int) == d.ado
      && (b[pos - 4] as int) + 256 * (b[pos - 3] as int) == |d.data| + (if it.follows then 0x8000 else 0)
      && b[pos..pos + |d.data|] == d.data && b[pos + |d.data|] == 0 && b[pos + |d.data| + 1] == 0
  {
  }

  /** Adding a datagram moves none of the others, so an offset once returned stays that of its datagram. */
  lemma {:induction false} PositionsStay(items: seq<Item>, more: Item, k: nat)
    requires items != [] && k <= |items|
    ensures DataAt(Flagged(items) + [more], k) == DataAt(items, k)
    decreases k
  {
    var all := Flagged(items) + [more];
    if k > 0 {
      PositionsStay(items, more, k - 1);
      assert all[..k][..k - 1] == all[..k - 1] && items[..k][..k - 1] == items[..k - 1];
      assert all[k - 1].d == items[k - 1].d;
    }
  }

  /** Reading one header that is held at `pos`. */
  lemma ParseOne(frame: seq<byte>, pos: nat, it: Item)
    requires HoldsAt(frame, pos, it)
    ensures Parse(frame, pos) ==
      if !it.follows then (true, [it.d])
      else var rest := Parse(frame, pos + Size(|it.d.data|)); (rest.0, [it.d] + rest.1)
  {
    assert Word(frame, pos + 6) == Dlength(it);
    assert Dlength(it) % EC_DATAGRAMFOLLOWS == |it.d.data|;
  }

  lemma {:induction false} WalkFrom(frame: seq<byte>, items: seq<Item>, k: nat, pos: nat)
    requires Holds(frame, items) && |frame| == FIRST + Total(items) && k <= |items| && pos == FIRST + Total(items[..k])
    ensures Parse(frame, pos) == Met(items, k)
    decreases |items| - k
  {
    if k == |items| {
      assert items[..k] == items;
    } else {
      HoldsEach(frame, items, k);
      ParseOne(frame, pos, items[k]);
      WalkFrom(frame, items, k + 1, pos + Size(|items[k].d.data|));
    }
  }

  lemma HoldsAtInFrame(buf: seq<byte>, n: nat, pos: nat, it: Item)
    requires HoldsAt(buf, pos, it) && pos + Size(|it.d.data|) <= n <= |buf|
    ensures HoldsAt(buf[..n], pos, it)
  {
    assert buf[..n][pos + 10..pos + 10 + |it.d.data|] == buf[pos + 10..pos + 10 + |it.d.data|];
  }

  lemma {:induction false} HoldsInFrame(buf: seq<byte>, n: nat, items: seq<Item>)
    requires Holds(buf, items) && FIRST + Total(items) <= n <= |buf|
    ensures Holds(buf[..n], items)
  {
    if items != [] {
      var m := |items| - 1;
      HoldsInFrame(buf, n, items[..m]);
      HoldsAtInFrame(buf, n, FIRST + Total(items[..m]), items[m]);
    }
  }

  /** All datagrams of a frame. */
  ghost function Datagrams(items: seq<Item>, k: nat): (r: seq<Datagram>)
    requires k <= |items|
    decreases |items| - k
  {
    if k == |items| then [] else [items[k].d] + Datagrams(items, k + 1)
  }

  /** Every datagram but the last says that another follows. */
  ghost predicate Chained(items: seq<Item>, k: nat)
    requires k < |items|
    decreases |items| - k
  {
    if k == |items| - 1 then !items[k].follows else items[k].follows && Chained(items, k + 1)
  }

  lemma {:induction false} MetAllIffChained(items: seq<Item>, k: nat)
    requires k < |items|
    ensures Met(items, k) == (true, Datagrams(items, k)) <==> Chained(items, k)
    decreases |items| - k
  {
    if k == |items| - 1 {
      assert Datagrams(items, k) == [items[k].d] + [] == [items[k].d];
      assert Met(items, k + 1) == (false, []);
    } else {
      MetAllIffChained(items, k + 1);
      var all, rest := Datagrams(items, k), Met(items, k + 1);
      assert all[1..] == Datagrams(items, k + 1) && |all| > 1;
      if items[k].follows {
        assert Met(items, k).1 == [items[k].d] + rest.1;
        assert Met(items, k).1[1..] == rest.1;
      }
    }
  }

  /** The walk over the finished frame gives exactly the datagrams put in, in order and with their data
      (zeros for reads), if and only if the `more` flags were right; the length field in front counts them
      all. */
  lemma WalkInvertsBuild(f: Frame)
    requires f.Valid()
    ensures f.txbuflength <= |f.buf[..]|
    ensures Parse(f.buf[..f.txbuflength], FIRST) == Met(f.items, 0)
    ensures Parse(f.buf[..f.txbuflength], FIRST) == (true, Datagrams(f.items, 0)) <==> Chained(f.items, 0)
    ensures Word(f.buf[..], ETH_HEADERSIZE) % 0x1000 == f.txbuflength - FIRST
  {
    HoldsInFrame(f.buf[..], f.txbuflength, f.items);
    assert f.buf[..][..f.txbuflength] == f.buf[..f.txbuflength];
    WalkFrom(f.buf[..f.txbuflength], f.items, 0, FIRST);
    MetAllIffChained(f.items, 0);
    assert f.items[..0] == [];
  }

  /** A frame to which the last datagram is added with `more` off, and all between with `more` on, is chained. */
  lemma {:induction false} LastClosesChain(items: seq<Item>, last: Item, k: nat)
    requires 1 <= k <= |items|
    requires (forall j :: 1 <= j < |items| ==> items[j].follows) && !last.follows
    ensures Chained(Flagged(items) + [last], k) && Chained(Flagged(items) + [last], 0)
    decreases |items| - k
  {
    var all := Flagged(items) + [last];
    if k < |items| {
      LastClosesChain(items, last, k + 1);
      assert all[k].follows;
    }
    ChainedFrom(all, 0, k);
  }

  lemma {:induction false} ChainedFrom(items: seq<Item>, k: nat, n: nat)
    requires k <= n < |items| && Chained(items, n) && forall j :: k <= j < n ==> items[j].follows
    ensures Chained(items, k)
    decreases n - k
  {
    if k < n { ChainedFrom(items, k + 1, n); }
  }
}
