/** What the mailbox protocols have in common. */
module Mailbox {
  type byte = x: int | 0 <= x < 256

  const MBXT_EOE := 2
  const MBXT_COE := 3

  const ERR_PACKET_ERROR := 3
  const ERR_FOE_ERROR := 5
  const ERR_FOE_BUF2SMALL := 6
  const ERR_FOE_PACKETNUMBER := 7
  const ERR_FOE_FILE_NOTFOUND := 10
  const ERR_EOE_INVALID_RX_DATA := 11

  /** Session counter of the mailbox link layer: 1 to 7, never 0 again. */
  function NextMbxCnt(cnt: nat): (next: nat)
    ensures 1 <= next <= 7
  {
    if cnt + 1 > 7 then 1 else cnt + 1
  }

  /** `sent` is what has been sent of `all`. */
  ghost predicate Prefix<T>(sent: seq<T>, all: seq<T>) {
    |sent| <= |all| && sent == all[..|sent|]
  }

  /** `buf` with `data` copied over it from position `off` on. */
  function Splice(buf: seq<byte>, off: nat, data: seq<byte>): (r: seq<byte>)
    requires off + |data| <= |buf|
    ensures |r| == |buf| && r[..off] == buf[..off] && r[off..off + |data|] == data
  {
    buf[..off] + data + buf[off + |data|..]
  }

  /** memcpy into a buffer */
  method Copy(buf: array<byte>, off: nat, data: seq<byte>)
    requires off + |data| <= buf.Length
    modifies buf
    ensures buf[..] == Splice(old(buf[..]), off, data)
  {
    forall i | 0 <= i < |data| {
      buf[off + i] := data[i];
    }
  }

  /** Nothing has been written behind the first `size` bytes. */
  ghost predicate Untouched(now: seq<byte>, was: seq<byte>, size: nat) {
    |now| == |was| && forall k :: size <= k < |now| ==> now[k] == was[k]
  }

  /** memcpy into the buffer behind what it holds already */
  method Append(p: array<byte>, size: nat, data: seq<byte>)
    requires size + |data| <= p.Length
    modifies p
    ensures p[..size + |data|] == old(p[..size]) + data
    ensures size == 0 ==> p[..|data|] == data
    ensures Untouched(p[..], old(p[..]), size + |data|)
  {
    Copy(p, size, data);
    assert p[..size + |data|] == p[..][..size + |data|];
    assert old(p[..size]) == old(p[..])[..size];
  }

  lemma Times(a: int, b: int, m: nat)
    requires a < b
    ensures (a + 1) * m <= b * m
  {
    assert b * m == (a + 1) * m + (b - a - 1) * m;
  }

  /** Taking one full packet off leaves one packet less. */
  lemma OneLess(a: nat, m: nat)
    requires a >= m > 0
    ensures a / m == (a - m) / m + 1
  {
    var q, p := a / m, (a - m) / m;
    assert (p + 1) * m == p * m + m;
    if q < p + 1 {
      Times(q, p + 1, m);
    }
    if p + 1 < q {
      Times(p + 1, q, m);
    }
  }
}
