/** The two C library copies the core relies on, over Dafny arrays:
    `memcpy` of a run of bytes into a buffer, and `memmove` of a buffer's
    tail down to its front. */
module Mem {
  import opened Bytes

  /** The array contents after `memmove(buf, buf + from, count)`: the `count`
      bytes starting at `from` land at the front, everything from index `count`
      on keeps its old value. */
  function MoveDown(cells: seq<uint8>, from: nat, count: nat): (r: seq<uint8>)
    requires from + count <= |cells|
    ensures |r| == |cells|
    ensures forall k :: 0 <= k < count ==> r[k] == cells[from + k]
    ensures forall k :: count <= k < |cells| ==> r[k] == cells[k]
  {
    cells[from..from + count] + cells[count..]
  }

  /** memmove(buf, buf + from, count) for a move towards the front. */
  method MemMove(buf: array<uint8>, from: nat, count: nat)
    requires from + count <= buf.Length
    modifies buf
    ensures buf[..] == MoveDown(old(buf[..]), from, count)
  {
    ghost var cells := buf[..];
    var k := 0;
    while k < count
      invariant 0 <= k <= count
      invariant forall j :: 0 <= j < k ==> buf[j] == cells[from + j]
      invariant forall j :: k <= j < buf.Length ==> buf[j] == cells[j]
    {
      buf[k] := buf[from + k];
      k := k + 1;
    }
    assert buf[..] == MoveDown(cells, from, count);
  }

  /** The array contents after `memcpy(buf + at, data, |data|)`. */
  function CopyAt(cells: seq<uint8>, at: nat, data: seq<uint8>): (r: seq<uint8>)
    requires at + |data| <= |cells|
    ensures |r| == |cells|
  {
    cells[..at] + data + cells[at + |data|..]
  }

  /** What a copy leaves at one index: the copied byte inside the run, the
      old byte outside it. */
  lemma CopyAtAt(cells: seq<uint8>, at: nat, data: seq<uint8>, k: nat)
    requires at + |data| <= |cells| && k < |cells|
    ensures CopyAt(cells, at, data)[k] == if at <= k < at + |data| then data[k - at] else cells[k]
  {
  }

  /** Storing one byte is copying a run of one. */
  lemma StoreIsCopy(cells: seq<uint8>, at: nat, b: uint8)
    requires at < |cells|
    ensures cells[at := b] == CopyAt(cells, at, [b])
  {
    forall k | 0 <= k < |cells|
      ensures cells[at := b][k] == CopyAt(cells, at, [b])[k]
    {
      CopyAtAt(cells, at, [b], k);
    }
  }

  /** A run copied before a stretch of cells and another copied after it
      frame that stretch, and nothing outside the three moves. */
  lemma CopyAround(cells: seq<uint8>, at: nat, h: seq<uint8>, n: nat, t: seq<uint8>)
    requires at + |h| + n + |t| <= |cells|
    ensures var f := CopyAt(CopyAt(cells, at, h), at + |h| + n, t);
      var end := at + |h| + n + |t|;
      && f[at..end] == h + cells[at + |h|..at + |h| + n] + t
      && f[..at] == cells[..at] && f[end..] == cells[end..]
  {
    var c := CopyAt(cells, at, h);
    var f := CopyAt(c, at + |h| + n, t);
    var end := at + |h| + n + |t|;
    var w := h + cells[at + |h|..at + |h| + n] + t;
    forall k | at <= k < end
      ensures f[k] == w[k - at]
    {
      CopyAtAt(c, at + |h| + n, t, k);
      CopyAtAt(cells, at, h, k);
    }
    forall k | 0 <= k < |cells| && (k < at || end <= k)
      ensures f[k] == cells[k]
    {
      CopyAtAt(c, at + |h| + n, t, k);
      CopyAtAt(cells, at, h, k);
    }
    assert f[at..end] == w;
    assert f[..at] == cells[..at];
    assert f[end..] == cells[end..];
  }

  /** Two adjacent copies are one copy of the two runs together. */
  lemma CopyAtAdjacent(cells: seq<uint8>, at: nat, x: seq<uint8>, y: seq<uint8>)
    requires at + |x| + |y| <= |cells|
    ensures CopyAt(CopyAt(cells, at, x), at + |x|, y) == CopyAt(cells, at, x + y)
  {
    var c := CopyAt(cells, at, x);
    forall k | 0 <= k < |cells|
      ensures CopyAt(c, at + |x|, y)[k] == CopyAt(cells, at, x + y)[k]
    {
      CopyAtAt(c, at + |x|, y, k);
      CopyAtAt(cells, at, x, k);
      CopyAtAt(cells, at, x + y, k);
    }
  }

  /** memcpy(buf + at, data, |data|). */
  method MemCopy(buf: array<uint8>, at: nat, data: seq<uint8>)
    requires at + |data| <= buf.Length
    modifies buf
    ensures buf[..] == CopyAt(old(buf[..]), at, data)
  {
    ghost var cells := buf[..];
    var k := 0;
    while k < |data|
      invariant 0 <= k <= |data|
      invariant forall j :: 0 <= j < k ==> buf[at + j] == data[j]
      invariant forall j :: 0 <= j < buf.Length && !(at <= j < at + k) ==> buf[j] == cells[j]
    {
      buf[at + k] := data[k];
      k := k + 1;
    }
    forall j | 0 <= j < buf.Length
      ensures buf[j] == CopyAt(cells, at, data)[j]
    {
      CopyAtAt(cells, at, data, j);
    }
    assert buf[..] == CopyAt(cells, at, data);
  }
}
