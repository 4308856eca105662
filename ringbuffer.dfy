/** The circular byte FIFO the serial transports put between the UART and
    the protocol driver: a caller-owned array, the index `start` of the oldest
    byte and the count `len` of stored bytes. One slot always stays unused, so
    at most `bufsize - 1` bytes are held. */
module Ring {
  import opened Bytes
  import opened Mem

  /** Index of the `k`-th stored byte in a ring of `n` cells starting at `start`. */
  function Slot(n: nat, start: nat, k: nat): (r: nat)
    requires start < n && k <= n
    ensures r < n
  {
    if start + k < n then start + k else start + k - n
  }

  /** The `len` bytes stored from `start` on, wrapping at the end of `cells`. */
  function Window(cells: seq<uint8>, start: nat, len: nat): (r: seq<uint8>)
    requires start < |cells| && len <= |cells|
    ensures |r| == len
  {
    if start + len <= |cells| then cells[start..start + len]
    else cells[start..] + cells[..start + len - |cells|]
  }

  lemma WindowAt(cells: seq<uint8>, start: nat, len: nat, k: nat)
    requires start < |cells| && len <= |cells| && k < len
    ensures Window(cells, start, len)[k] == cells[Slot(|cells|, start, k)]
  {
  }

  /** Writing the slots after the stored bytes appends to the window, as long
      as the old bytes' slots are untouched. */
  lemma WindowExtend(cells: seq<uint8>, cells': seq<uint8>, start: nat, len: nat, data: seq<uint8>)
    requires |cells'| == |cells| && start < |cells| && len + |data| <= |cells|
    requires forall k :: 0 <= k < len ==> cells'[Slot(|cells|, start, k)] == cells[Slot(|cells|, start, k)]
    requires forall j :: 0 <= j < |data| ==> cells'[Slot(|cells|, start, len + j)] == data[j]
    ensures Window(cells', start, len + |data|) == Window(cells, start, len) + data
  {
    var w', w := Window(cells', start, len + |data|), Window(cells, start, len);
    forall k | 0 <= k < len + |data|
      ensures w'[k] == (w + data)[k]
    {
      WindowAt(cells', start, len + |data|, k);
      if k >= len {
        assert cells'[Slot(|cells|, start, len + (k - len))] == data[k - len];
      } else {
        WindowAt(cells, start, len, k);
      }
    }
  }

  /** Dropping the oldest byte moves the start one slot on, wrapping. */
  lemma WindowDropFirst(cells: seq<uint8>, start: nat, len: nat)
    requires start < |cells| && 0 < len <= |cells|
    ensures Window(cells, if start + 1 == |cells| then 0 else start + 1, len - 1) == Window(cells, start, len)[1..]
  {
    var next := if start + 1 == |cells| then 0 else start + 1;
    forall k | 0 <= k < len - 1
      ensures Window(cells, next, len - 1)[k] == Window(cells, start, len)[1..][k]
    {
      WindowAt(cells, next, len - 1, k);
      WindowAt(cells, start, len, k + 1);
      assert Slot(|cells|, next, k) == Slot(|cells|, start, k + 1);
    }
  }

  /** Two stored positions never share a slot. */
  lemma SlotInjective(n: nat, start: nat, i: nat, j: nat)
    requires start < n && i < n && j < n && i != j
    ensures Slot(n, start, i) != Slot(n, start, j)
  {
  }

  /** store's single run: the bytes fit before the end of the storage. */
  lemma StoreOneRun(cells: seq<uint8>, start: nat, len: nat, data: seq<uint8>)
    requires start < |cells| && start + len + |data| <= |cells|
    ensures Window(CopyAt(cells, start + len, data), start, len + |data|) == Window(cells, start, len) + data
  {
    var cells' := CopyAt(cells, start + len, data);
    forall j | 0 <= j < |data|
      ensures cells'[Slot(|cells|, start, len + j)] == data[j]
    {
      CopyAtAt(cells, start + len, data, start + len + j);
    }
    forall k | 0 <= k < len
      ensures cells'[Slot(|cells|, start, k)] == cells[Slot(|cells|, start, k)]
    {
      CopyAtAt(cells, start + len, data, start + k);
    }
    WindowExtend(cells, cells', start, len, data);
  }

  /** store's two runs: the first `e` bytes fill the storage up to its end,
      the rest continue at index 0, below `start`. */
  lemma StoreTwoRuns(cells: seq<uint8>, start: nat, len: nat, data: seq<uint8>, e: nat)
    requires start < |cells| && e == |cells| - (start + len) && 0 < e < |data|
    requires len + |data| <= |cells| - 1
    ensures Window(CopyAt(CopyAt(cells, start + len, data[..e]), 0, data[e..]), start, len + |data|)
         == Window(cells, start, len) + data
  {
    var cells1 := CopyAt(cells, start + len, data[..e]);
    var cells' := CopyAt(cells1, 0, data[e..]);
    forall j | 0 <= j < |data|
      ensures cells'[Slot(|cells|, start, len + j)] == data[j]
    {
      if j < e {
        assert Slot(|cells|, start, len + j) == start + len + j;
        CopyAtAt(cells1, 0, data[e..], start + len + j);
        CopyAtAt(cells, start + len, data[..e], start + len + j);
      } else {
        assert Slot(|cells|, start, len + j) == j - e;
        CopyAtAt(cells1, 0, data[e..], j - e);
      }
    }
    forall k | 0 <= k < len
      ensures cells'[Slot(|cells|, start, k)] == cells[Slot(|cells|, start, k)]
    {
      assert Slot(|cells|, start, k) == start + k;
      CopyAtAt(cells1, 0, data[e..], start + k);
      CopyAtAt(cells, start + len, data[..e], start + k);
    }
    WindowExtend(cells, cells', start, len, data);
  }

  /** store when the stored bytes already wrap: one run from index
      `start + len - bufsize`, which stays below `start`. */
  lemma StoreWrapped(cells: seq<uint8>, start: nat, len: nat, data: seq<uint8>)
    requires start < |cells| && start + len >= |cells| && len + |data| <= |cells| - 1
    ensures Window(CopyAt(cells, start + len - |cells|, data), start, len + |data|) == Window(cells, start, len) + data
  {
    var cells' := CopyAt(cells, start + len - |cells|, data);
    forall j | 0 <= j < |data|
      ensures cells'[Slot(|cells|, start, len + j)] == data[j]
    {
      CopyAtAt(cells, start + len - |cells|, data, start + len - |cells| + j);
    }
    forall k | 0 <= k < len
      ensures cells'[Slot(|cells|, start, k)] == cells[Slot(|cells|, start, k)]
    {
      CopyAtAt(cells, start + len - |cells|, data, Slot(|cells|, start, k));
    }
    WindowExtend(cells, cells', start, len, data);
  }

  /** store's wrapping case, whichever of the two shapes it takes. */
  lemma StoreAround(cells: seq<uint8>, pre: seq<uint8>, post: seq<uint8>, start: nat, len: nat,
                    data: seq<uint8>, e: int, rest: seq<uint8>)
    requires start < |cells| && e == |cells| - (start + len) && e < |data|
    requires len + |data| <= |cells| - 1
    requires e > 0 ==> pre == CopyAt(cells, start + len, data[..e]) && rest == data[e..] && post == CopyAt(pre, 0, rest)
    requires e <= 0 ==> pre == cells && rest == data && post == CopyAt(pre, -e, rest)
    ensures Window(post, start, len + |data|) == Window(cells, start, len) + data
  {
    if e > 0 {
      StoreTwoRuns(cells, start, len, data, e);
    } else {
      StoreWrapped(cells, start, len, data);
    }
  }

  class RingBuffer {
    const buf: array<uint8>
    const bufsize: int
    var start: int
    var len: int

    /** The representation invariant. `bufsize` is an `int16_t` in the
        source; a ring of one cell could never hold a byte, so at least two. */
    ghost predicate Valid()
      reads this
    {
      && buf.Length == bufsize
      && 2 <= bufsize <= 0x7FFF
      && 0 <= start < bufsize
      && 0 <= len <= bufsize - 1
    }

    /** The bytes waiting to be popped, oldest first. */
    ghost function Contents(): seq<uint8>
      reads this, buf
      requires Valid()
    {
      Window(buf[..], start, len)
    }

    /** RingBuffer(uint8_t *buf, int16_t bufsize): over caller-owned storage. */
    constructor Wrap(storage: array<uint8>)
      requires 2 <= storage.Length <= 0x7FFF
      ensures Valid() && buf == storage && bufsize == storage.Length
      ensures start == 0 && len == 0 && Contents() == []
    {
      buf, bufsize := storage, storage.Length;
      start, len := 0, 0;
    }

    /** RingBuffer(int16_t bufsize): over freshly allocated storage. */
    constructor Allocate(size: int)
      requires 2 <= size <= 0x7FFF
      ensures Valid() && fresh(buf) && bufsize == size
      ensures start == 0 && len == 0 && Contents() == []
    {
      buf := new uint8[size];
      bufsize := size;
      start, len := 0, 0;
    }

    /** length() */
    function Length(): (r: int)
      reads this, buf
      requires Valid()
      ensures r == |Contents()|
    {
      len
    }

    /** freeSpace(): the room left, one slot always being kept unused. */
    function FreeSpace(): (r: int)
      reads this, buf
      requires Valid()
      ensures r + |Contents()| == bufsize - 1
      ensures 0 <= r < bufsize
    {
      bufsize - len - 1
    }

    /** push(b): append one byte; a full ring is first emptied. */
    method Push(b: uint8)
      requires Valid()
      modifies this, buf
      ensures Valid()
      ensures old(FreeSpace()) == 0 ==> start == 0 && Contents() == [b]
      ensures old(FreeSpace()) != 0 ==> start == old(start) && Contents() == old(Contents()) + [b]
    {
      ghost var cells0, start0 := buf[..], start;
      ghost var w0 := if FreeSpace() == 0 then [] else Contents();
      if FreeSpace() == 0 {
        start, len := 0, 0;
      }
      assert Window(cells0, start, len) == w0;
      var endchunksize := bufsize - (start + len);
      ghost var at := Slot(bufsize, start, len);
      if 1 <= endchunksize {
        buf[start + len] := b;
      } else {
        buf[-endchunksize] := b;
      }
      forall k | 0 <= k < len
        ensures buf[..][Slot(bufsize, start, k)] == cells0[Slot(bufsize, start, k)]
      {
        SlotInjective(bufsize, start, k, len);
      }
      WindowExtend(cells0, buf[..], start, len, [b]);
      len := len + 1;
    }

    /** pop(): the oldest byte, or 0xFF (the source's `-1` as `uint8_t`) when
        the ring is empty. */
    method Pop() returns (r: uint8)
      requires Valid()
      modifies this
      ensures Valid()
      ensures old(len) == 0 ==> r == 0xFF && start == old(start) && len == 0
      ensures old(len) != 0 ==>
        && r == old(Contents())[0]
        && Contents() == old(Contents())[1..]
        && start == (if old(start) + 1 == bufsize then 0 else old(start) + 1)
    {
      if len != 0 {
        r := buf[start];
        WindowAt(buf[..], start, len, 0);
        WindowDropFirst(buf[..], start, len);
        len := len - 1;
        start := start + 1;
        if start >= bufsize {
          start := 0;
        }
      } else {
        r := 0xFF;
      }
    }

    /** store(data, datasize): append a run of bytes, copying it in one piece
        or in two when it wraps; a run larger than the free space first
        empties the ring. A run of `bufsize` up to `2 * bufsize` bytes would
        be copied in bounds, wrapping onto its own first bytes, but would leave
        `len` at least `bufsize`, which breaks the free-slot invariant; only a
        longer run would be written past the end of the storage. The run is
        therefore required to leave that slot free. */
    method Store(data: seq<uint8>)
      requires Valid()
      requires |data| <= bufsize - 1
      modifies this, buf
      ensures Valid()
      ensures |data| > old(FreeSpace()) ==> start == 0 && Contents() == data
      ensures |data| <= old(FreeSpace()) ==> start == old(start) && Contents() == old(Contents()) + data
    {
      if |data| > FreeSpace() {
        start, len := 0, 0;
      }
      CopyIn(data);
    }

    /** The copy that store makes once the bytes are known to fit: one run up
        to the end of the storage, then the rest from index 0. */
    method CopyIn(data: seq<uint8>)
      requires Valid()
      requires |data| <= FreeSpace()
      modifies this`len, buf
      ensures Valid()
      ensures Contents() == old(Contents()) + data
    {
      var endchunksize := bufsize - (start + len);
      if |data| <= endchunksize {
        CopyRun(data);
      } else {
        CopyWrapping(data, endchunksize);
      }
    }

    /** The bytes fit before the end of the storage. */
    method CopyRun(data: seq<uint8>)
      requires Valid()
      requires |data| <= FreeSpace() && start + len + |data| <= bufsize
      modifies this`len, buf
      ensures Valid()
      ensures Contents() == old(Contents()) + data
    {
      ghost var cells0 := buf[..];
      MemCopy(buf, start + len, data);
      StoreOneRun(cells0, start, len, data);
      len := len + |data|;
    }

    /** The bytes reach past the end of the storage: the first
        `endchunksize` of them, if any, go up to the end, the rest from
        index `-endchunksize`. */
    method CopyWrapping(data: seq<uint8>, endchunksize: int)
      requires Valid()
      requires |data| <= FreeSpace() && endchunksize == bufsize - (start + len) < |data|
      modifies this`len, buf
      ensures Valid()
      ensures Contents() == old(Contents()) + data
    {
      ghost var cells0 := buf[..];
      ghost var len0 := len;
      var rest := data;
      var from := endchunksize;
      ghost var pre := cells0;
      if from > 0 {
        MemCopy(buf, start + len, data[..from]);
        pre := buf[..];
        rest := data[from..];
        len := len + from;
        from := 0;
      }
      MemCopy(buf, -from, rest);
      ghost var post := buf[..];
      len := len + |rest|;
      StoreAround(cells0, pre, post, start, len0, data, endchunksize, rest);
    }
  }

  /** Pop until the ring is empty: the bytes come out oldest first. */
  method Drain(rb: RingBuffer) returns (got: seq<uint8>)
    requires rb.Valid()
    modifies rb
    ensures rb.Valid() && rb.len == 0
    ensures got == old(rb.Contents())
  {
    ghost var w := rb.Contents();
    got := [];
    while rb.len != 0
      invariant rb.Valid()
      invariant got + rb.Contents() == w
      decreases rb.len
    {
      ghost var c := rb.Contents();
      var b := rb.Pop();
      PopStep(got, c, rb.Contents(), w);
      got := got + [b];
    }
  }

  /** One pop moves the oldest byte from the ring to the bytes taken. */
  lemma PopStep(got: seq<uint8>, c: seq<uint8>, rest: seq<uint8>, w: seq<uint8>)
    requires got + c == w && |c| > 0 && rest == c[1..]
    ensures (got + [c[0]]) + rest == w
  {
    assert c == [c[0]] + rest;
  }

  /** Push each byte of a run that fits into an empty ring. */
  method PushAll(rb: RingBuffer, c: seq<uint8>)
    requires rb.Valid() && rb.len == 0 && |c| <= rb.bufsize - 1
    modifies rb, rb.buf
    ensures rb.Valid() && rb.Contents() == c
  {
    for j := 0 to |c|
      invariant rb.Valid()
      invariant rb.Contents() == c[..j]
    {
      rb.Push(c[j]);
      assert c[..j + 1] == c[..j] + [c[j]];
    }
  }

  /** The transmit path of the serial drivers: each chunk is stored in bulk and
      then drained byte by byte. Across any number of chunks, and so across the
      wraparound point, the bytes come out in the order they went in. */
  method StoreThenDrain(capacity: int, chunks: seq<seq<uint8>>) returns (out: seq<uint8>)
    requires 2 <= capacity <= 0x7FFF
    requires forall i :: 0 <= i < |chunks| ==> |chunks[i]| <= capacity - 1
    ensures out == Flatten(chunks)
  {
    var rb := new RingBuffer.Allocate(capacity);
    out := [];
    for i := 0 to |chunks|
      invariant rb.Valid() && fresh(rb.buf) && rb.bufsize == capacity && rb.len == 0
      invariant out == Flatten(chunks[..i])
    {
      rb.Store(chunks[i]);
      var got := Drain(rb);
      out := out + got;
      assert chunks[..i + 1] == chunks[..i] + [chunks[i]];
      FlattenSnoc(chunks[..i], chunks[i]);
    }
    assert chunks[..|chunks|] == chunks;
  }

  /** The receive path of the AVR driver: bytes pushed one at a time by the
      receive interrupt and popped by the reader, in rounds that each fit. */
  method PushThenDrain(capacity: int, chunks: seq<seq<uint8>>) returns (out: seq<uint8>)
    requires 2 <= capacity <= 0x7FFF
    requires forall i :: 0 <= i < |chunks| ==> |chunks[i]| <= capacity - 1
    ensures out == Flatten(chunks)
  {
    var rb := new RingBuffer.Allocate(capacity);
    out := [];
    for i := 0 to |chunks|
      invariant rb.Valid() && fresh(rb.buf) && rb.bufsize == capacity && rb.len == 0
      invariant out == Flatten(chunks[..i])
    {
      PushAll(rb, chunks[i]);
      var got := Drain(rb);
      out := out + got;
      assert chunks[..i + 1] == chunks[..i] + [chunks[i]];
      FlattenSnoc(chunks[..i], chunks[i]);
    }
    assert chunks[..|chunks|] == chunks;
  }

  function Flatten(chunks: seq<seq<uint8>>): seq<uint8> {
    if chunks == [] then [] else chunks[0] + Flatten(chunks[1..])
  }

  lemma {:induction false} FlattenSnoc(chunks: seq<seq<uint8>>, c: seq<uint8>)
    ensures Flatten(chunks + [c]) == Flatten(chunks) + c
  {
    if chunks != [] {
      assert (chunks + [c])[1..] == chunks[1..] + [c];
      FlattenSnoc(chunks[1..], c);
    }
  }
}
