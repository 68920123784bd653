// The queue over chunks, and its agreement with a plain sequence of bytes.
module BufqQueue {
  import opened Bufq

  class Queue {
    var head: Chunk?
    var tail: Chunk?
    var spare: Chunk?
    const pool: Pool?
    var chunkCount: nat
    const maxChunks: nat
    const chunkSize: nat
    const softLimit: bool
    const noSpares: bool

    ghost var live: seq<Chunk>          // the chunks from head to tail
    ghost var spares: seq<Chunk>        // the chunks from spare on
    ghost var parts: seq<seq<byte>>     // what each live chunk still holds

    // What the queue holds, in reading order.
    ghost function Contents(): seq<byte>
      reads this
    {
      Flatten(parts)
    }

    // Every chunk an operation may touch.
    ghost function Chunks(): set<Chunk>
      reads this, pool
    {
      Elems(live) + Elems(spares) + (if pool != null then Elems(pool.spares) else {})
    }

    ghost predicate Chain()
      reads `head, `tail, `spare, `live, `spares, live`next, spares`next
    {
      && Linked(head, live) && Linked(spare, spares)
      && tail == (if live == [] then null else live[|live| - 1])
      && Distinct(live) && Distinct(spares) && Disjoint(live, spares)
      && Sized(live, chunkSize) && Sized(spares, chunkSize)
    }

    ghost predicate Filled()
      reads `live, `parts, live`rOffset, live`wOffset, Stores(Elems(live))
    {
      && |parts| == |live|
      && forall i | 0 <= i < |live| :: live[i].Valid() && parts[i] == live[i].Content()
    }

    // Only the tail can be empty or have room, and only the head can be partly
    // read; `drained` tolerates a head that was just read empty.
    ghost predicate Packed(drained: bool)
      reads `live, live`rOffset, live`wOffset
    {
      && (forall i | 0 <= i < |live| - 1 ::
            || (live[i].wOffset == chunkSize && live[i].rOffset < live[i].wOffset)
            || (i == 0 && drained && live[i].rOffset == live[i].wOffset))
      && (forall i | 0 < i < |live| :: live[i].rOffset == 0)
    }

    ghost predicate Counted()
      reads `live, `spares, `chunkCount
    {
      && chunkSize > 0 && maxChunks > 0
      && chunkCount == |live| + |spares|
      && (!softLimit ==> chunkCount <= maxChunks)
    }

    ghost predicate Pooled()
      reads `live, `spares, pool, (if pool != null then pool.spares else [])`next
    {
      pool != null ==>
        && pool.Valid() && pool.chunkSize == chunkSize
        && Disjoint(live, pool.spares) && Disjoint(spares, pool.spares)
    }

    ghost predicate Inv(drained: bool)
      reads this, live, spares, Stores(Elems(live)), pool, if pool != null then pool.spares else []
    {
      Chain() && Filled() && Packed(drained) && Counted() && Pooled()
    }

    ghost predicate Valid()
      reads this, live, spares, Stores(Elems(live)), pool, if pool != null then pool.spares else []
    {
      Inv(false)
    }

    // Free bytes in the tail chunk.
    ghost function TailRoom(): int
      reads `live, live`wOffset
    {
      if live == [] then 0 else chunkSize - live[|live| - 1].wOffset
    }

    // Bytes of the head chunk that are read: their place comes back with the chunk.
    ghost function Lead(): nat
      reads `live, live`rOffset
    {
      if live == [] then 0 else live[0].rOffset
    }

    // Bytes that fit without asking anyone for a chunk.
    ghost function OwnRoom(): int
      reads `live, live`wOffset, `spares
    {
      TailRoom() + Capacity(|spares|, chunkSize)
    }

    // Chunks a hard-limited queue can still fill, apart from the tail.
    ghost function FreeChunks(): nat
      reads `live, `spares, `chunkCount
    {
      if chunkCount <= maxChunks + |spares| then maxChunks + |spares| - chunkCount else 0
    }

    // Bytes a hard-limited queue can still take.
    ghost function Room(): int
      reads `live, live`wOffset, `spares, `chunkCount
    {
      TailRoom() + Capacity(FreeChunks(), chunkSize)
    }

    constructor (pool: Pool?, chunkSize: nat, maxChunks: nat, softLimit: bool, noSpares: bool)
      requires chunkSize > 0 && maxChunks > 0
      requires pool != null ==> pool.Valid() && pool.chunkSize == chunkSize
      ensures Valid() && Contents() == [] && this.pool == pool
      ensures live == [] && spares == []
      ensures this.chunkSize == chunkSize && this.maxChunks == maxChunks
      ensures this.softLimit == softLimit && this.noSpares == noSpares
    {
      head, tail, spare := null, null, null;
      this.pool, this.chunkSize, this.maxChunks := pool, chunkSize, maxChunks;
      this.softLimit, this.noSpares := softLimit, noSpares;
      chunkCount := 0;
      live, spares, parts := [], [], [];
    }

    predicate IsEmpty()
      requires Valid()
      reads this, live, spares, Stores(Elems(live)), pool, if pool != null then pool.spares else []
      ensures IsEmpty() <==> Contents() == []
    {
      EmptyParts();
      head == null || head.IsEmpty()
    }

    // What is read of the head is less than a chunk, and nothing once all is read.
    lemma LeadInHead()
      requires Valid()
      ensures Lead() < chunkSize && (Contents() == [] ==> Lead() == 0)
    {
      EmptyParts();
    }

    // The first `i` chunks: all but the last of them are full.
    lemma {:induction false} PartsLength(i: nat)
      requires Valid() && 1 <= i <= |live|
      ensures |Flatten(parts[..i])| + Lead() == Capacity(i - 1, chunkSize) + live[i - 1].wOffset
    {
      FlattenSplit(parts, i - 1);
      if i == 1 {
        NoParts();
        assert parts[..0] == [];
      } else {
        PartsLength(i - 1);
      }
    }

    // What a hard limit leaves: the chunks times their size, less what is
    // queued and what is read of the head chunk.
    lemma RoomLeft()
      requires Valid() && !softLimit
      ensures Room() + |Contents()| + Lead() == maxChunks * chunkSize
    {
      CapacityIsProduct(maxChunks, chunkSize);
      if live == [] {
        NoParts();
      } else {
        PartsLength(|live|);
        assert parts[..|live|] == parts;
        CapacitySum(|live|, maxChunks - |live|, chunkSize);
      }
    }

    // The free end of the last chunk in use, as the bytes before it fix it; an
    // empty tail behind it only adds to that.
    lemma LastRoomIsOurs()
      requires Valid()
      ensures LastRoom(Lead() + |Contents()|, chunkSize) <= OwnRoom()
    {
      hide Linked, Distinct, Disjoint, Packed, Pooled, Counted;
      EmptyParts();
      if live != [] {
        PartsLength(|live|);
        assert parts[..|live|] == parts;
        CapacityIsProduct(|live| - 1, chunkSize);
        LastRoomIs(|live| - 1, live[|live| - 1].wOffset, chunkSize);
      }
    }

    // Where in its chunk the byte at `offset` is.
    lemma PlaceInChunk(i: nat, left: nat, offset: nat)
      requires Valid() && i < |live| && left < |parts[i]| && Walked(parts, i, left, offset)
      ensures |parts[i]| == live[i].wOffset - live[i].rOffset && live[i].wOffset <= chunkSize
      ensures (Lead() + offset) % chunkSize == live[i].rOffset + left
    {
      hide Flatten;
      if i == 0 {
        assert parts[..0] == [];
        NoParts();
        ModUnique(Lead() + offset, 0, Lead() + offset, chunkSize);
      } else {
        PartsLength(i);
        CapacityIsProduct(i, chunkSize);
        ModUnique(Lead() + offset, i, left, chunkSize);
      }
    }

    lemma LeftBehind(i: nat, left: nat, offset: nat)
      requires Valid() && i < |live| && left < |parts[i]| && Walked(parts, i, left, offset)
      ensures |Contents()| - offset >= |parts[i]| - left
      ensures if i == |live| - 1 then |Contents()| - offset == |parts[i]| - left else live[i].wOffset == chunkSize
    {
      hide Flatten;
      FlattenSplit(parts, i);
      if i == |live| - 1 {
        assert parts[i + 1..] == [];
        NoParts();
      }
    }

    // The rest of the chunk that holds the byte at `offset`.
    lemma ViewLength(i: nat, left: nat, offset: nat)
      requires Valid() && i < |live| && left < |parts[i]| && Walked(parts, i, left, offset)
      ensures offset < |Contents()|
      ensures |parts[i]| - left == ToChunkEnd(Lead(), offset, |Contents()|, chunkSize)
    {
      PlaceInChunk(i, left, offset);
      LeftBehind(i, left, offset);
      hide Contents, Lead, Walked, Flatten;
    }

    lemma NoHead()
      requires Valid() && head == null
      ensures live == [] && parts == [] && Contents() == []
    {
    }

    lemma RoomIsEnough()
      requires Valid()
      ensures Room() >= 0
    {
    }

    lemma SomeRoom()
      requires Valid() && (softLimit || chunkCount < maxChunks)
      ensures !softLimit ==> Room() > 0
    {
    }

    lemma OnlyTailEmpty(i: nat)
      requires Valid() && i < |live| && live[i].rOffset == live[i].wOffset
      ensures i == |live| - 1
    {
    }

    lemma EmptyParts()
      requires Valid()
      ensures live != [] && live[0].rOffset == live[0].wOffset ==> |live| == 1
      ensures Contents() == [] <==> live == [] || live[0].rOffset == live[0].wOffset
    {
      if live != [] {
        assert parts[0] == live[0].Content();
        assert Flatten(parts) == parts[0] + Flatten(parts[1..]);
      }
    }

    // A chunk that is in none of the lists.
    ghost predicate Loose(chunk: Chunk)
      reads this, pool
    {
      && chunk.data.Length == chunkSize
      && Outside(chunk, live) && Outside(chunk, spares)
      && (pool != null ==> Outside(chunk, pool.spares))
    }

    // Valid but for one chunk that is counted and in no list.
    ghost predicate ValidBut(chunk: Chunk)
      reads this, live, spares, Stores(Elems(live)), pool, if pool != null then pool.spares else []
    {
      && Chain() && Filled() && Packed(false) && Pooled() && Loose(chunk)
      && chunkSize > 0 && maxChunks > 0
      && chunkCount == |live| + 1 + |spares| && (!softLimit ==> chunkCount <= maxChunks)
    }

    // A spare, a pooled chunk or a new one; null when the limit or memory says no.
    method GetSpare() returns (chunk: Chunk?, ghost oom: bool)
      requires Valid()
      modifies this, pool, Chunks(), Stores(Chunks())
      ensures live == old(live) && parts == old(parts)
      ensures TailRoom() == old(TailRoom()) && Lead() == old(Lead())
      ensures chunk == null ==> Valid() && spares == old(spares) && chunkCount == old(chunkCount)
      ensures chunk == null ==> spares == [] && (oom || (!softLimit && chunkCount >= maxChunks))
      ensures oom ==> chunk == null && (softLimit || chunkCount < maxChunks)
      ensures old(spares) != [] ==> chunk != null && OwnRoom() + chunkSize == old(OwnRoom())
      ensures chunk != null ==> ValidBut(chunk) && Rewound(chunk)
      ensures chunk != null && !softLimit ==> Room() + chunkSize == old(Room())
      ensures chunk == null ==> Room() == old(Room())
      ensures forall c | c in Chunks() || c == chunk :: c in old(Chunks()) || (fresh(c) && fresh(c.data))
    {
      if spare == null { NoSpare(); } else { SpareIsFirst(); }
      hide Chain, Filled, Packed, Pooled, ValidBut;
      if spare != null {
        chunk := TakeSpare();
        return chunk, false;
      }
      if chunkCount >= maxChunks && !softLimit {
        return null, false;
      }
      chunk := GetNew();
      oom := chunk == null;
    }

    method GetNew() returns (chunk: Chunk?)
      requires Valid() && (chunkCount < maxChunks || softLimit)
      modifies `chunkCount, pool, if pool == null || pool.spare == null then {} else {pool.spare}
      ensures chunk == null ==> Valid() && chunkCount == old(chunkCount)
      ensures chunk != null ==> ValidBut(chunk) && Rewound(chunk)
      ensures chunk != null && !softLimit ==> Room() + chunkSize == old(Room())
      ensures chunk == null ==> Room() == old(Room())
      ensures TailRoom() == old(TailRoom()) && Lead() == old(Lead())
      ensures forall c | c in Chunks() || c == chunk :: c in old(Chunks()) || (fresh(c) && fresh(c.data))
    {
      hide Chain, Filled, Packed, Pooled, ValidBut;
      chunk := NewChunk();
      if chunk != null {
        CountUp(chunk);
      }
    }

    method CountUp(chunk: Chunk)
      requires Valid() && Loose(chunk) && Rewound(chunk) && (chunkCount < maxChunks || softLimit)
      modifies this`chunkCount
      ensures ValidBut(chunk) && Rewound(chunk)
      ensures !softLimit ==> Room() + chunkSize == old(Room())
      ensures TailRoom() == old(TailRoom()) && Lead() == old(Lead()) && Chunks() == old(Chunks())
    {
      hide Linked, Distinct, Disjoint, Sized, Flatten;
      chunkCount := chunkCount + 1;
    }

    method TakeSpare() returns (chunk: Chunk)
      requires Valid() && spare != null
      modifies `spare, `spares, spare
      ensures live == old(live) && parts == old(parts) && chunkCount == old(chunkCount)
      ensures chunk == old(spares)[0] && spares == old(spares)[1..]
      ensures ValidBut(chunk) && Rewound(chunk)
      ensures !softLimit ==> Room() + chunkSize == old(Room())
      ensures TailRoom() == old(TailRoom()) && Lead() == old(Lead())
      ensures Chunks() + {chunk} == old(Chunks())
    {
      SpareIsFirst();
      hide Filled, Packed, Pooled, Chain, ValidBut;
      chunk := TakeSpareChunk();
      SpareGone(old(spares));
    }

    method TakeSpareChunk() returns (chunk: Chunk)
      requires Valid() && spare != null
      modifies `spare, `spares, spare
      ensures ValidBut(chunk) && Rewound(chunk)
      ensures chunk == old(spare) == old(spares)[0] && spares == old(spares)[1..]
    {
      assert spare == spares[0] && Outside(spare, live);
      hide Linked, Distinct, Disjoint, Sized;
      chunk := UnlinkSpare();
      ResetSpare(chunk);
      assert Filled() && Packed(false);
    }

    lemma NoSpare()
      requires Chain() && spare == null
      ensures spares == []
    {
    }

    lemma SpareIsFirst()
      requires Chain() && spare != null
      ensures spares != [] && spare == spares[0] && spare !in live
    {
      assert Outside(spares[0], live);
    }

    lemma ElemsTail(cs: seq<Chunk>)
      requires cs != []
      ensures Elems(cs[1..]) + {cs[0]} == Elems(cs)
    {
      assert cs == [cs[0]] + cs[1..];
    }

    lemma SpareGone(before: seq<Chunk>)
      requires before != [] && spares == before[1..]
      ensures Elems(spares) + {before[0]} == Elems(before)
    {
      assert before == [before[0]] + spares;
    }

    method UnlinkSpare() returns (chunk: Chunk)
      requires Chain() && Pooled() && spare != null
      modifies `spare, `spares
      ensures Chain() && Pooled() && Loose(chunk)
      ensures chunk == old(spare) == old(spares)[0] && spares == old(spares)[1..]
    {
      chunk := spare;
      spare := chunk.next;
      spares := spares[1..];
    }

    method ResetSpare(chunk: Chunk)
      requires Chain() && Pooled() && Loose(chunk)
      modifies chunk
      ensures Chain() && Pooled() && Rewound(chunk)
    {
      chunk.Reset();
    }

    // From the pool when there is one, otherwise freshly allocated.
    method NewChunk() returns (chunk: Chunk?)
      requires Valid()
      modifies pool, if pool == null || pool.spare == null then {} else {pool.spare}
      ensures Valid() && TailRoom() == old(TailRoom()) && Lead() == old(Lead())
      ensures chunk != null ==> Loose(chunk) && Rewound(chunk)
      ensures forall c | c in Chunks() || c == chunk :: c in old(Chunks()) || (fresh(c) && fresh(c.data))
    {
      hide Chain, Packed;
      if pool != null {
        chunk := NewPooled();
      } else {
        chunk := Allocate(chunkSize);
      }
    }

    method NewPooled() returns (chunk: Chunk?)
      requires Valid() && pool != null
      modifies pool, if pool.spare == null then {} else {pool.spare}
      ensures Valid()
      ensures chunk != null ==> Loose(chunk) && Rewound(chunk)
      ensures chunk != null && old(pool.spares) != [] ==>
                chunk == old(pool.spares)[0] && pool.spares == old(pool.spares)[1..]
      ensures chunk == null || old(pool.spares) == [] ==> pool.spares == old(pool.spares)
      ensures chunk != null && old(pool.spares) == [] ==> fresh(chunk) && fresh(chunk.data)
    {
      assert pool.spare != null ==> pool.spare == pool.spares[0];
      assert pool.spare !in live && pool.spare !in spares;
      chunk := pool.Take();
      assert Chain();
      assert Filled();
      assert Packed(false) && Counted();
    }

    // Puts a loose chunk at the end of the list.
    method LinkTail(chunk: Chunk)
      requires ValidBut(chunk) && Rewound(chunk) && (tail != null ==> tail.wOffset == chunkSize)
      modifies this, if tail == null then {} else {tail}
      ensures Valid()
      ensures live == old(live) + [chunk] && parts == old(parts) + [[]] && spares == old(spares)
      ensures chunkCount == old(chunkCount)
      ensures chunk.wOffset == 0 && chunk == tail
      ensures Chunks() == old(Chunks()) + {chunk}
      ensures TailRoom() == chunkSize && FreeChunks() == old(FreeChunks()) && Lead() == old(Lead())
    {
      hide Linked, Distinct, Disjoint, Outside, Sized, Flatten;
      if tail != null {
        LinkAfterTail(chunk);
      } else {
        LinkFirst(chunk);
      }
    }

    method LinkFirst(chunk: Chunk)
      requires ValidBut(chunk) && Rewound(chunk) && tail == null
      modifies `head, `tail, `live, `parts
      ensures Valid()
      ensures live == old(live) + [chunk] && parts == old(parts) + [[]]
    {
      head, tail := chunk, chunk;
      live, parts := [chunk], [[]];
    }

    method LinkAfterTail(chunk: Chunk)
      requires ValidBut(chunk) && Rewound(chunk) && tail != null && tail.wOffset == chunkSize
      modifies this, tail`next
      ensures Valid()
      ensures live == old(live) + [chunk] && parts == old(parts) + [[]] && spares == old(spares)
      ensures chunkCount == old(chunkCount)
    {
      ghost var before := live;
      if pool != null { DistinctPush(live, pool.spares, chunk); }
      assert tail == live[|live| - 1];
      LinkPointers(chunk);
      assert Filled() && Packed(false);
    }

    method LinkPointers(chunk: Chunk)
      requires Chain() && tail != null
      requires Outside(chunk, live) && Outside(chunk, spares) && chunk.next == null && chunk.data.Length == chunkSize
      modifies `tail, `live, `parts, tail`next
      ensures Chain()
      ensures live == old(live) + [chunk] && parts == old(parts) + [[]]
    {
      DistinctPush(live, spares, chunk);
      assert tail == live[|live| - 1];
      tail.next := chunk;
      tail := chunk;
      live := live + [chunk];
      parts := parts + [[]];
    }

    // The chunk to write to, made when the tail is missing or full.
    method GetNonFullTail() returns (chunk: Chunk?, ghost oom: bool)
      requires Valid()
      modifies this, pool, Chunks(), Stores(Chunks())
      ensures Valid() && Contents() == old(Contents()) && Lead() == old(Lead())
      ensures !softLimit ==> Room() == old(Room())
      ensures old(OwnRoom()) > 0 ==> chunk != null && OwnRoom() == old(OwnRoom())
      ensures chunk == null ==> chunkCount == old(chunkCount)
      ensures oom ==> chunk == null && (softLimit || chunkCount < maxChunks)
      ensures chunk == null && !oom ==> !softLimit && Room() == 0 && chunkCount == maxChunks
      ensures chunk != null ==> chunk == tail && chunk.wOffset < chunkSize
      ensures forall c | c in Chunks() :: c in old(Chunks()) || (fresh(c) && fresh(c.data))
    {
      if tail != null && !tail.IsFull() {
        assert tail == live[|live| - 1];
        return tail, false;
      }
      chunk, oom := AddTail();
    }

    method AddTail() returns (chunk: Chunk?, ghost oom: bool)
      requires Valid() && (tail != null ==> tail.wOffset == chunkSize)
      modifies this, pool, Chunks(), Stores(Chunks())
      ensures Valid() && Contents() == old(Contents()) && Lead() == old(Lead())
      ensures !softLimit ==> Room() == old(Room())
      ensures old(OwnRoom()) > 0 ==> chunk != null && OwnRoom() == old(OwnRoom())
      ensures chunk == null ==> chunkCount == old(chunkCount)
      ensures oom ==> chunk == null && (softLimit || chunkCount < maxChunks)
      ensures chunk == null && !oom ==> !softLimit && Room() == 0 && chunkCount == maxChunks
      ensures chunk != null ==> chunk == tail && chunk.wOffset < chunkSize
      ensures forall c | c in Chunks() :: c in old(Chunks()) || (fresh(c) && fresh(c.data))
    {
      hide Inv, ValidBut, Flatten, Room, OwnRoom, TailRoom, Lead;
      NoTailRoom();
      chunk, oom := GetSpare();
      if chunk == null {
        if !oom { NoMoreRoom(); }
        return;
      }
      if tail != null { FullTail(chunk); }
      Grow(chunk);
    }

    // A loose chunk becomes the tail.
    method Grow(chunk: Chunk)
      requires ValidBut(chunk) && Rewound(chunk) && TailRoom() == 0
      modifies this, if tail == null then {} else {tail}
      ensures Valid() && Contents() == old(Contents()) && Lead() == old(Lead())
      ensures Room() == old(Room()) + chunkSize && OwnRoom() == old(OwnRoom()) + chunkSize
      ensures chunk == tail && chunk.wOffset == 0 < chunkSize
      ensures Chunks() == old(Chunks()) + {chunk}
    {
      FlattenPush(parts);
      if tail != null { FullTail(chunk); }
      PositiveSize(chunk);
      hide Inv, ValidBut, Flatten;
      LinkTail(chunk);
    }

    lemma PositiveSize(chunk: Chunk)
      requires ValidBut(chunk)
      ensures chunkSize > 0
    {
    }

    lemma NoMoreRoom()
      requires Valid() && TailRoom() == 0 && spares == [] && !softLimit && chunkCount >= maxChunks
      ensures Room() == 0 && chunkCount == maxChunks
    {
    }

    lemma NoTailRoom()
      requires Valid() && (tail != null ==> tail.wOffset == chunkSize)
      ensures TailRoom() == 0 && (spares == [] ==> OwnRoom() == 0)
    {
    }

    lemma FullTail(chunk: Chunk)
      requires ValidBut(chunk) && tail != null && TailRoom() == 0
      ensures tail.wOffset == chunkSize && tail in live
    {
    }

    lemma TailIsOurs()
      requires Valid() && tail != null
      ensures tail in Chunks() && tail.data.Length == chunkSize
    {
      assert tail in live;
    }

    method AppendTail(buf: seq<byte>) returns (n: nat)
      requires Valid() && tail != null
      modifies `parts, tail`wOffset, tail.data
      ensures Valid() && n == Min(|buf|, chunkSize - old(tail.wOffset))
      ensures Contents() == old(Contents()) + buf[..n]
      ensures tail.wOffset == old(tail.wOffset) + n && Room() == old(Room()) - n
      ensures OwnRoom() == old(OwnRoom()) - n
    {
      hide Linked, Distinct, Disjoint, Sized, Flatten;
      n := FillTail(buf);
    }

    method FillTail(buf: seq<byte>) returns (n: nat)
      requires Chain() && Filled() && tail != null
      modifies `parts, tail`wOffset, tail.data
      ensures Filled() && n == Min(|buf|, chunkSize - old(tail.wOffset))
      ensures Contents() == old(Contents()) + buf[..n]
      ensures tail.wOffset == old(tail.wOffset) + n
    {
      ghost var last := |live| - 1;
      assert tail == live[last];
      n := tail.Append(buf);
      FlattenExtend(parts, buf[..n]);
      parts := parts[last := parts[last] + buf[..n]];
      forall i | 0 <= i < last ensures live[i].Valid() && parts[i] == live[i].Content() {
        assert Apart(live[i], live[last]);
      }
    }

    // Appends the prefix of `buf` that the limit and memory allow.
    method Write(buf: seq<byte>) returns (result: Code, n: nat, ghost oom: bool)
      requires Valid()
      modifies this, pool, Chunks(), Stores(Chunks())
      ensures Valid() && n <= |buf|
      ensures Contents() == old(Contents()) + buf[..n]
      ensures !softLimit ==> Room() == old(Room()) - n
      ensures !oom ==> n == if softLimit then |buf| else Min(|buf|, old(Room()))
      ensures oom ==> old(OwnRoom()) <= n < |buf| && (!softLimit ==> n < old(Room()))
      ensures Lead() == old(Lead())
      ensures result == if oom then OutOfMemory else if n == 0 && buf != [] then Again else Ok
      ensures forall c | c in Chunks() :: c in old(Chunks()) || (fresh(c) && fresh(c.data))
    {
      hide Chain, Filled, Packed, Counted, Pooled, Room, OwnRoom, Flatten;
      n, oom := 0, false;
      while n < |buf|
        invariant Valid() && n <= |buf| && !oom
        invariant Contents() == old(Contents()) + buf[..n] && Lead() == old(Lead())
        invariant n < old(OwnRoom()) ==> OwnRoom() == old(OwnRoom()) - n
        invariant !softLimit ==> Room() == old(Room()) - n
        invariant forall c | c in Chunks() :: c in old(Chunks()) || (fresh(c) && fresh(c.data))
      {
        var m, failed := WriteChunk(buf[n..]);
        assert buf[..n] + buf[n..][..m] == buf[..n + m];
        if failed { return OutOfMemory, n, true; }
        if m == 0 { break; }
        n := n + m;
      }
      RoomIsEnough();
      result := if n == 0 && |buf| > 0 then Again else Ok;
    }

    // One round of the write loop.
    method WriteChunk(buf: seq<byte>) returns (m: nat, oom: bool)
      requires Valid() && buf != []
      modifies this, pool, Chunks(), Stores(Chunks())
      ensures Valid() && m <= |buf|
      ensures Contents() == old(Contents()) + buf[..m]
      ensures !softLimit ==> Room() == old(Room()) - m
      ensures m == 0 && !oom ==> !softLimit && old(Room()) == 0
      ensures oom ==> m == 0 && (!softLimit ==> Room() > 0)
      ensures old(OwnRoom()) > 0 ==> !oom && OwnRoom() == old(OwnRoom()) - m
      ensures Lead() == old(Lead())
      ensures forall c | c in Chunks() :: c in old(Chunks()) || (fresh(c) && fresh(c.data))
    {
      hide Inv, Room, OwnRoom, Contents;
      var chunk, failed := GetNonFullTail();
      if chunk == null {
        // no chunk to write to: memory failed, or the limit is reached
        if failed { SomeRoom(); }
        return 0, chunkCount < maxChunks || softLimit;
      }
      TailIsOurs();
      m := AppendTail(buf);
      oom := false;
    }

    // ------------------------------------------------------------ removal

    // How many spares a pool has after being given so many.
    function MoreSpares(had: nat, given: nat, most: nat): nat {
      if had >= most then had else if had + given <= most then had + given else most
    }

    // How many chunks a queue has after dropping so many: with a pool, or without
    // spares, they are no longer its own; otherwise only those above the maximum go.
    function FewerChunks(had: nat, dropped: nat): int
    {
      if pool != null || noSpares then had - dropped
      else if had <= maxChunks then had else if had - dropped >= maxChunks then had - dropped else maxChunks
    }

    // Drops drained chunks from the head.
    method PruneHead()
      requires Inv(true)
      modifies this, pool, Chunks()
      ensures Valid() && Contents() == old(Contents())
      ensures live == [] || live[0].rOffset < live[0].wOffset
      ensures |live| <= old(|live|)
      ensures old(live != [] && live[0].rOffset == live[0].wOffset) ==> |live| < old(|live|)
      ensures Lead() == old(if Drained() then 0 else Lead())
      ensures Chunks() <= old(Chunks())
      ensures chunkCount == FewerChunks(old(chunkCount), old(|live|) - |live|)
      ensures pool != null ==>
                |pool.spares| == MoreSpares(old(|pool.spares|), old(|live|) - |live|, pool.spareMax)
    {
      hide Inv, Contents;
      HeadFirst();
      while head != null && head.IsEmpty()
        invariant Inv(true) && Contents() == old(Contents())
        invariant head == (if live == [] then null else live[0])
        invariant head != null ==> head.rOffset <= head.wOffset
        invariant |live| <= old(|live|)
        invariant |live| == old(|live|) ==> Lead() == old(Lead()) && Drained() == old(Drained())
        invariant |live| < old(|live|) ==> Lead() == 0 && old(Drained())
        invariant Chunks() <= old(Chunks())
        invariant chunkCount == FewerChunks(old(chunkCount), old(|live|) - |live|)
        invariant pool != null ==>
                    |pool.spares| == MoreSpares(old(|pool.spares|), old(|live|) - |live|, pool.spareMax)
        decreases |live|
      {
        PruneOne();
        DrainedToo();
        HeadFirst();
      }
      NotDrained();
    }

    ghost predicate Drained()
      reads `live, live`rOffset, live`wOffset
    {
      live != [] && live[0].rOffset == live[0].wOffset
    }

    lemma HeadFirst()
      requires Inv(true)
      ensures head == if live == [] then null else live[0]
      ensures head != null ==> head.rOffset <= head.wOffset
    {
    }

    lemma HeadIsOurs()
      requires Inv(true) && head != null
      ensures head in Chunks()
    {
      assert head in live;
    }

    lemma DrainedToo()
      requires Valid()
      ensures Inv(true)
    {
    }

    lemma NotDrained()
      requires Inv(true) && (head == null || head.rOffset < head.wOffset)
      ensures Valid() && !Drained()
    {
    }

    method PruneOne()
      requires Inv(true) && head != null && head.rOffset == head.wOffset
      modifies `head, `tail, `live, `parts, `spare, `spares, `chunkCount, pool, head
      ensures Valid() && Contents() == old(Contents())
      ensures live == old(live)[1..] && Lead() == 0
      ensures Chunks() <= old(Chunks())
      ensures chunkCount == old(chunkCount) - if pool != null || noSpares || old(chunkCount) > maxChunks then 1 else 0
      ensures pool != null ==> |pool.spares| == MoreSpares(old(|pool.spares|), 1, pool.spareMax)
    {
      hide Chain, Filled, Packed, Counted, Pooled, ValidBut, Flatten;
      var chunk := UnlinkHead();
      if pool != null {
        PutInPool(chunk);
      } else if chunkCount > maxChunks || noSpares {
        Drop(chunk);
      } else {
        AddSpare(chunk);
      }
    }

    // The chunk is freed.
    method Drop(chunk: Chunk)
      requires ValidBut(chunk)
      modifies `chunkCount
      ensures Valid() && chunkCount == old(chunkCount) - 1
    {
      chunkCount := chunkCount - 1;
    }

    // Takes the drained head off the list.
    method UnlinkHead() returns (chunk: Chunk)
      requires Inv(true) && head != null && head.rOffset == head.wOffset
      modifies `head, `tail, `live, `parts
      ensures ValidBut(chunk) && chunk == old(head) == old(live)[0]
      ensures live == old(live)[1..] && Contents() == old(Contents()) && Lead() == 0
      ensures Chunks() + {chunk} == old(Chunks())
    {
      HeadIsLoose();
      ElemsTail(live);
      hide Chain, Filled, Packed, Disjoint, Outside, Flatten, Elems;
      chunk := UnlinkLive();
    }

    // The chunks behind a drained head are packed as they should be.
    method UnlinkLive() returns (chunk: Chunk)
      requires Chain() && Filled() && Packed(true) && head != null && head.rOffset == head.wOffset
      modifies `head, `tail, `live, `parts
      ensures Chain() && Filled() && Packed(false) && Lead() == 0
      ensures chunk == old(head) == old(live)[0] && live == old(live)[1..] && parts == old(parts)[1..]
    {
      assert live != [] && head == live[0];
      hide Linked, Distinct, Disjoint, Sized;
      chunk := UnlinkPointers();
      forall i | 0 <= i < |live| ensures live[i].Valid() && parts[i] == live[i].Content() {
        assert live[i] == old(live)[i + 1];
      }
    }

    // What is known of a drained head once it is off the list.
    lemma HeadIsLoose()
      requires Inv(true) && head != null && head.rOffset == head.wOffset
      ensures live != [] && head == live[0] && head.data.Length == chunkSize
      ensures Outside(head, live[1..]) && Outside(head, spares)
      ensures pool != null ==> Outside(head, pool.spares) && Disjoint(live[1..], pool.spares)
      ensures |parts| == |live| && Flatten(parts[1..]) == Flatten(parts)
    {
      assert parts[0] == live[0].Content() == [];
      FlattenFirst(parts);
    }

    method UnlinkPointers() returns (chunk: Chunk)
      requires Chain() && head != null && |parts| == |live|
      modifies `head, `tail, `live, `parts
      ensures Chain()
      ensures chunk == old(head) == old(live)[0] && live == old(live)[1..] && parts == old(parts)[1..]
    {
      chunk := head;
      head := chunk.next;
      if tail == chunk {
        tail := head;
      }
      live, parts := live[1..], parts[1..];
    }

    method PutInPool(chunk: Chunk)
      requires ValidBut(chunk) && pool != null
      modifies `chunkCount, pool, chunk
      ensures Valid() && Lead() == old(Lead())
      ensures Chunks() <= old(Chunks()) + {chunk}
      ensures chunkCount == old(chunkCount) - 1
      ensures |pool.spares| == MoreSpares(old(|pool.spares|), 1, pool.spareMax)
    {
      hide Chain, Packed, Pooled;
      HandOver(chunk);
      chunkCount := chunkCount - 1;
    }

    method HandOver(chunk: Chunk)
      requires Chain() && Filled() && Packed(false) && Pooled() && Loose(chunk) && pool != null
      modifies pool, chunk
      ensures Chain() && Filled() && Packed(false) && Pooled() && Lead() == old(Lead())
      ensures Elems(pool.spares) <= old(Elems(pool.spares)) + {chunk}
      ensures |pool.spares| == MoreSpares(old(|pool.spares|), 1, pool.spareMax)
    {
      LooseIsNowhere(chunk);
      hide Chain, Filled, Packed;
      HandOverOnly(chunk);
    }

    method HandOverOnly(chunk: Chunk)
      requires Pooled() && pool != null && Loose(chunk)
      modifies pool, chunk
      ensures Pooled()
      ensures Elems(pool.spares) <= old(Elems(pool.spares)) + {chunk}
      ensures |pool.spares| == MoreSpares(old(|pool.spares|), 1, pool.spareMax)
    {
      pool.Put(chunk);
    }

    lemma LooseIsNowhere(chunk: Chunk)
      requires Loose(chunk)
      ensures chunk !in live && chunk !in spares
    {
    }

    method AddSpare(chunk: Chunk)
      requires ValidBut(chunk) && pool == null
      modifies `spare, `spares, chunk`next
      ensures Valid()
      ensures Chunks() == old(Chunks()) + {chunk}
    {
      hide Linked, Distinct, Disjoint, Sized, Flatten;
      assert chunk !in live;
      LinkSpare(chunk);
      assert Filled() && Packed(false);
    }

    method LinkSpare(chunk: Chunk)
      requires Chain() && Outside(chunk, live) && Outside(chunk, spares) && chunk.data.Length == chunkSize
      modifies `spare, `spares, chunk`next
      ensures Chain()
      ensures spares == [chunk] + old(spares)
    {
      chunk.next := spare;
      spare := chunk;
      spares := [chunk] + spares;
    }

    // ------------------------------------------------------------ reading

    // Removes and returns the first min(len, length) bytes.
    method Read(len: nat) returns (result: Code, out: seq<byte>)
      requires Valid()
      modifies this, pool, Chunks()
      ensures Valid()
      ensures out == old(Contents())[..Min(len, |old(Contents())|)]
      ensures Contents() == old(Contents())[|out|..]
      ensures result == if out == [] then Again else Ok
      ensures Lead() == LeadAfter(old(Lead()), |out|, |Contents()|, chunkSize)
      ensures Chunks() <= old(Chunks())
    {
      LeadInHead();
      hide Inv, Contents, Lead, LeadAfter, TakenSoFar;
      out := [];
      ghost var all := Contents();
      NothingTaken(all, Lead(), chunkSize);
      while |out| < len && head != null
        invariant Valid() && |out| <= len
        invariant TakenSoFar(all, out, Contents(), old(Lead()), Lead(), chunkSize)
        invariant Chunks() <= old(Chunks())
        decreases len - |out|, |live|
      {
        ghost var was, at := Contents(), Lead();
        var bytes := ReadChunk(len - |out|);
        MoreTaken(all, out, bytes, was, Contents(), old(Lead()), at, Lead(), chunkSize);
        out := out + bytes;
      }
      if head == null { NoHead(); }
      TakenEnough(all, out, Contents(), len, old(Lead()), Lead(), chunkSize);
      result := if out == [] then Again else Ok;
    }

    // One round of the read loop.
    method ReadChunk(len: nat) returns (bytes: seq<byte>)
      requires Valid() && head != null && len > 0
      modifies this, pool, Chunks()
      ensures Valid() && |bytes| <= len
      ensures old(Contents()) == bytes + Contents()
      ensures bytes == [] ==> |live| < old(|live|)
      ensures head == null ==> Contents() == []
      ensures Lead() == LeadAfter(old(Lead()), |bytes|, |Contents()|, chunkSize)
      ensures Chunks() <= old(Chunks())
    {
      HeadIsOurs();
      hide Inv, Contents, HeadMoved, LeadAfter;
      bytes := ReadHead(len);
      HeadGone(old(Lead()), |bytes|);
      PruneHead();
      if head == null { NoHead(); }
    }

    method ReadHead(len: nat) returns (bytes: seq<byte>)
      requires Valid() && head != null && len > 0
      modifies `parts, head`rOffset, head`wOffset
      ensures Inv(true) && |bytes| <= len
      ensures old(Contents()) == bytes + Contents()
      ensures bytes == [] ==> live[0].rOffset == live[0].wOffset
      ensures HeadMoved(old(Lead()), |bytes|)
    {
      assert head == live[0];
      HeadEnd();
      bytes := DrainHead(len);
      assert Packed(true);
    }

    // The head after `n` bytes were taken from it: drained at its end, or short of it.
    ghost predicate HeadMoved(lead: nat, n: nat)
      reads this, live
    {
      && live != []
      && (if Drained() then Contents() == [] || lead + n == chunkSize
          else lead + n == live[0].rOffset < live[0].wOffset <= chunkSize)
    }

    lemma HeadGone(lead: nat, n: nat)
      requires Inv(true) && HeadMoved(lead, n)
      ensures (if Drained() then 0 else Lead()) == LeadAfter(lead, n, |Contents()|, chunkSize)
    {
      hide LeadAfter, Flatten;
      if Drained() {
        LeadWraps(lead, n, |Contents()|, chunkSize);
      } else {
        NotDrained();
        EmptyParts();
        LeadWithin(lead, n, |Contents()|, chunkSize);
      }
    }

    // The head chunk is full, or it is all there is.
    lemma HeadEnd()
      requires Valid() && live != []
      ensures Lead() + |parts[0]| == live[0].wOffset && |Contents()| >= |parts[0]|
      ensures live[0].wOffset == chunkSize || Contents() == parts[0]
    {
      FlattenFirst(parts);
      if |live| == 1 { NoParts(); }
    }

    // The head either moved on by `n` or gave all it had.
    ghost predicate Took(n: nat, before: seq<seq<byte>>, at: nat)
      requires head != null
      reads `head, head`rOffset, head`wOffset
    {
      && before != [] && n <= |before[0]|
      && (if n < |before[0]| then head.rOffset == at + n < head.wOffset else head.rOffset == head.wOffset)
    }

    // Every chunk but the head still holds its part.
    ghost predicate RestFilled()
      reads `live, `parts, live`rOffset, live`wOffset, Stores(Elems(live))
    {
      && |parts| == |live|
      && forall i | 0 < i < |live| :: live[i].Valid() && parts[i] == live[i].Content()
    }

    // Reads in the head chunk only.
    method ReadTop(len: nat) returns (bytes: seq<byte>)
      requires live != [] && head == live[0] && Distinct(live) && Filled() && len > 0
      modifies head`rOffset, head`wOffset
      ensures RestFilled() && head.Valid() && |bytes| <= len && |bytes| <= |parts[0]|
      ensures bytes == parts[0][..|bytes|] && head.Content() == parts[0][|bytes|..]
      ensures head.wOffset == old(head.wOffset) || head.rOffset == head.wOffset
      ensures bytes == [] ==> head.rOffset == head.wOffset
      ensures |bytes| < |parts[0]| ==> head.rOffset == old(head.rOffset) + |bytes|
    {
      assert forall i | 0 < i < |live| :: Apart(live[0], live[i]);
      bytes := head.Read(len);
    }

    // Skips in the head chunk only.
    method SkipTop(amount: nat) returns (n: nat)
      requires live != [] && head == live[0] && Distinct(live) && Filled() && amount > 0
      modifies head`rOffset, head`wOffset
      ensures RestFilled() && head.Valid() && n <= amount && n <= |parts[0]|
      ensures head.Content() == parts[0][n..]
      ensures head.wOffset == old(head.wOffset) || head.rOffset == head.wOffset
      ensures n == 0 ==> head.rOffset == head.wOffset
      ensures n < |parts[0]| ==> head.rOffset == old(head.rOffset) + n
    {
      assert forall i | 0 < i < |live| :: Apart(live[0], live[i]);
      n := head.Skip(amount);
    }

    // The head's part is what its first `n` bytes leave.
    ghost method Shorten(n: nat)
      requires live != [] && RestFilled() && live[0].Valid()
      requires n <= |parts[0]| && live[0].Content() == parts[0][n..]
      modifies `parts
      ensures Filled() && old(Contents()) == old(parts)[0][..n] + Contents()
    {
      FlattenDrop(parts, n);
      parts := parts[0 := parts[0][n..]];
    }

    method DrainHead(len: nat) returns (bytes: seq<byte>)
      requires Chain() && Filled() && head != null && len > 0
      modifies `parts, head`rOffset, head`wOffset
      ensures Filled() && |bytes| <= len
      ensures old(Contents()) == bytes + Contents()
      ensures head.wOffset == old(head.wOffset) || head.rOffset == head.wOffset
      ensures bytes == [] ==> head.rOffset == head.wOffset
      ensures Took(|bytes|, old(parts), old(head.rOffset))
    {
      hide Filled, RestFilled, Flatten;
      bytes := ReadTop(len);
      Shorten(|bytes|);
    }

    // Discards the first min(amount, length) bytes.
    method Skip(amount: nat)
      requires Valid()
      modifies this, pool, Chunks()
      ensures Valid()
      ensures Contents() == old(Contents())[Min(amount, |old(Contents())|)..]
      ensures Lead() == LeadAfter(old(Lead()), Min(amount, |old(Contents())|), |Contents()|, chunkSize)
      ensures Chunks() <= old(Chunks())
    {
      LeadInHead();
      hide Inv, Contents, Lead, LeadAfter, TakenSoFar;
      var left: nat := amount;
      ghost var all, gone := Contents(), [];
      NothingTaken(all, Lead(), chunkSize);
      while left > 0 && head != null
        invariant Valid() && left + |gone| == amount
        invariant TakenSoFar(all, gone, Contents(), old(Lead()), Lead(), chunkSize)
        invariant Chunks() <= old(Chunks())
        decreases left, |live|
      {
        ghost var was, at := Contents(), Lead();
        var n;
        ghost var part;
        n, part := SkipChunk(left);
        MoreTaken(all, gone, part, was, Contents(), old(Lead()), at, Lead(), chunkSize);
        left := left - n;
        gone := gone + part;
      }
      if head == null { NoHead(); }
      TakenEnough(all, gone, Contents(), amount, old(Lead()), Lead(), chunkSize);
    }

    // One round of the skip loop.
    method SkipChunk(amount: nat) returns (n: nat, ghost part: seq<byte>)
      requires Valid() && head != null && amount > 0
      modifies this, pool, Chunks()
      ensures Valid() && |part| == n <= amount
      ensures old(Contents()) == part + Contents()
      ensures n == 0 ==> |live| < old(|live|)
      ensures head == null ==> Contents() == []
      ensures Lead() == LeadAfter(old(Lead()), n, |Contents()|, chunkSize)
      ensures Chunks() <= old(Chunks())
    {
      HeadIsOurs();
      hide Inv, Contents, HeadMoved, LeadAfter;
      n, part := SkipHead(amount);
      HeadGone(old(Lead()), n);
      PruneHead();
      if head == null { NoHead(); }
    }

    method SkipHead(amount: nat) returns (n: nat, ghost part: seq<byte>)
      requires Valid() && head != null && amount > 0
      modifies `parts, head`rOffset, head`wOffset
      ensures Inv(true) && |part| == n <= amount
      ensures old(Contents()) == part + Contents()
      ensures n == 0 ==> live[0].rOffset == live[0].wOffset
      ensures HeadMoved(old(Lead()), n)
    {
      assert head == live[0];
      HeadEnd();
      n, part := AdvanceHead(amount);
      assert Packed(true);
    }

    method AdvanceHead(amount: nat) returns (n: nat, ghost part: seq<byte>)
      requires Chain() && Filled() && head != null && amount > 0
      modifies `parts, head`rOffset, head`wOffset
      ensures Filled() && |part| == n <= amount
      ensures old(Contents()) == part + Contents()
      ensures head.wOffset == old(head.wOffset) || head.rOffset == head.wOffset
      ensures n == 0 ==> head.rOffset == head.wOffset
      ensures Took(n, old(parts), old(head.rOffset))
    {
      hide Filled, RestFilled, Flatten;
      n := SkipTop(amount);
      part := parts[0][..n];
      Shorten(n);
    }

    // The unread bytes of the head chunk; drops a drained head on the way.
    method Peek() returns (ok: bool, view: seq<byte>)
      requires Valid()
      modifies this, pool, Chunks()
      ensures Valid() && Contents() == old(Contents())
      ensures ok <==> Contents() != []
      ensures ok ==> view != [] && view == parts[0] && view <= Contents()
      ensures ok ==> |view| == ToChunkEnd(Lead(), 0, |Contents()|, chunkSize)
      ensures Lead() == old(Lead()) && (ok ==> IsFull() == old(IsFull()))
      ensures !ok ==> view == []
      ensures Chunks() <= old(Chunks())
    {
      if head != null && head.IsEmpty() {
        PruneHead();
      }
      EmptyParts();
      if head != null && !head.IsEmpty() {
        assert head == live[0];
        ViewLength(0, 0, 0);
        return true, head.data[head.rOffset..head.wOffset];
      }
      return false, [];
    }

    // The bytes from `offset` to the end of the chunk that holds them.
    method PeekAt(offset: nat) returns (ok: bool, view: seq<byte>)
      requires Valid()
      ensures ok <==> offset < |Contents()|
      ensures ok ==> view != [] && offset + |view| <= |Contents()| && view == Contents()[offset..offset + |view|]
      ensures ok ==> |view| == ToChunkEnd(Lead(), offset, |Contents()|, chunkSize)
      ensures !ok ==> view == []
    {
      hide Packed, Counted, Pooled, Flatten;
      var c := head;
      var left: nat := offset;
      ghost var i := 0;
      assert parts[..0] == [] && Flatten([]) == [] by { NoParts(); }
      while c != null
        invariant i <= |live| && c == (if i < |live| then live[i] else null)
        invariant Walked(parts, i, left, offset)
        decreases |live| - i
      {
        WalkOn(parts, i, left, offset);
        assert live[i].Valid() && parts[i] == live[i].Content();
        var clen := c.wOffset - c.rOffset;
        if clen == 0 {
          OnlyTailEmpty(i);
          break;
        }
        if left >= clen {
          left := left - clen;
          c := c.next;
          i := i + 1;
          continue;
        }
        ViewLength(i, left, offset);
        return true, c.data[c.rOffset + left..c.wOffset];
      }
      WalkedAll(parts, i, left, offset);
      return false, [];
    }

    method Len() returns (len: nat)
      requires Valid()
      ensures len == |Contents()|
    {
      var chunk := head;
      ghost var i := 0;
      len := 0;
      while chunk != null
        invariant i <= |live| && chunk == (if i < |live| then live[i] else null)
        invariant len == |Flatten(parts[..i])|
        decreases |live| - i
      {
        FlattenSplit(parts, i);
        len := len + (chunk.wOffset - chunk.rOffset);
        chunk := chunk.next;
        i := i + 1;
      }
      assert parts[..i] == parts;
    }

    // With a hard limit, full means that not one more byte fits.
    predicate IsFull()
      requires Valid()
      reads this, live, spares, Stores(Elems(live)), pool, if pool != null then pool.spares else []
      ensures !softLimit ==> (IsFull() <==> Room() == 0)
    {
      if tail == null || spare != null then false
      else if chunkCount < maxChunks then false
      else if chunkCount > maxChunks then true
      else
        assert tail == live[|live| - 1];
        tail.IsFull()
    }

    // Empties the queue and keeps its chunks.
    method Reset()
      requires Valid()
      modifies this, live
      ensures Valid() && Contents() == [] && Lead() == 0
      ensures chunkCount == old(chunkCount) && |spares| == chunkCount
      ensures Chunks() == old(Chunks())
    {
      while head != null
        invariant Chain() && Filled() && Counted() && Pooled()
        invariant chunkCount == old(chunkCount)
        invariant forall c | c in live :: c in old(live)
        invariant Chunks() == old(Chunks())
        decreases |live|
      {
        assert head == live[0] && head in live;
        HeadToSpare();
      }
    }

    method HeadToSpare()
      requires Chain() && Filled() && Counted() && Pooled() && head != null
      modifies `head, `tail, `live, `parts, `spare, `spares, head`next
      ensures Chain() && Filled() && Counted() && Pooled()
      ensures live == old(live)[1..] && |spares| == |old(spares)| + 1 && Chunks() == old(Chunks())
    {
      ElemsTail(live);
      hide Linked, Sized, Elems;
      var chunk := UnlinkPointers();
      LinkSpare(chunk);
      PushElems(chunk, old(spares));
    }

    lemma PushElems(chunk: Chunk, before: seq<Chunk>)
      ensures Elems([chunk] + before) == Elems(before) + {chunk}
    {
    }
  }
}
