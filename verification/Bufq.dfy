// A FIFO of bytes kept in linked chunks of one fixed size (libcurl's bufq):
// reads advance the head chunk, writes fill the tail chunk, and drained chunks
// are kept as spares, handed to a shared pool, or freed.
module Bufq {

  newtype byte = x: int | 0 <= x < 256

  datatype Code = Ok | Again | OutOfMemory | Failed

  function Min(a: nat, b: nat): nat { if a <= b then a else b }

  // What `n` chunks hold.
  function Capacity(n: nat, size: nat): nat {
    if n == 0 then 0 else size + Capacity(n - 1, size)
  }

  lemma {:induction false} CapacityIsProduct(n: nat, size: nat)
    ensures Capacity(n, size) == n * size
  {
    if n != 0 { CapacityIsProduct(n - 1, size); }
  }

  lemma {:induction false} CapacitySum(a: nat, b: nat, size: nat)
    ensures Capacity(a + b, size) == Capacity(a, size) + Capacity(b, size)
  {
    if a != 0 { CapacitySum(a - 1, b, size); }
  }

  // ---------------------------------------------------------------- contents

  function Flatten(parts: seq<seq<byte>>): seq<byte> {
    if parts == [] then [] else parts[0] + Flatten(parts[1..])
  }

  lemma {:induction false} FlattenConcat(a: seq<seq<byte>>, b: seq<seq<byte>>)
    ensures Flatten(a + b) == Flatten(a) + Flatten(b)
  {
    if a == [] {
      assert a + b == b;
    } else {
      assert (a + b)[1..] == a[1..] + b;
      FlattenConcat(a[1..], b);
    }
  }

  lemma FlattenSplit(parts: seq<seq<byte>>, i: nat)
    requires i < |parts|
    ensures Flatten(parts[..i + 1]) == Flatten(parts[..i]) + parts[i]
    ensures Flatten(parts) == Flatten(parts[..i]) + parts[i] + Flatten(parts[i + 1..])
  {
    FlattenConcat(parts[..i], [parts[i]]);
    assert parts[..i + 1] == parts[..i] + [parts[i]];
    FlattenConcat(parts[..i + 1], parts[i + 1..]);
    assert parts == parts[..i + 1] + parts[i + 1..];
    assert Flatten([parts[i]]) == parts[i];
  }

  lemma FlattenLast(parts: seq<seq<byte>>)
    requires parts != []
    ensures Flatten(parts) == Flatten(parts[..|parts| - 1]) + parts[|parts| - 1]
  {
    var n := |parts| - 1;
    assert parts == parts[..n] + [parts[n]];
    FlattenConcat(parts[..n], [parts[n]]);
    assert Flatten([parts[n]]) == parts[n];
  }

  // Extending the last part extends the whole.
  lemma FlattenExtend(parts: seq<seq<byte>>, more: seq<byte>)
    requires parts != []
    ensures Flatten(parts[|parts| - 1 := parts[|parts| - 1] + more]) == Flatten(parts) + more
  {
    var n := |parts| - 1;
    var q := parts[n := parts[n] + more];
    FlattenLast(parts);
    FlattenLast(q);
    assert q[..n] == parts[..n];
  }

  lemma FlattenPush(parts: seq<seq<byte>>)
    ensures Flatten(parts + [[]]) == Flatten(parts)
  {
    FlattenConcat(parts, [[]]);
    assert Flatten([[]]) == [];
  }

  // Reading into the first part reads into the whole.
  lemma FlattenDrop(parts: seq<seq<byte>>, n: nat)
    requires parts != [] && n <= |parts[0]|
    ensures Flatten(parts) == parts[0][..n] + Flatten(parts[0 := parts[0][n..]])
  {
    hide Flatten;
    FlattenFirst(parts);
    FlattenFirst(parts[0 := parts[0][n..]]);
    assert parts[0 := parts[0][n..]][1..] == parts[1..];
    assert parts[0] == parts[0][..n] + parts[0][n..];
    assert (parts[0][..n] + parts[0][n..]) + Flatten(parts[1..]) ==
           parts[0][..n] + (parts[0][n..] + Flatten(parts[1..]));
  }

  lemma NoParts()
    ensures Flatten([]) == []
  {
  }

  lemma FlattenFirst(parts: seq<seq<byte>>)
    requires parts != []
    ensures Flatten(parts) == parts[0] + Flatten(parts[1..])
  {
  }

  // Walking to an offset: `left` bytes are still to pass at the i-th part.
  ghost predicate Walked(parts: seq<seq<byte>>, i: nat, left: nat, offset: nat) {
    i <= |parts| && |Flatten(parts[..i])| + left == offset
  }

  lemma WalkOn(parts: seq<seq<byte>>, i: nat, left: nat, offset: nat)
    requires Walked(parts, i, left, offset) && i < |parts|
    ensures left >= |parts[i]| ==> Walked(parts, i + 1, left - |parts[i]|, offset)
    ensures left < |parts[i]| ==>
              var n := |parts[i]| - left;
              offset + n <= |Flatten(parts)| && Flatten(parts)[offset..offset + n] == parts[i][left..]
  {
    hide Flatten;
    FlattenSplit(parts, i);
    var a, b, c := Flatten(parts[..i]), parts[i], Flatten(parts[i + 1..]);
    assert left < |b| ==> (a + b + c)[|a| + left..|a| + |b|] == b[left..];
  }

  lemma WalkedAll(parts: seq<seq<byte>>, i: nat, left: nat, offset: nat)
    requires Walked(parts, i, left, offset) && (i == |parts| || (i == |parts| - 1 && parts[i] == []))
    ensures offset >= |Flatten(parts)|
  {
    if i < |parts| {
      FlattenSplit(parts, i);
      assert parts[i + 1..] == [];
    } else {
      assert parts[..i] == parts;
    }
  }

  // How much of its first chunk a queue has read once `n` more bytes are gone
  // and `left` remain, when `lead` was read of it before.
  function LeadAfter(lead: nat, n: nat, left: nat, size: nat): nat {
    if left == 0 || size == 0 then 0 else (lead + n) % size
  }

  // How many bytes lie from `offset` to the end of its chunk or of the queue.
  function ToChunkEnd(lead: nat, offset: nat, len: nat, size: nat): nat
    requires offset <= len && size > 0
  {
    Min(len - offset, size - (lead + offset) % size)
  }

  // What the chunk that ends `used` bytes still takes.
  function LastRoom(used: nat, size: nat): nat {
    if size == 0 || used % size == 0 then 0 else size - used % size
  }

  lemma LastRoomIs(chunks: nat, last: nat, size: nat)
    requires last <= size
    ensures LastRoom(chunks * size + last, size) <= size - last
  {
    if last == size && size > 0 {
      ModUnique(chunks * size + last, chunks + 1, 0, size);
    } else if size > 0 {
      ModUnique(chunks * size + last, chunks, last, size);
    }
  }

  lemma LeadAgain(lead: nat, n: nat, m: nat, left: nat, size: nat)
    requires size > 0
    ensures LeadAfter(LeadAfter(lead, n, m + left, size), m, left, size) == LeadAfter(lead, n + m, left, size)
  {
    if left != 0 { ModAgain(lead + n, m, size); }
  }

  lemma ModAgain(a: nat, b: nat, size: nat)
    requires size > 0
    ensures (a % size + b) % size == (a + b) % size
  {
    var c := a % size + b;
    assert a == size * (a / size) + a % size;
    assert c == size * (c / size) + c % size;
    assert size * (a / size + c / size) == size * (a / size) + size * (c / size);
    ModUnique(a + b, a / size + c / size, c % size, size);
  }

  lemma ModUnique(x: nat, q: nat, r: nat, size: nat)
    requires r < size && x == size * q + r
    ensures x % size == r
  {
    var p := x / size;
    assert x == size * p + x % size;
    if q > p { Multiples(p, q, size); }
    if q < p { Multiples(q, p, size); }
  }

  lemma Multiples(p: nat, q: nat, size: nat)
    requires p < q
    ensures size * q >= size * p + size
  {
    assert size * q == size * p + size * (q - p);
    assert size * (q - p) == size + size * (q - p - 1);
  }

  lemma LeadWraps(lead: nat, n: nat, left: nat, size: nat)
    requires left == 0 || lead + n == size
    ensures LeadAfter(lead, n, left, size) == 0
  {
    if size > 0 { ModUnique(size, 1, 0, size); }
  }

  lemma LeadWithin(lead: nat, n: nat, left: nat, size: nat)
    requires left > 0 && lead + n < size
    ensures LeadAfter(lead, n, left, size) == lead + n
  {
  }

  // Taking from the front: `out` is gone, `now` is left, and the head chunk's
  // read bytes went from `first` to `lead`.
  ghost predicate TakenSoFar(all: seq<byte>, out: seq<byte>, now: seq<byte>, first: nat, lead: nat, size: nat) {
    all == out + now && lead == LeadAfter(first, |out|, |now|, size)
  }

  lemma NothingTaken(all: seq<byte>, lead: nat, size: nat)
    requires lead < size && (all == [] ==> lead == 0)
    ensures TakenSoFar(all, [], all, lead, lead, size)
  {
  }

  lemma MoreTaken(all: seq<byte>, out: seq<byte>, part: seq<byte>, was: seq<byte>, now: seq<byte>,
                  first: nat, at: nat, lead: nat, size: nat)
    requires size > 0 && TakenSoFar(all, out, was, first, at, size)
    requires was == part + now && lead == LeadAfter(at, |part|, |now|, size)
    ensures TakenSoFar(all, out + part, now, first, lead, size)
  {
    hide LeadAfter;
    assert out + (part + now) == (out + part) + now;
    LeadAgain(first, |out|, |part|, |now|, size);
  }

  // It stopped at `len` or took everything.
  lemma TakenEnough(all: seq<byte>, out: seq<byte>, rest: seq<byte>, len: nat, first: nat, lead: nat, size: nat)
    requires TakenSoFar(all, out, rest, first, lead, size) && |out| <= len && (|out| == len || rest == [])
    ensures out == all[..Min(len, |all|)] && rest == all[Min(len, |all|)..]
    ensures |out| == Min(len, |all|) && lead == LeadAfter(first, |out|, |rest|, size)
  {
  }

  // A part of `buf` moved onto the end of `was` keeps the whole together.
  lemma MovedIn(was: seq<byte>, now: seq<byte>, all: seq<byte>, buf: seq<byte>, n: nat, m: nat)
    requires n <= |buf| && m <= |buf[n..]|
    requires was == all + buf[..n] && now == was + buf[n..][..m]
    ensures now == all + buf[..n + m]
  {
    assert buf[..n] + buf[n..][..m] == buf[..n + m];
    assert (all + buf[..n]) + buf[n..][..m] == all + (buf[..n] + buf[n..][..m]);
  }

  // ------------------------------------------------------------------- lists

  ghost predicate Linked(head: Chunk?, cs: seq<Chunk>)
    reads cs`next
  {
    && (head == if cs == [] then null else cs[0])
    && (forall i | 0 <= i < |cs| - 1 :: cs[i].next == cs[i + 1])
    && (cs != [] ==> cs[|cs| - 1].next == null)
  }

  // Chunks do not share storage.
  ghost predicate Apart(a: Chunk, b: Chunk) {
    a != b && a.data != b.data
  }

  ghost predicate Distinct(cs: seq<Chunk>) {
    forall i, j | 0 <= i < j < |cs| :: Apart(cs[i], cs[j])
  }

  ghost predicate Rewound(c: Chunk)
    reads c
  {
    c.next == null && c.rOffset == c.wOffset == 0
  }

  ghost predicate Outside(c: Chunk, cs: seq<Chunk>) {
    forall i | 0 <= i < |cs| :: Apart(c, cs[i])
  }

  ghost predicate Disjoint(cs: seq<Chunk>, ds: seq<Chunk>) {
    forall i, j | 0 <= i < |cs| && 0 <= j < |ds| :: Apart(cs[i], ds[j])
  }

  ghost predicate Sized(cs: seq<Chunk>, size: nat) {
    forall i | 0 <= i < |cs| :: cs[i].data.Length == size
  }

  lemma DistinctPush(cs: seq<Chunk>, ds: seq<Chunk>, c: Chunk)
    requires Distinct(cs) && Disjoint(cs, ds) && Outside(c, cs) && Outside(c, ds)
    ensures Distinct(cs + [c]) && Disjoint(cs + [c], ds)
  {
    var es := cs + [c];
    forall i, j | 0 <= i < j < |es| ensures Apart(es[i], es[j]) {
      if j == |cs| { assert Apart(c, cs[i]); }
    }
  }

  // The storage behind a set of chunks.
  ghost function Stores(cs: set<Chunk>): set<array<byte>> {
    set c | c in cs :: c.data
  }

  ghost function Elems(cs: seq<Chunk>): set<Chunk> {
    set c | c in cs
  }

  class Chunk {
    var next: Chunk?
    const data: array<byte>
    var rOffset: nat
    var wOffset: nat

    constructor (size: nat)
      ensures next == null && rOffset == wOffset == 0
      ensures data.Length == size && fresh(data)
    {
      next, rOffset, wOffset := null, 0, 0;
      data := new byte[size];
    }

    // An empty chunk is always rewound.
    ghost predicate Valid()
      reads `rOffset, `wOffset
    {
      rOffset <= wOffset <= data.Length && (rOffset == wOffset ==> rOffset == 0)
    }

    ghost function Content(): seq<byte>
      requires Valid()
      reads `rOffset, `wOffset, data
    {
      data[rOffset..wOffset]
    }

    predicate IsEmpty()
      reads this
    {
      rOffset >= wOffset
    }

    predicate IsFull()
      reads this
    {
      wOffset >= data.Length
    }

    method Reset()
      modifies this
      ensures next == null && rOffset == wOffset == 0
    {
      next := null;
      rOffset, wOffset := 0, 0;
    }

    method Append(buf: seq<byte>) returns (n: nat)
      requires Valid()
      modifies this`wOffset, data
      ensures Valid() && n == Min(|buf|, data.Length - old(wOffset))
      ensures wOffset == old(wOffset) + n
      ensures Content() == old(Content()) + buf[..n]
    {
      n := data.Length - wOffset;
      if n != 0 {
        n := Min(n, |buf|);
        ghost var was, at := Content(), wOffset;
        forall i | 0 <= i < n { data[wOffset + i] := buf[i]; }
        assert forall k | at <= k < at + n :: data[k] == buf[k - at];
        wOffset := wOffset + n;
        assert data[rOffset..at] == was && data[at..wOffset] == buf[..n];
        assert data[rOffset..wOffset] == data[rOffset..at] + data[at..wOffset];
      }
    }

    method Read(len: nat) returns (out: seq<byte>)
      requires Valid() && len > 0
      modifies this`rOffset, this`wOffset
      ensures Valid()
      ensures out == old(Content())[..Min(len, |old(Content())|)]
      ensures Content() == old(Content())[Min(len, |old(Content())|)..]
      ensures wOffset == old(wOffset) || rOffset == wOffset
      ensures out == [] ==> rOffset == wOffset
      ensures |out| < |old(Content())| ==> rOffset == old(rOffset) + |out|
    {
      var n := wOffset - rOffset;
      if n == 0 {
        out := [];
      } else if n <= len {
        out := data[rOffset..wOffset];
        rOffset, wOffset := 0, 0;
      } else {
        out := data[rOffset..rOffset + len];
        rOffset := rOffset + len;
      }
    }

    method Skip(amount: nat) returns (n: nat)
      requires Valid()
      modifies this`rOffset, this`wOffset
      ensures Valid() && n == Min(amount, |old(Content())|)
      ensures Content() == old(Content())[n..]
      ensures wOffset == old(wOffset) || rOffset == wOffset
      ensures n == 0 && amount > 0 ==> rOffset == wOffset
      ensures n < |old(Content())| ==> rOffset == old(rOffset) + n
    {
      n := wOffset - rOffset;
      if n != 0 {
        n := Min(n, amount);
        rOffset := rOffset + n;
        if rOffset == wOffset {
          rOffset, wOffset := 0, 0;
        }
      }
    }
  }

  // Memory exhaustion can strike any allocation.
  method Allocate(size: nat) returns (chunk: Chunk?)
    ensures chunk != null ==> fresh(chunk) && fresh(chunk.data)
    ensures chunk != null ==> chunk.next == null && chunk.rOffset == chunk.wOffset == 0 && chunk.data.Length == size
  {
    var granted: bool := *;
    if granted {
      chunk := new Chunk(size);
    } else {
      chunk := null;
    }
  }

  // -------------------------------------------------------------------- pool

  class Pool {
    var spare: Chunk?
    const chunkSize: nat
    var spareCount: nat
    const spareMax: nat
    ghost var spares: seq<Chunk>

    ghost predicate Valid()
      reads this, spares`next
    {
      && chunkSize > 0 && spareMax > 0
      && Linked(spare, spares) && Distinct(spares) && Sized(spares, chunkSize)
      && spareCount == |spares| <= spareMax
    }

    constructor (chunkSize: nat, spareMax: nat)
      requires chunkSize > 0 && spareMax > 0
      ensures Valid() && spares == [] && this.chunkSize == chunkSize && this.spareMax == spareMax
    {
      spare, spareCount, spares := null, 0, [];
      this.chunkSize, this.spareMax := chunkSize, spareMax;
    }

    method Take() returns (chunk: Chunk?)
      requires Valid()
      modifies this, if spare == null then {} else {spare}
      ensures Valid()
      ensures chunk == null ==> spares == old(spares) == []
      ensures chunk != null ==> chunk.next == null && chunk.rOffset == chunk.wOffset == 0
      ensures chunk != null ==> chunk.data.Length == chunkSize
      ensures chunk != null ==>
                if old(spares) != [] then chunk == old(spares)[0] && spares == old(spares)[1..]
                else spares == [] && fresh(chunk) && fresh(chunk.data)
    {
      chunk := spare;
      if chunk != null {
        spare := chunk.next;
        spareCount := spareCount - 1;
        spares := spares[1..];
        chunk.Reset();
        return;
      }
      chunk := Allocate(chunkSize);
    }

    // Keeps the chunk as a spare, or frees it when enough are kept.
    method Put(chunk: Chunk)
      requires Valid() && chunk.data.Length == chunkSize
      requires Outside(chunk, spares)
      modifies this, chunk
      ensures Valid()
      ensures spares == if |old(spares)| < spareMax then [chunk] + old(spares) else old(spares)
    {
      if spareCount >= spareMax {
        return;
      }
      chunk.Reset();
      chunk.next := spare;
      spare := chunk;
      spareCount := spareCount + 1;
      spares := [chunk] + spares;
    }

    method Free()
      requires Valid()
      modifies this
      ensures Valid() && spares == []
    {
      spare, spareCount, spares := null, 0, [];
    }
  }
}
