// Moving bytes between a queue and the outside through callbacks that may
// block, fail, or take and give less than asked.  A callback's answer is any
// code together with any amount the call allows; one that fails moves nothing.
module BufqIO {
  import opened Bufq
  import opened BufqQueue

  // Takes bytes from the queue and remembers them.
  class Writer {
    ghost var log: seq<byte>      // everything it accepted, in order
    ghost var last: Code          // its latest answer
    ghost var stuck: bool         // whether that answer took nothing
    ghost var calls: nat

    constructor ()
      ensures log == [] && last == Ok && !stuck && calls == 0
    {
      log, last, stuck, calls := [], Ok, false, 0;
    }

    method Accept(buf: seq<byte>) returns (result: Code, m: nat)
      modifies this
      ensures m <= |buf| && (result != Ok ==> m == 0)
      ensures log == old(log) + buf[..m] && last == result && stuck == (m == 0)
      ensures calls == old(calls) + 1
    {
      result, m :| m <= |buf| && (result != Ok ==> m == 0);
      log, last, stuck, calls := log + buf[..m], result, m == 0, calls + 1;
    }
  }

  predicate Failure(code: Code) {
    code != Ok && code != Again
  }

  // Hands the queue's bytes to the writer until it blocks, fails or all are gone.
  method Pass(q: Queue, w: Writer) returns (result: Code, n: nat)
    requires q.Valid()
    modifies q, q.pool, q.Chunks(), w
    ensures q.Valid()
    ensures w.log + q.Contents() == old(w.log + q.Contents()) && |w.log| == |old(w.log)| + n
    ensures q.Contents() == [] || w.stuck
    ensures w.calls >= old(w.calls) && (w.calls > old(w.calls) <==> old(q.Contents()) != [])
    ensures result != Ok ==> w.stuck
    ensures n == 0 && old(q.Contents()) != [] ==> q.IsFull() == old(q.IsFull())
    // blocked before anything was passed is blocked, after that it is not
    ensures result == if old(q.Contents()) == [] then Ok
                      else if Failure(w.last) then w.last
                      else if n == 0 then Again else Ok
    ensures q.Chunks() <= old(q.Chunks())
  {
    hide Queue.Inv, Queue.Room, Queue.Contents;
    result, n := Ok, 0;
    while true
      invariant q.Valid() && |w.log| == |old(w.log)| + n && result == Ok
      invariant w.log + q.Contents() == old(w.log + q.Contents())
      invariant if n == 0 then q.Contents() == old(q.Contents()) && w.calls == old(w.calls)
                else old(q.Contents()) != [] && w.last == Ok && w.calls > old(w.calls)
      invariant n == 0 ==> q.IsFull() == old(q.IsFull())
      invariant q.Chunks() <= old(q.Chunks())
      decreases |q.Contents()|
    {
      var more, m;
      more, result, m := PassChunk(q, w);
      n := n + m;
      if !more { break; }
      if result != Ok {
        if result == Again && n > 0 { result := Ok; }
        break;
      }
      if m == 0 {
        if n == 0 { result := Again; }
        break;
      }
    }
  }

  // One round: offers the head chunk and skips what was accepted.
  method PassChunk(q: Queue, w: Writer) returns (more: bool, result: Code, m: nat)
    requires q.Valid()
    modifies q, q.pool, q.Chunks(), w
    ensures q.Valid()
    ensures more <==> old(q.Contents()) != []
    ensures !more ==> result == Ok && m == 0 && w.last == old(w.last)
    ensures more ==> result == w.last && w.stuck == (m == 0) && (result != Ok ==> m == 0)
    ensures w.log + q.Contents() == old(w.log + q.Contents()) && |w.log| == |old(w.log)| + m
    ensures |q.Contents()| == |old(q.Contents())| - m && (m == 0 ==> q.Contents() == old(q.Contents()))
    ensures w.calls == old(w.calls) + if more then 1 else 0
    ensures more && m == 0 ==> q.IsFull() == old(q.IsFull())
    ensures q.Chunks() <= old(q.Chunks())
  {
    hide Queue.Inv, Queue.Room, Queue.Contents;
    var buf;
    more, buf := q.Peek();
    result, m := Ok, 0;
    if more {
      ghost var was, logged := q.Contents(), w.log;
      result, m := Offer(q, buf, w);
      if m > 0 {
        q.Skip(m);
      }
      HandedOn(logged, buf, was, m);
    }
  }

  // The writer does not touch the queue.
  method Offer(q: Queue, buf: seq<byte>, w: Writer) returns (result: Code, m: nat)
    requires q.Valid()
    modifies w
    ensures q.Valid() && q.Contents() == old(q.Contents()) && q.IsFull() == old(q.IsFull())
    ensures m <= |buf| && (result != Ok ==> m == 0) && w.calls == old(w.calls) + 1
    ensures w.log == old(w.log) + buf[..m] && w.last == result && w.stuck == (m == 0)
  {
    result, m := w.Accept(buf);
  }

  lemma HandedOn(log: seq<byte>, buf: seq<byte>, was: seq<byte>, m: nat)
    requires m <= |buf| && buf <= was
    ensures Min(m, |was|) == m && (log + buf[..m]) + was[m..] == log + was && (m == 0 ==> log + buf[..m] == log)
  {
    assert buf[..m] == was[..m];
    assert (log + was[..m]) + was[m..] == log + (was[..m] + was[m..]);
  }

  // What was sent and what is queued are what was queued and what came in.
  ghost predicate Conserves(all: seq<byte>, log: seq<byte>, contents: seq<byte>, buf: seq<byte>, taken: nat) {
    taken <= |buf| && log + contents == all + buf[..taken]
  }

  // Buffers `buf`, passing older bytes on whenever the queue is full.  `taken`
  // bytes of `buf` went in, `n` are reported.
  method WritePass(q: Queue, buf: seq<byte>, w: Writer)
    returns (result: Code, n: nat, ghost taken: nat, ghost oom: bool)
    requires q.Valid()
    modifies q, q.pool, q.Chunks(), Stores(q.Chunks()), w
    ensures q.Valid()
    ensures Conserves(old(w.log + q.Contents()), w.log, q.Contents(), buf, taken)
    // only the queue's own memory failure makes the report too small
    ensures if oom then result == OutOfMemory && n <= taken else n == taken
    // and it does so when the first round met it with room left
    ensures oom && n == 0 && !old(q.IsFull()) ==> taken >= old(q.OwnRoom())
    // otherwise it gives up when the queue is full and the writer takes nothing,
    // or fails as the writer did
    ensures !oom && n < |buf| ==> w.stuck && w.calls > old(w.calls)
    ensures !oom ==> if Failure(result) then n < |buf| && result == w.last
                     else result == if n == 0 && buf != [] then Again else Ok
    ensures !oom && n < |buf| && !Failure(result) ==> q.IsFull() && !Failure(w.last)
    // and the writer is not asked when there is room
    ensures !q.softLimit && |buf| <= old(q.Room()) ==> w.calls == old(w.calls) && (oom || n == |buf|)
  {
    hide Queue.Inv, Queue.Room, Queue.OwnRoom, Queue.Contents;
    result, n, taken, oom := Ok, 0, 0, false;
    ghost var all := w.log + q.Contents();
    assert all == all + buf[..taken];
    while n < |buf|
      invariant q.Valid() && n == taken && !oom
      invariant Conserves(all, w.log, q.Contents(), buf, taken)
      invariant n == 0 ==>
                  q.OwnRoom() == old(q.OwnRoom()) && q.IsFull() == old(q.IsFull()) && q.Room() == old(q.Room())
      invariant w.calls >= old(w.calls) && result == Ok
      invariant !q.softLimit && |buf| <= old(q.Room()) ==> w.calls == old(w.calls) && (n == 0 || n == |buf|)
      invariant forall c | c in q.Chunks() :: c in old(q.Chunks()) || (fresh(c) && fresh(c.data))
    {
      var m, full;
      ghost var was := w.log + q.Contents();
      result, m, full, oom := WritePassRound(q, buf[n..], w);
      Conserved(all, was, w.log, q.Contents(), buf, taken, m);
      taken := taken + m;
      if full || result != Ok || m == 0 { break; }
      n := n + m;
    }
    if !Failure(result) {
      result := if n == 0 && |buf| > 0 then Again else Ok;
    }
  }

  lemma Conserved(all: seq<byte>, was: seq<byte>, log: seq<byte>, now: seq<byte>, buf: seq<byte>, n: nat, m: nat)
    requires n <= |buf| && was == all + buf[..n] && Conserves(was, log, now, buf[n..], m)
    ensures Conserves(all, log, now, buf, n + m)
  {
    MovedIn(was, log + now, all, buf, n, m);
  }

  lemma EmptyHasRoom(q: Queue)
    requires q.Valid()
    ensures q.Room() >= 0 && (!q.softLimit && q.Contents() == [] ==> q.Room() > 0)
  {
    q.LeadInHead();
    q.RoomIsEnough();
    if !q.softLimit {
      q.RoomLeft();
    }
  }

  // One round: makes room if the queue is full, then adds what fits.
  method WritePassRound(q: Queue, buf: seq<byte>, w: Writer)
    returns (result: Code, m: nat, full: bool, ghost oom: bool)
    requires q.Valid() && buf != []
    modifies q, q.pool, q.Chunks(), Stores(q.Chunks()), w
    ensures q.Valid()
    ensures Conserves(old(w.log + q.Contents()), w.log, q.Contents(), buf, m)
    ensures full || result == Again ==> m == 0
    ensures if oom then result == OutOfMemory else m == 0 || result == Ok
    ensures w.calls >= old(w.calls) && (!old(q.IsFull()) ==> w.calls == old(w.calls))
    ensures !oom && m == 0 ==>
              && w.stuck && w.calls > old(w.calls)
              && (if Failure(result) then result == w.last else q.IsFull() && !Failure(w.last))
    ensures !q.softLimit && 0 < |buf| <= old(q.Room()) ==> oom || m == |buf|
    ensures oom && !old(q.IsFull()) ==> m >= old(q.OwnRoom())
    ensures forall c | c in q.Chunks() :: c in old(q.Chunks()) || (fresh(c) && fresh(c.data))
  {
    hide Queue.Inv, Queue.Room, Queue.OwnRoom, Queue.Contents;
    full, oom := false, false;
    if q.IsFull() {
      var passed;
      result, passed := Pass(q, w);
      if result != Ok {
        assert w.log + q.Contents() == w.log + q.Contents() + buf[..0];
        return result, 0, result == Again, false;
      }
    }
    ghost var was := q.Contents();
    EmptyHasRoom(q);
    result, m, oom := q.Write(buf);
    Appended(w.log, was, q.Contents(), w.log + was, buf[..m]);
  }

  lemma Appended(part: seq<byte>, was: seq<byte>, now: seq<byte>, all: seq<byte>, more: seq<byte>)
    requires part + was == all && now == was + more
    ensures part + now == all + more
  {
    assert part + (was + more) == (part + was) + more;
  }

  // Supplies bytes; what it has not supplied yet is `stream`.
  class Reader {
    var stream: seq<byte>
    ghost var last: Code          // its latest answer
    ghost var short: bool         // whether that answer gave less than asked
    ghost var calls: nat

    constructor (stream: seq<byte>)
      ensures this.stream == stream && last == Ok && !short && calls == 0
    {
      this.stream, last, short, calls := stream, Ok, false, 0;
    }

    method Supply(most: nat) returns (result: Code, bytes: seq<byte>)
      modifies this
      ensures |bytes| <= most && (result != Ok ==> bytes == [])
      ensures old(stream) == bytes + stream
      ensures last == result && short == (result != Ok || |bytes| < most)
      ensures calls == old(calls) + 1
    {
      var n: nat;
      result, n :| n <= most && n <= |stream| && (result != Ok ==> n == 0);
      bytes, stream := stream[..n], stream[n..];
      last, short, calls := result, result != Ok || n < most, calls + 1;
    }
  }

  // The next `n` bytes of the stream are now the last ones of the queue.
  ghost predicate Drew(contents: seq<byte>, stream: seq<byte>, now: seq<byte>, rest: seq<byte>, n: nat) {
    n <= |stream| && now == contents + stream[..n] && rest == stream[n..]
  }

  lemma DrewNothing(contents: seq<byte>, stream: seq<byte>)
    ensures Drew(contents, stream, contents, stream, 0)
  {
  }

  lemma DrewMore(contents: seq<byte>, stream: seq<byte>, was: seq<byte>, left: seq<byte>, now: seq<byte>,
                 rest: seq<byte>, n: nat, m: nat)
    requires Drew(contents, stream, was, left, n) && Drew(was, left, now, rest, m)
    ensures Drew(contents, stream, now, rest, n + m) && |rest| == |left| - m
  {
    MovedIn(was, now, contents, stream, n, m);
    assert stream[n..][m..] == stream[n + m..];
  }

  lemma DrewBytes(contents: seq<byte>, stream: seq<byte>, bytes: seq<byte>, rest: seq<byte>)
    requires stream == bytes + rest
    ensures Drew(contents, stream, contents + bytes, rest, |bytes|) && bytes[..|bytes|] == bytes
  {
    assert stream[..|bytes|] == bytes;
  }

  // One call of the reader for the free part of the tail chunk; `called` tells
  // whether there was a tail.
  method Sipn(q: Queue, maxLen: nat, r: Reader) returns (result: Code, n: nat, ghost called: bool, ghost oom: bool)
    requires q.Valid()
    modifies q, q.pool, q.Chunks(), Stores(q.Chunks()), r
    ensures q.Valid() && Drew(old(q.Contents()), old(r.stream), q.Contents(), r.stream, n)
    ensures called ==> !oom && result == r.last && (result != Ok ==> n == 0)
    ensures !called ==> n == 0 && (oom || (!q.softLimit && q.Room() == 0))
    // a queue over its limit calls a failed allocation blocking, too
    ensures !called ==> result == (if oom && q.chunkCount < q.maxChunks then OutOfMemory else Again)
    ensures !called ==> q.chunkCount == old(q.chunkCount)
    ensures maxLen > 0 ==> n <= maxLen
    ensures r.calls == old(r.calls) + if called then 1 else 0
    ensures called && n == 0 ==> r.short
    ensures called && !r.short ==> q.tail != null && (q.tail.IsFull() || n == maxLen > 0)
    ensures !q.softLimit ==> q.Room() == old(q.Room()) - n
    ensures forall c | c in q.Chunks() :: c in old(q.Chunks()) || (fresh(c) && fresh(c.data))
  {
    hide Queue.Inv, Queue.Room, Queue.Contents, Drew;
    DrewNothing(q.Contents(), r.stream);
    var tail;
    tail, oom := q.GetNonFullTail();
    called := tail != null;
    if tail == null {
      return if q.chunkCount < q.maxChunks then OutOfMemory else Again, 0, called, oom;
    }
    q.TailIsOurs();
    result, n := SipTail(q, maxLen, r);
  }

  method SipTail(q: Queue, maxLen: nat, r: Reader) returns (result: Code, n: nat)
    requires q.Valid() && q.tail != null && q.tail.wOffset < q.chunkSize
    modifies q`parts, q.tail`wOffset, q.tail.data, r
    ensures q.Valid() && Drew(old(q.Contents()), old(r.stream), q.Contents(), r.stream, n)
    ensures result == r.last && (result != Ok ==> n == 0)
    ensures maxLen > 0 ==> n <= maxLen
    ensures (n == 0 ==> r.short) && r.calls == old(r.calls) + 1
    ensures !r.short ==> q.tail.IsFull() || n == maxLen > 0
    ensures q.Room() == old(q.Room()) - n
  {
    hide Queue.Inv, Queue.Room, Queue.Contents, Drew;
    ghost var stream, contents := r.stream, q.Contents();
    q.TailIsOurs();
    DrewNothing(contents, stream);
    var free := q.chunkSize - q.tail.wOffset;
    if maxLen > 0 && free > maxLen { free := maxLen; }
    var bytes;
    result, bytes := Ask(q, free, r);
    n := |bytes|;
    if result == Ok {
      var m := q.AppendTail(bytes);
    }
    DrewBytes(contents, stream, bytes, r.stream);
    assert contents + [] == contents;
  }

  // The reader does not touch the queue.
  method Ask(q: Queue, most: nat, r: Reader) returns (result: Code, bytes: seq<byte>)
    requires q.Valid()
    modifies r
    ensures q.Valid() && q.Contents() == old(q.Contents()) && q.Room() == old(q.Room())
    ensures |bytes| <= most && (result != Ok ==> bytes == [])
    ensures old(r.stream) == bytes + r.stream
    ensures r.last == result && r.short == (result != Ok || |bytes| < most) && r.calls == old(r.calls) + 1
  {
    result, bytes := r.Supply(most);
  }

  // Reads until the limit is reached, the reader gives less than asked, or
  // there is no chunk to read into.  A limit of zero is no limit.
  method Slurpn(q: Queue, maxLen: nat, r: Reader) returns (result: Code, n: nat, ghost called: bool, ghost oom: bool)
    requires q.Valid()
    modifies q, q.pool, q.Chunks(), Stores(q.Chunks()), r
    ensures q.Valid() && Drew(old(q.Contents()), old(r.stream), q.Contents(), r.stream, n)
    ensures maxLen > 0 ==> n <= maxLen
    ensures if called then r.short || n == maxLen > 0 else oom || (!q.softLimit && q.Room() == 0)
    ensures r.calls >= old(r.calls) && (called || n > 0 ==> r.calls > old(r.calls))
    ensures var last := if called then r.last else if oom && q.chunkCount < q.maxChunks then OutOfMemory else Again;
            result == if last == Again && n > 0 then Ok else last
    ensures !q.softLimit ==> q.Room() == old(q.Room()) - n
  {
    hide Queue.Inv, Queue.Room, Queue.Contents, Drew;
    result, n, called, oom := Ok, 0, false, false;
    var left := maxLen;
    ghost var all, stream := q.Contents(), r.stream;
    DrewNothing(all, stream);
    while true
      invariant q.Valid() && result == Ok && Drew(all, stream, q.Contents(), r.stream, n)
      invariant if maxLen > 0 then left > 0 && n + left == maxLen else left == 0
      invariant !q.softLimit ==> q.Room() == old(q.Room()) - n
      invariant r.calls >= old(r.calls) && (n > 0 ==> r.calls > old(r.calls))
      invariant forall c | c in q.Chunks() :: c in old(q.Chunks()) || (fresh(c) && fresh(c.data))
      decreases |r.stream|
    {
      var m;
      ghost var was, rest := q.Contents(), r.stream;
      result, m, called, oom := Sipn(q, left, r);
      DrewMore(all, stream, was, rest, q.Contents(), r.stream, n, m);
      n := n + m;
      if result != Ok {
        if n > 0 && result == Again { result := Ok; }
        break;
      }
      if m == 0 { break; }
      if left > 0 {
        left := left - m;
        if left == 0 { break; }
      }
      if q.tail != null && !q.tail.IsFull() { break; }
    }
  }

  method Slurp(q: Queue, r: Reader) returns (result: Code, n: nat, ghost called: bool, ghost oom: bool)
    requires q.Valid()
    modifies q, q.pool, q.Chunks(), Stores(q.Chunks()), r
    ensures q.Valid() && Drew(old(q.Contents()), old(r.stream), q.Contents(), r.stream, n)
    ensures if called then r.short else oom || (!q.softLimit && q.Room() == 0)
    ensures r.calls >= old(r.calls) && (called || n > 0 ==> r.calls > old(r.calls))
    ensures var last := if called then r.last else if oom && q.chunkCount < q.maxChunks then OutOfMemory else Again;
            result == if last == Again && n > 0 then Ok else last
    ensures !q.softLimit ==> q.Room() == old(q.Room()) - n
  {
    result, n, called, oom := Slurpn(q, 0, r);
  }
}
