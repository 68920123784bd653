// Whole runs of a queue against a plain sequence of bytes: what every single
// operation answers is fixed by the operations before it, whatever the chunks,
// the spares and the pool do; only memory exhaustion is left open.
module BufqRun {
  import opened Bufq
  import opened BufqQueue

  datatype Op = Write(buf: seq<byte>) | Read(len: nat) | Skip(amount: nat) | Peek | PeekAt(offset: nat) | Reset

  datatype Answer =
    | Wrote(result: Code, n: nat)
    | Got(result: Code, bytes: seq<byte>)
    | Saw(ok: bool, view: seq<byte>)
    | Done

  datatype Kind = Kind(chunkSize: nat, maxChunks: nat, softLimit: bool)

  // A queue from outside: its bytes, and how many bytes were read from the
  // chunk that holds the first one.
  datatype Plain = Plain(bytes: seq<byte>, lead: nat)

  predicate Fits(k: Kind, s: Plain) {
    k.chunkSize > 0 && (!k.softLimit ==> |s.bytes| + s.lead <= k.maxChunks * k.chunkSize)
  }

  // The most a write can add.
  function Most(k: Kind, s: Plain, buf: seq<byte>): nat
    requires Fits(k, s)
  {
    if k.softLimit then |buf| else Min(|buf|, k.maxChunks * k.chunkSize - |s.bytes| - s.lead)
  }

  // The one right answer; for a write that ran out of memory, the range of it:
  // no memory is needed to fill up the last chunk.
  predicate Right(k: Kind, s: Plain, op: Op, a: Answer)
    requires Fits(k, s)
  {
    match op
    case Write(buf) =>
      && a.Wrote?
      && (if a.result == OutOfMemory then LastRoom(s.lead + |s.bytes|, k.chunkSize) <= a.n < Most(k, s, buf)
          else a.n == Most(k, s, buf) && a.result == (if a.n == 0 && buf != [] then Again else Ok))
    case Read(len) =>
      var bytes := s.bytes[..Min(len, |s.bytes|)];
      a == Got(if bytes == [] then Again else Ok, bytes)
    case Peek =>
      a == Saw(s.bytes != [], s.bytes[..ToChunkEnd(s.lead, 0, |s.bytes|, k.chunkSize)])
    case PeekAt(offset) =>
      a == if offset < |s.bytes|
           then Saw(true, s.bytes[offset..offset + ToChunkEnd(s.lead, offset, |s.bytes|, k.chunkSize)])
           else Saw(false, [])
    case Skip(_) => a == Done
    case Reset => a == Done
  }

  // What an operation adds at the end.
  function Added(op: Op, a: Answer): seq<byte> {
    if op.Write? && a.Wrote? && a.n <= |op.buf| then op.buf[..a.n] else []
  }

  // How much an operation takes off the front.
  function Taken(s: Plain, op: Op): nat {
    match op
    case Read(len) => Min(len, |s.bytes|)
    case Skip(amount) => Min(amount, |s.bytes|)
    case Reset => |s.bytes|
    case Write(_) => 0
    case Peek => 0
    case PeekAt(_) => 0
  }

  function After(k: Kind, s: Plain, op: Op, a: Answer): Plain {
    match op
    case Write(_) => Plain(s.bytes + Added(op, a), s.lead)
    case Peek => s
    case PeekAt(_) => s
    case Read(_) => Without(k, s, Taken(s, op))
    case Skip(_) => Without(k, s, Taken(s, op))
    case Reset => Without(k, s, Taken(s, op))
  }

  function Without(k: Kind, s: Plain, n: nat): Plain
    requires n <= |s.bytes|
  {
    Plain(s.bytes[n..], LeadAfter(s.lead, n, |s.bytes| - n, k.chunkSize))
  }

  function Replay(k: Kind, first: Plain, ops: seq<Op>, answers: seq<Answer>): Plain
    requires |answers| == |ops|
  {
    if ops == [] then first
    else
      var n := |ops| - 1;
      After(k, Replay(k, first, ops[..n], answers[..n]), ops[n], answers[n])
  }

  // Every answer was the right one when it was given, and the limit held.
  predicate AllRight(k: Kind, first: Plain, ops: seq<Op>, answers: seq<Answer>) {
    && |answers| == |ops|
    && Fits(k, Replay(k, first, ops, answers))
    && (ops == [] ||
        var n := |ops| - 1;
        && AllRight(k, first, ops[..n], answers[..n])
        && Right(k, Replay(k, first, ops[..n], answers[..n]), ops[n], answers[n]))
  }

  // ------------------------------------------------------------------ runs

  ghost function Outside(q: Queue): Plain
    reads q, q.live
  {
    Plain(q.Contents(), q.Lead())
  }

  ghost function KindOf(q: Queue): Kind {
    Kind(q.chunkSize, q.maxChunks, q.softLimit)
  }

  method Run(q: Queue, ops: seq<Op>) returns (answers: seq<Answer>)
    requires q.Valid()
    modifies q, q.pool, q.Chunks(), Stores(q.Chunks())
    ensures q.Valid()
    ensures AllRight(KindOf(q), old(Outside(q)), ops, answers)
    ensures Outside(q) == Replay(KindOf(q), old(Outside(q)), ops, answers)
  {
    hide Queue.Inv, Queue.Room, Queue.Contents, Queue.Lead, Outside, Right, Fits, After, RunsTo;
    answers := [];
    ghost var k, first := KindOf(q), Outside(q);
    QueueFits(q);
    RunStarts(k, first, ops);
    for i := 0 to |ops|
      invariant q.Valid() && RunsTo(k, first, ops, i, answers, Outside(q))
      invariant forall c | c in q.Chunks() :: c in old(q.Chunks()) || (fresh(c) && fresh(c.data))
    {
      ghost var s := Outside(q);
      var a := Step(q, ops[i]);
      RunGoesOn(k, first, ops, i, answers, s, a);
      answers := answers + [a];
    }
    RunEnds(k, first, ops, answers, Outside(q));
  }

  // The run so far.
  ghost predicate RunsTo(k: Kind, first: Plain, ops: seq<Op>, i: nat, answers: seq<Answer>, now: Plain) {
    && i <= |ops| && AllRight(k, first, ops[..i], answers)
    && now == Replay(k, first, ops[..i], answers)
  }

  lemma RunStarts(k: Kind, first: Plain, ops: seq<Op>)
    requires Fits(k, first)
    ensures RunsTo(k, first, ops, 0, [], first)
  {
    assert ops[..0] == [];
  }

  lemma RunGoesOn(k: Kind, first: Plain, ops: seq<Op>, i: nat, answers: seq<Answer>, s: Plain, a: Answer)
    requires i < |ops| && RunsTo(k, first, ops, i, answers, s)
    requires Fits(k, s) && Right(k, s, ops[i], a) && Fits(k, After(k, s, ops[i], a))
    ensures RunsTo(k, first, ops, i + 1, answers + [a], After(k, s, ops[i], a))
  {
    hide Right, After, Fits;
    var more, done := ops[..i + 1], answers + [a];
    assert more[..i] == ops[..i] && more[i] == ops[i] && done[..i] == answers;
  }

  lemma RunEnds(k: Kind, first: Plain, ops: seq<Op>, answers: seq<Answer>, now: Plain)
    requires RunsTo(k, first, ops, |ops|, answers, now)
    ensures AllRight(k, first, ops, answers) && now == Replay(k, first, ops, answers)
  {
    assert ops[..|ops|] == ops;
  }

  lemma QueueFits(q: Queue)
    requires q.Valid()
    ensures Fits(KindOf(q), Outside(q))
  {
    if !q.softLimit {
      q.RoomLeft();
      q.RoomIsEnough();
    }
  }

  // One operation.
  method Step(q: Queue, op: Op) returns (a: Answer)
    requires q.Valid()
    modifies q, q.pool, q.Chunks(), Stores(q.Chunks())
    ensures q.Valid()
    ensures Fits(KindOf(q), old(Outside(q))) && Right(KindOf(q), old(Outside(q)), op, a)
    ensures Outside(q) == After(KindOf(q), old(Outside(q)), op, a) && Fits(KindOf(q), Outside(q))
    ensures forall c | c in q.Chunks() :: c in old(q.Chunks()) || (fresh(c) && fresh(c.data))
  {
    hide Queue.Inv, Queue.Room, Queue.Contents, Queue.Lead, Fits, Right, After;
    QueueFits(q);
    match op {
      case Write(buf) =>
        a := StepWrite(q, buf);
      case Read(len) =>
        a := StepRead(q, len);
      case Skip(amount) =>
        a := StepSkip(q, amount);
      case Peek =>
        a := StepPeek(q);
      case PeekAt(offset) =>
        a := StepPeekAt(q, offset);
      case Reset =>
        a := StepReset(q);
    }
    QueueFits(q);
  }

  lemma MostIsRoom(q: Queue, buf: seq<byte>)
    requires q.Valid() && Fits(KindOf(q), Outside(q))
    ensures Most(KindOf(q), Outside(q), buf) == if q.softLimit then |buf| else Min(|buf|, q.Room())
  {
    if !q.softLimit { q.RoomLeft(); }
  }

  method StepWrite(q: Queue, buf: seq<byte>) returns (a: Answer)
    requires q.Valid() && Fits(KindOf(q), Outside(q))
    modifies q, q.pool, q.Chunks(), Stores(q.Chunks())
    ensures q.Valid()
    ensures Right(KindOf(q), old(Outside(q)), Write(buf), a)
    ensures Outside(q) == After(KindOf(q), old(Outside(q)), Write(buf), a)
    ensures forall c | c in q.Chunks() :: c in old(q.Chunks()) || (fresh(c) && fresh(c.data))
  {
    hide Queue.Inv, Queue.Room, Queue.OwnRoom, Queue.Contents, Queue.Lead, Fits, Most, LastRoom, Right, After;
    MostIsRoom(q, buf);
    q.LastRoomIsOurs();
    ghost var s := Outside(q);
    var result, n;
    ghost var oom;
    result, n, oom := q.Write(buf);
    a := Wrote(result, n);
    Written(KindOf(q), s, Outside(q), buf, result, n, oom);
  }

  lemma Written(k: Kind, s: Plain, now: Plain, buf: seq<byte>, result: Code, n: nat, oom: bool)
    requires Fits(k, s) && n <= |buf| && now == Plain(s.bytes + buf[..n], s.lead)
    requires if oom then LastRoom(s.lead + |s.bytes|, k.chunkSize) <= n < Most(k, s, buf) else n == Most(k, s, buf)
    requires result == if oom then OutOfMemory else if n == 0 && buf != [] then Again else Ok
    ensures Right(k, s, Write(buf), Wrote(result, n)) && now == After(k, s, Write(buf), Wrote(result, n))
  {
    hide Fits, Most, LastRoom;
  }

  lemma Dropped(k: Kind, s: Plain, now: Plain, n: nat)
    requires n <= |s.bytes| && now.bytes == s.bytes[n..]
    requires now.lead == LeadAfter(s.lead, n, |now.bytes|, k.chunkSize)
    ensures now == Without(k, s, n)
  {
  }

  lemma AfterRead(k: Kind, s: Plain, len: nat)
    ensures forall a :: After(k, s, Read(len), a) == Without(k, s, Min(len, |s.bytes|))
  {
  }

  lemma AfterSkip(k: Kind, s: Plain, amount: nat)
    ensures After(k, s, Skip(amount), Done) == Without(k, s, Min(amount, |s.bytes|))
  {
  }

  method StepRead(q: Queue, len: nat) returns (a: Answer)
    requires q.Valid() && Fits(KindOf(q), Outside(q))
    modifies q, q.pool, q.Chunks()
    ensures q.Valid()
    ensures Right(KindOf(q), old(Outside(q)), Read(len), a)
    ensures Outside(q) == After(KindOf(q), old(Outside(q)), Read(len), a)
    ensures q.Chunks() <= old(q.Chunks())
  {
    hide Queue.Inv, Queue.Room, Queue.Contents, Queue.Lead, LeadAfter, After, Without;
    ghost var s := Outside(q);
    var result, out := q.Read(len);
    Dropped(KindOf(q), s, Outside(q), Min(len, |s.bytes|));
    AfterRead(KindOf(q), s, len);
    a := Got(result, out);
  }

  method StepSkip(q: Queue, amount: nat) returns (a: Answer)
    requires q.Valid() && Fits(KindOf(q), Outside(q))
    modifies q, q.pool, q.Chunks()
    ensures q.Valid()
    ensures Right(KindOf(q), old(Outside(q)), Skip(amount), a)
    ensures Outside(q) == After(KindOf(q), old(Outside(q)), Skip(amount), a)
    ensures q.Chunks() <= old(q.Chunks())
  {
    hide Queue.Inv, Queue.Room, Queue.Contents, Queue.Lead, LeadAfter, After;
    ghost var s := Outside(q);
    q.Skip(amount);
    Dropped(KindOf(q), s, Outside(q), Min(amount, |s.bytes|));
    AfterSkip(KindOf(q), s, amount);
    a := Done;
  }

  method StepPeek(q: Queue) returns (a: Answer)
    requires q.Valid() && Fits(KindOf(q), Outside(q))
    modifies q, q.pool, q.Chunks()
    ensures q.Valid()
    ensures Right(KindOf(q), old(Outside(q)), Peek, a)
    ensures Outside(q) == After(KindOf(q), old(Outside(q)), Peek, a)
    ensures q.Chunks() <= old(q.Chunks())
  {
    hide Queue.Inv, Queue.Room, Queue.Contents, Queue.Lead;
    var ok, view := q.Peek();
    a := Saw(ok, view);
  }

  method StepPeekAt(q: Queue, offset: nat) returns (a: Answer)
    requires q.Valid() && Fits(KindOf(q), Outside(q))
    ensures q.Valid() && Right(KindOf(q), Outside(q), PeekAt(offset), a)
    ensures Outside(q) == After(KindOf(q), Outside(q), PeekAt(offset), a)
  {
    hide Queue.Room, Queue.Contents, Queue.Lead;
    var ok, view := q.PeekAt(offset);
    a := Saw(ok, view);
  }

  method StepReset(q: Queue) returns (a: Answer)
    requires q.Valid() && Fits(KindOf(q), Outside(q))
    modifies q, q.live
    ensures q.Valid()
    ensures Right(KindOf(q), old(Outside(q)), Reset, a)
    ensures Outside(q) == After(KindOf(q), old(Outside(q)), Reset, a)
    ensures q.Chunks() == old(q.Chunks())
  {
    hide Queue.Inv, Queue.Room, Queue.Contents, Queue.Lead;
    q.Reset();
    a := Done;
  }

  // ------------------------------------------------- what the answers mean

  // All bytes accepted, in the order of the writes.
  function AllAdded(ops: seq<Op>, answers: seq<Answer>): seq<byte>
    requires |answers| == |ops|
  {
    if ops == [] then []
    else
      var n := |ops| - 1;
      AllAdded(ops[..n], answers[..n]) + Added(ops[n], answers[n])
  }

  // How many bytes have left the queue.
  function AllTaken(k: Kind, first: Plain, ops: seq<Op>, answers: seq<Answer>): nat
    requires |answers| == |ops|
  {
    if ops == [] then 0
    else
      var n := |ops| - 1;
      AllTaken(k, first, ops[..n], answers[..n]) + Taken(Replay(k, first, ops[..n], answers[..n]), ops[n])
  }

  // The queue always holds the stream from the point where it was taken off:
  // nothing accepted is lost, doubled or reordered.
  lemma {:induction false} QueueIsStream(k: Kind, first: Plain, ops: seq<Op>, answers: seq<Answer>)
    requires AllRight(k, first, ops, answers)
    ensures AllTaken(k, first, ops, answers) <= |first.bytes + AllAdded(ops, answers)|
    ensures Replay(k, first, ops, answers).bytes ==
            (first.bytes + AllAdded(ops, answers))[AllTaken(k, first, ops, answers)..]
  {
    if ops == [] {
      assert first.bytes + [] == first.bytes;
    } else {
      var n := |ops| - 1;
      QueueIsStream(k, first, ops[..n], answers[..n]);
      var s := Replay(k, first, ops[..n], answers[..n]);
      AfterBytes(k, s, ops[n], answers[n]);
      DropMore(first.bytes, AllAdded(ops[..n], answers[..n]), Added(ops[n], answers[n]),
               AllTaken(k, first, ops[..n], answers[..n]), Taken(s, ops[n]));
    }
  }

  lemma AfterBytes(k: Kind, s: Plain, op: Op, a: Answer)
    ensures Taken(s, op) <= |s.bytes|
    ensures After(k, s, op, a).bytes == (s.bytes + Added(op, a))[Taken(s, op)..]
  {
    assert s.bytes + [] == s.bytes;
    assert s.bytes[0..] == s.bytes;
    assert (s.bytes + Added(op, a))[0..] == s.bytes + Added(op, a);
  }

  lemma DropMore(first: seq<byte>, before: seq<byte>, more: seq<byte>, at: nat, n: nat)
    requires at + n <= |first + before|
    ensures ((first + before)[at..] + more)[n..] == (first + (before + more))[at + n..]
  {
    assert first + (before + more) == (first + before) + more;
  }

  lemma {:induction false} AddedGrows(ops: seq<Op>, answers: seq<Answer>, i: nat)
    requires |answers| == |ops| && i <= |ops|
    ensures AllAdded(ops[..i], answers[..i]) <= AllAdded(ops, answers)
    decreases |ops|
  {
    if i < |ops| {
      var n := |ops| - 1;
      AddedGrows(ops[..n], answers[..n], i);
      assert ops[..n][..i] == ops[..i] && answers[..n][..i] == answers[..i];
    } else {
      assert ops[..i] == ops && answers[..i] == answers;
    }
  }

  lemma {:induction false} RightSoFar(k: Kind, first: Plain, ops: seq<Op>, answers: seq<Answer>, i: nat)
    requires AllRight(k, first, ops, answers) && i <= |ops|
    ensures |answers| == |ops| && AllRight(k, first, ops[..i], answers[..i])
    ensures i < |ops| ==>
              var s := Replay(k, first, ops[..i], answers[..i]); Fits(k, s) && Right(k, s, ops[i], answers[i])
    decreases |ops|
  {
    var n := |ops| - 1;
    if i < n {
      RightSoFar(k, first, ops[..n], answers[..n], i);
      assert ops[..n][..i] == ops[..i] && answers[..n][..i] == answers[..i];
    } else if i == |ops| {
      assert ops[..i] == ops && answers[..i] == answers;
    }
  }

  // What an answer shows of the queue, and how far from its front.
  function Seen(a: Answer): seq<byte> {
    match a
    case Got(_, bytes) => bytes
    case Saw(_, view) => view
    case Wrote(_, _) => []
    case Done => []
  }

  function Place(op: Op): nat {
    if op.PeekAt? then op.offset else 0
  }

  lemma SeenIsPart(k: Kind, s: Plain, op: Op, a: Answer)
    requires Fits(k, s) && Right(k, s, op, a) && Seen(a) != []
    ensures Place(op) + |Seen(a)| <= |s.bytes| && Seen(a) == s.bytes[Place(op)..Place(op) + |Seen(a)|]
  {
    hide Fits;
    if op.Read? { assert s.bytes[0..|a.bytes|] == s.bytes[..|a.bytes|]; }
  }

  // Every read and every peek shows the stream of the whole run, at the place
  // all earlier operations together have reached.
  lemma SeenInOrder(k: Kind, first: Plain, ops: seq<Op>, answers: seq<Answer>, i: nat)
    requires AllRight(k, first, ops, answers) && i < |ops| && Seen(answers[i]) != []
    ensures Shows(first.bytes + AllAdded(ops, answers), AllTaken(k, first, ops[..i], answers[..i]) + Place(ops[i]),
                  Seen(answers[i]))
  {
    hide *;
    RightSoFar(k, first, ops, answers, i);
    QueueIsStream(k, first, ops[..i], answers[..i]);
    AddedGrows(ops, answers, i);
    SeenIsPart(k, Replay(k, first, ops[..i], answers[..i]), ops[i], answers[i]);
    StillShows(first.bytes, AllAdded(ops[..i], answers[..i]), AllAdded(ops, answers),
               AllTaken(k, first, ops[..i], answers[..i]), Place(ops[i]), Seen(answers[i]),
               Replay(k, first, ops[..i], answers[..i]).bytes);
  }

  lemma StillShows(first: seq<byte>, added: seq<byte>, allAdded: seq<byte>, at: nat, offset: nat, view: seq<byte>,
                   bytes: seq<byte>)
    requires added <= allAdded && at <= |first + added| && bytes == (first + added)[at..]
    requires offset + |view| <= |bytes| && view == bytes[offset..offset + |view|]
    ensures Shows(first + allAdded, at + offset, view)
  {
    var before, to := first + added, at + offset + |view|;
    assert bytes[offset..offset + |view|] == before[at + offset..to];
    assert first + allAdded == before + allAdded[|added|..];
    assert (before + allAdded[|added|..])[at + offset..to] == before[at + offset..to];
  }

  // All bytes handed out by reads.
  function AllRead(ops: seq<Op>, answers: seq<Answer>): seq<byte>
    requires |answers| == |ops|
  {
    if ops == [] then []
    else
      var n := |ops| - 1;
      AllRead(ops[..n], answers[..n]) + (if answers[n].Got? then answers[n].bytes else [])
  }

  // With nothing skipped or reset, what was read and what is left are what was
  // there and what was accepted.
  lemma {:induction false} NothingLost(k: Kind, first: Plain, ops: seq<Op>, answers: seq<Answer>)
    requires AllRight(k, first, ops, answers)
    requires forall op | op in ops :: !op.Skip? && !op.Reset?
    ensures AllRead(ops, answers) + Replay(k, first, ops, answers).bytes == first.bytes + AllAdded(ops, answers)
  {
    if ops != [] {
      var n := |ops| - 1;
      NothingLost(k, first, ops[..n], answers[..n]);
      hide AllRight, Replay, AllRead, AllAdded;
      ReadOrAdded(k, Replay(k, first, ops[..n], answers[..n]), ops[n], answers[n],
                  AllRead(ops[..n], answers[..n]), first.bytes, AllAdded(ops[..n], answers[..n]));
    }
  }

  lemma ReadOrAdded(k: Kind, s: Plain, op: Op, a: Answer, read: seq<byte>, first: seq<byte>, added: seq<byte>)
    requires Fits(k, s) && Right(k, s, op, a) && !op.Skip? && !op.Reset?
    requires read + s.bytes == first + added
    ensures (read + (if a.Got? then a.bytes else [])) + After(k, s, op, a).bytes == first + (added + Added(op, a))
  {
    hide Fits, LeadAfter, ToChunkEnd;
    assert first + (added + Added(op, a)) == (first + added) + Added(op, a);
    assert read + [] == read && added + [] == added;
    if op.Read? {
      assert a.bytes + s.bytes[|a.bytes|..] == s.bytes;
      assert (read + a.bytes) + s.bytes[|a.bytes|..] == read + s.bytes;
    } else {
      assert (read + s.bytes) + Added(op, a) == read + (s.bytes + Added(op, a));
    }
  }

  predicate Shows(stream: seq<byte>, at: nat, view: seq<byte>) {
    at + |view| <= |stream| && view == stream[at..at + |view|]
  }
}
