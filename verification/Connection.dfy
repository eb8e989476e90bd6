// A connection's write queue and read buffer (modules/web/src/connection/
// connection.c) under any answers of the transport.
module Connection {
  import opened Text
  import opened Octets

  const MAX_BUFFER: nat := 4 * 1024 * 1024
  const INITIAL_BUFFER: nat := 4096

  /** What the transport says to one call; Ok(n) is cut to the bytes the call offered or had room for. */
  datatype Answer = Ok(n: nat) | WantRead | WantWrite | Closed | Error

  datatype Outcome = Success | NeedsOther | IsClosed | TooLarge | Failed

  /** A queued buffer and how much of it is written. */
  datatype Chunk = Chunk(bytes: Bytes, offset: nat)

  predicate InBounds(q: seq<Chunk>) { forall i :: 0 <= i < |q| ==> q[i].offset <= |q[i].bytes| }

  /** Everything the queue still has to send, in order. */
  function Unsent(q: seq<Chunk>): Bytes
    requires InBounds(q)
  {
    if q == [] then [] else q[0].bytes[q[0].offset..] + Unsent(q[1..])
  }

  lemma {:induction false} UnsentSnoc(q: seq<Chunk>, c: Chunk)
    requires InBounds(q) && c.offset <= |c.bytes|
    ensures Unsent(q + [c]) == Unsent(q) + c.bytes[c.offset..]
  {
    if q == [] {
      assert [c][1..] == [];
    } else {
      assert (q + [c])[1..] == q[1..] + [c];
      UnsentSnoc(q[1..], c);
    }
  }

  // ---------------------------------------------------------------------
  // Writing
  // ---------------------------------------------------------------------

  datatype Sent = Sent(bytes: Bytes, queue: seq<Chunk>, outcome: Outcome)

  function Least(a: nat, b: nat): nat { if a < b then a else b }

  /** The head of the queue after n more of its bytes went out. */
  function Advanced(q: seq<Chunk>, n: nat): seq<Chunk>
    requires q != []
  {
    [q[0].(offset := q[0].offset + n)] + q[1..]
  }

  /** One call of the write loop, with the transport's answers in order; after the last it wants to wait. */
  function Transmit(q: seq<Chunk>, answers: seq<Answer>): (s: Sent)
    requires InBounds(q)
    ensures InBounds(s.queue)
    decreases |answers|, |q|
  {
    if q == [] then Sent([], [], Success)
    else
      var left := |q[0].bytes| - q[0].offset;
      if left == 0 then Transmit(q[1..], answers)
      else if answers == [] then Sent([], q, Success)
      else
        match answers[0]
        case Ok(n) =>
          var k := Least(n, left);
          var rest := Transmit(Advanced(q, k), answers[1..]);
          rest.(bytes := q[0].bytes[q[0].offset..q[0].offset + k] + rest.bytes)
        case WantWrite => Sent([], q, Success)
        case WantRead => Sent([], q, NeedsOther)
        case Closed => Sent([], q, IsClosed)
        case Error => Sent([], q, Failed)
  }

  function Stopped(a: Answer): Outcome {
    match a case WantRead => NeedsOther case Closed => IsClosed case Error => Failed case _ => Success
  }

  /** whole is part with out sent before it. */
  predicate Prefixed(whole: Sent, out: Bytes, part: Sent) { whole == part.(bytes := out + part.bytes) }

  /** One turn of the write loop. */
  lemma TransmitStep(q: seq<Chunk>, answers: seq<Answer>)
    requires InBounds(q)
    ensures
      if q == [] then Transmit(q, answers) == Sent([], [], Success)
      else if q[0].offset == |q[0].bytes| then Transmit(q, answers) == Transmit(q[1..], answers)
      else if answers == [] then Transmit(q, answers) == Sent([], q, Success)
      else if !answers[0].Ok? then Transmit(q, answers) == Sent([], q, Stopped(answers[0]))
      else
        var k := Least(answers[0].n, |q[0].bytes| - q[0].offset);
        InBounds(Advanced(q, k)) && Prefixed(Transmit(q, answers),
          q[0].bytes[q[0].offset..q[0].offset + k], Transmit(Advanced(q, k), answers[1..]))
  {
  }

  method WriteLoop(queue: seq<Chunk>, answers: seq<Answer>) returns (s: Sent)
    requires InBounds(queue)
    ensures s == Transmit(queue, answers)
  {
    hide Transmit, Prefixed;
    var q, out, at := queue, [], 0;
    var r: Outcome;
    PrefixedStart(Transmit(queue, answers));
    assert answers[0..] == answers;
    while true
      invariant 0 <= at <= |answers| && InBounds(q)
      invariant Prefixed(Transmit(queue, answers), out, Transmit(q, answers[at..]))
      decreases |answers| - at, |q|
    {
      TransmitStep(q, answers[at..]);
      if q == [] { r := Success; break; }
      var c := q[0];
      if c.offset == |c.bytes| { q := q[1..]; continue; }
      var answer := if at < |answers| then answers[at] else WantWrite;
      if !answer.Ok? { r := Stopped(answer); break; }
      var k := Least(answer.n, |c.bytes| - c.offset);
      assert answers[at..][1..] == answers[at + 1..];
      PrefixedChain(Transmit(queue, answers), out, Transmit(q, answers[at..]),
        c.bytes[c.offset..c.offset + k], Transmit(Advanced(q, k), answers[at + 1..]));
      out := out + c.bytes[c.offset..c.offset + k];
      q := Advanced(q, k);
      at := at + 1;
    }
    s := Sent(out, q, r);
    PrefixedEnd(Transmit(queue, answers), out, q, r);
  }

  lemma PrefixedStart(whole: Sent)
    ensures Prefixed(whole, [], whole)
  {
    assert [] + whole.bytes == whole.bytes;
  }

  lemma PrefixedChain(whole: Sent, out: Bytes, part: Sent, more: Bytes, rest: Sent)
    requires Prefixed(whole, out, part) && Prefixed(part, more, rest)
    ensures Prefixed(whole, out + more, rest)
  {
    assert out + (more + rest.bytes) == out + more + rest.bytes;
  }

  lemma PrefixedEnd(whole: Sent, out: Bytes, q: seq<Chunk>, r: Outcome)
    requires Prefixed(whole, out, Sent([], q, r))
    ensures whole == Sent(out, q, r)
  {
    assert out + [] == out;
  }

  /** Whatever the transport answers, no byte is lost, repeated or reordered. */
  lemma {:induction false} TransmitConserves(q: seq<Chunk>, answers: seq<Answer>)
    requires InBounds(q)
    ensures Transmit(q, answers).bytes + Unsent(Transmit(q, answers).queue) == Unsent(q)
    decreases |answers|, |q|
  {
    hide Transmit, Unsent, Advanced;
    TransmitStep(q, answers);
    if q != [] {
      var c := q[0];
      UnsentHead(q);
      if c.offset == |c.bytes| {
        TransmitConserves(q[1..], answers);
      } else if answers != [] && answers[0].Ok? {
        var k := Least(answers[0].n, |c.bytes| - c.offset);
        var rest := Transmit(Advanced(q, k), answers[1..]);
        TransmitConserves(Advanced(q, k), answers[1..]);
        AdvanceConserves(q, k);
        Associate(c.bytes[c.offset..c.offset + k], rest.bytes, Unsent(rest.queue));
      }
    }
  }

  lemma AdvanceConserves(q: seq<Chunk>, k: nat)
    requires q != [] && InBounds(q) && q[0].offset + k <= |q[0].bytes|
    ensures InBounds(Advanced(q, k))
    ensures q[0].bytes[q[0].offset..q[0].offset + k] + Unsent(Advanced(q, k)) == Unsent(q)
  {
    var a := Advanced(q, k);
    var o := q[0].offset;
    UnsentHead(q);
    UnsentHead(a);
    assert a[1..] == q[1..];
    hide Unsent;
    var x, y, z := q[0].bytes[o..o + k], q[0].bytes[o + k..], Unsent(q[1..]);
    assert q[0].bytes[o..] == x + y;
    Associate(x, y, z);
  }

  lemma Associate(x: Bytes, y: Bytes, z: Bytes)
    ensures x + (y + z) == (x + y) + z
  {
  }

  lemma UnsentHead(q: seq<Chunk>)
    requires q != [] && InBounds(q)
    ensures Unsent(q) == q[0].bytes[q[0].offset..] + Unsent(q[1..])
  {
  }

  /** How much an all-Ok list of answers lets through at least. */
  lemma {:induction false} TransmitDrains(q: seq<Chunk>, answers: seq<Answer>)
    requires InBounds(q) && |answers| >= |Unsent(q)|
    requires forall i :: 0 <= i < |answers| ==> answers[i].Ok? && answers[i].n > 0
    ensures Transmit(q, answers).queue == []
    decreases |answers|, |q|
  {
    if q != [] {
      var left := |q[0].bytes| - q[0].offset;
      if left == 0 {
        TransmitDrains(q[1..], answers);
      } else {
        var k := Least(answers[0].n, left);
        assert Advanced(q, k)[1..] == q[1..];
        assert |Unsent(Advanced(q, k))| == |Unsent(q)| - k;
        TransmitDrains(Advanced(q, k), answers[1..]);
      }
    }
  }

  // ---------------------------------------------------------------------
  // Reading
  // ---------------------------------------------------------------------

  /** The capacity that leaves room for a byte and the terminator; None at the limit. */
  function Grown(length: nat, capacity: nat): Option<nat> {
    if length + 1 < capacity then Some(capacity)
    else if capacity >= MAX_BUFFER then None
    else if capacity * 2 > MAX_BUFFER then Some(MAX_BUFFER)
    else Some(capacity * 2)
  }

  datatype Got = Got(taken: nat, outcome: Outcome, closed: bool)

  function Later(taken: nat, g: Got): Got { g.(taken := taken + g.taken) }

  function Ended(a: Answer): Outcome {
    match a case WantWrite => NeedsOther case Error => Failed case _ => Success
  }

  /** The read loop with `left` bytes still to come, a buffer of this length and capacity, and the transport's answers. */
  function Receive(left: nat, length: nat, capacity: nat, answers: seq<Answer>): (g: Got)
    requires length < capacity
    ensures g.taken <= left
    decreases |answers|
  {
    match Grown(length, capacity)
    case None => Got(0, TooLarge, true)
    case Some(c) =>
      if answers == [] then Got(0, Success, false)
      else if answers[0].Ok? then
        var k := Least(answers[0].n, Least(left, c - length - 1));
        Later(k, Receive(left - k, length + k, c, answers[1..]))
      else Got(0, Ended(answers[0]), answers[0] == Closed)
  }

  /** The read loop ends: no room, or an answer that is not Ok, or no more answers. */
  lemma ReceiveStops(taken: nat, left: nat, length: nat, capacity: nat, answers: seq<Answer>, answer: Answer)
    requires length < capacity && answer == (if answers == [] then WantRead else answers[0])
    requires Grown(length, capacity).None? || !answer.Ok?
    ensures Later(taken, Receive(left, length, capacity, answers))
      == if Grown(length, capacity).None? then Got(taken, TooLarge, true) else Got(taken, Ended(answer), answer == Closed)
  {
  }

  /** The read loop goes on, after k more bytes. */
  lemma ReceiveGoesOn(taken: nat, left: nat, length: nat, capacity: nat, answers: seq<Answer>, grown: nat, k: nat)
    requires length < capacity && answers != [] && answers[0].Ok? && Grown(length, capacity) == Some(grown)
    requires length + 1 < grown && k == Least(answers[0].n, Least(left, grown - length - 1))
    ensures k <= left && length + k < grown
    ensures Later(taken, Receive(left, length, capacity, answers))
      == Later(taken + k, Receive(left - k, length + k, grown, answers[1..]))
  {
  }

  lemma NothingYet(g: Got)
    ensures Later(0, g) == g
  {
  }

  /** A payload is refused only when the buffer holds all it ever can. */
  lemma {:induction false} RefusedOnlyWhenFull(left: nat, length: nat, capacity: nat, answers: seq<Answer>)
    requires length < capacity <= MAX_BUFFER
    ensures Receive(left, length, capacity, answers).outcome == TooLarge ==>
      length + Receive(left, length, capacity, answers).taken == MAX_BUFFER - 1
    decreases |answers|
  {
    var g := Grown(length, capacity);
    if g.Some? && answers != [] && answers[0].Ok? {
      var k := Least(answers[0].n, Least(left, g.value - length - 1));
      RefusedOnlyWhenFull(left - k, length + k, g.value, answers[1..]);
    }
  }

  /** The answers up to k took bytes. */
  predicate AllOk(answers: seq<Answer>, k: nat)
    requires k <= |answers|
  {
    forall i :: 0 <= i < k ==> answers[i].Ok?
  }

  /** How a call of the write loop ends: by the queue running dry, the answers running out, or the answer that says so. */
  lemma {:induction false} TransmitEnds(q: seq<Chunk>, answers: seq<Answer>) returns (k: nat)
    requires InBounds(q)
    ensures k <= |answers| && AllOk(answers, k)
    ensures var s := Transmit(q, answers);
      if s.queue == [] then s.outcome == Success
      else if k == |answers| then s.outcome == Success
      else
        match answers[k]
        case Ok(_) => false
        case WantWrite => s.outcome == Success
        case WantRead => s.outcome == NeedsOther
        case Closed => s.outcome == IsClosed
        case Error => s.outcome == Failed
    decreases |answers|, |q|
  {
    hide InBounds;
    TransmitStep(q, answers);
    if q == [] { return 0; }
    if q[0].offset == |q[0].bytes| {
      assert InBounds(q[1..]) by { TailInBounds(q); }
      k := TransmitEnds(q[1..], answers);
    } else if answers != [] && answers[0].Ok? {
      k := TransmitEnds(Advanced(q, Least(answers[0].n, |q[0].bytes| - q[0].offset)), answers[1..]);
      k := k + 1;
      assert forall i :: 0 < i < k ==> answers[i] == answers[1..][i - 1];
    } else {
      k := 0;
    }
  }

  lemma TailInBounds(q: seq<Chunk>)
    requires q != [] && InBounds(q)
    ensures InBounds(q[1..])
  {
  }

  /** How a call of the read loop ends: no room left, no answers left, or the answer that says so; only then is it closed. */
  lemma {:induction false} ReceiveEnds(left: nat, length: nat, capacity: nat, answers: seq<Answer>) returns (k: nat)
    requires length < capacity
    ensures k <= |answers| && AllOk(answers, k)
    ensures var g := Receive(left, length, capacity, answers);
      && (g.closed <==> g.outcome == TooLarge || (k < |answers| && answers[k] == Closed && g.outcome == Success))
      && if g.outcome == TooLarge then true
         else if k == |answers| then g.outcome == Success
         else
           match answers[k]
           case Ok(_) => false
           case WantWrite => g.outcome == NeedsOther
           case Error => g.outcome == Failed
           case _ => g.outcome == Success
    decreases |answers|
  {
    var c := Grown(length, capacity);
    if c.Some? && answers != [] && answers[0].Ok? {
      var n := Least(answers[0].n, Least(left, c.value - length - 1));
      k := ReceiveEnds(left - n, length + n, c.value, answers[1..]);
      k := k + 1;
      assert forall i :: 0 < i < k ==> answers[i] == answers[1..][i - 1];
    } else {
      k := 0;
    }
  }

  // ---------------------------------------------------------------------
  // The connection
  // ---------------------------------------------------------------------

  class Connection {
    var writeData: seq<Chunk>
    var buffer: array<Byte>
    var bufferLength: nat
    var isClosed: bool
    // Everything ever queued, and everything the transport ever took.
    ghost var queued: Bytes
    ghost var sent: Bytes

    ghost predicate Valid() reads this {
      && InBounds(writeData) && sent + Unsent(writeData) == queued
      && bufferLength < buffer.Length <= MAX_BUFFER
    }

    /** The bytes received and not yet consumed. */
    ghost function Received(): Bytes reads this, buffer
      requires bufferLength <= buffer.Length
    {
      buffer[..bufferLength]
    }

    constructor ()
      ensures Valid() && fresh(buffer) && Received() == [] && queued == [] && sent == [] && !isClosed
    {
      writeData, bufferLength, isClosed := [], 0, false;
      buffer := new Byte[INITIAL_BUFFER];
      queued, sent := [], [];
    }

    /** An empty buffer is not queued. */
    method BufferAdd(bytes: Bytes)
      requires Valid()
      modifies this`writeData, this`queued
      ensures Valid() && queued == old(queued) + bytes
    {
      if |bytes| == 0 { return; }
      UnsentSnoc(writeData, Chunk(bytes, 0));
      writeData := writeData + [Chunk(bytes, 0)];
      queued := queued + bytes;
    }

    method Write(answers: seq<Answer>) returns (r: Outcome)
      requires Valid()
      modifies this`writeData, this`isClosed, this`sent
      ensures Valid()
      ensures old(isClosed) ==> r == IsClosed && writeData == old(writeData) && sent == old(sent) && isClosed
      ensures !old(isClosed) ==>
        var s := Transmit(old(writeData), answers);
        r == s.outcome && writeData == s.queue && sent == old(sent) + s.bytes && isClosed == (r == IsClosed)
    {
      if isClosed { return IsClosed; }
      hide Transmit, Unsent;
      ghost var q0 := writeData;
      var s := WriteLoop(writeData, answers);
      TransmitConserves(q0, answers);
      Associate(sent, s.bytes, Unsent(s.queue));
      sent := sent + s.bytes;
      writeData := s.queue;
      r := s.outcome;
      isClosed := r == IsClosed;
    }

    /** Room for at least one more byte and the terminator, or the buffer is at its limit. */
    method EnsureSpace() returns (ok: bool)
      requires Valid()
      modifies this`buffer
      ensures Valid() && Received() == old(Received()) && buffer[bufferLength] == old(buffer[bufferLength])
      ensures ok == Grown(bufferLength, old(buffer.Length)).Some?
      ensures ok ==> bufferLength + 1 < buffer.Length == Grown(bufferLength, old(buffer.Length)).value
      ensures buffer == old(buffer) || fresh(buffer)
    {
      if bufferLength + 1 < buffer.Length { return true; }
      if buffer.Length >= MAX_BUFFER { return false; }
      var capacity := if buffer.Length * 2 > MAX_BUFFER then MAX_BUFFER else buffer.Length * 2;
      var grown := new Byte[capacity];
      forall i | 0 <= i < buffer.Length { grown[i] := buffer[i]; }
      assert grown[..bufferLength] == buffer[..bufferLength];
      buffer := grown;
      ok := true;
    }

    method Append(bytes: Bytes)
      requires Valid() && bufferLength + |bytes| < buffer.Length
      modifies this`bufferLength, buffer
      ensures Valid() && Received() == old(Received()) + bytes && buffer[bufferLength] == 0
    {
      forall i | 0 <= i < |bytes| { buffer[bufferLength + i] := bytes[i]; }
      bufferLength := bufferLength + |bytes|;
      buffer[bufferLength] := 0;
    }

    /** incoming is what the peer sends; taken is how much of it was read. */
    method Read(incoming: Bytes, answers: seq<Answer>) returns (taken: nat, r: Outcome)
      requires Valid()
      modifies this`buffer, this`bufferLength, this`isClosed, buffer
      ensures Valid() && taken <= |incoming| && Received() == old(Received()) + incoming[..taken]
      ensures taken > 0 ==> buffer[bufferLength] == 0
      ensures old(isClosed) ==> r == IsClosed && taken == 0 && isClosed
      ensures !old(isClosed) ==>
        Got(taken, r, isClosed) == Receive(|incoming|, old(bufferLength), old(buffer.Length), answers)
    {
      if isClosed { return 0, IsClosed; }
      var g := ReadLoop(incoming, answers);
      isClosed := g.closed;
      return g.taken, g.outcome;
    }

    /** The buffer holds what it held before and then what was got, terminated if anything was. */
    ghost predicate Holds(before: Bytes, got: Bytes) reads this, buffer {
      bufferLength < buffer.Length && Received() == before + got && (got != [] ==> buffer[bufferLength] == 0)
    }

    /** Where the read loop stands, `all` being what it comes to in the end. */
    ghost predicate Reading(incoming: Bytes, taken: nat, left: seq<Answer>, before: Bytes, all: Got) reads this, buffer {
      && Valid() && taken <= |incoming| && Holds(before, incoming[..taken])
      && all == Later(taken, Receive(|incoming| - taken, bufferLength, buffer.Length, left))
    }

    method ReadLoop(incoming: Bytes, answers: seq<Answer>) returns (g: Got)
      requires Valid()
      modifies this`buffer, this`bufferLength, buffer
      ensures Valid() && g.taken <= |incoming| && Holds(old(Received()), incoming[..g.taken])
      ensures g == Receive(|incoming|, old(bufferLength), old(buffer.Length), answers)
    {
      ghost var before, all := Received(), Receive(|incoming|, bufferLength, buffer.Length, answers);
      NothingYet(all);
      assert Holds(before, incoming[..0]);
      var taken, left := 0, answers;
      hide *;
      while true
        invariant Reading(incoming, taken, left, before, all)
        invariant buffer == old(buffer) || fresh(buffer)
        decreases |left|
      {
        var answer := if |left| > 0 then left[0] else WantRead;
        var more;
        taken, more, g := ReadTurn(incoming, taken, left, answer, before, all);
        if !more { return; }
        left := left[1..];
      }
    }

    /** One turn of the read loop, or its end. */
    method ReadTurn(incoming: Bytes, taken: nat, left: seq<Answer>, answer: Answer, ghost before: Bytes, ghost all: Got)
      returns (now: nat, more: bool, g: Got)
      requires Reading(incoming, taken, left, before, all) && answer == if left == [] then WantRead else left[0]
      modifies this`buffer, this`bufferLength, buffer
      ensures buffer == old(buffer) || fresh(buffer)
      ensures more ==> left != [] && Reading(incoming, now, left[1..], before, all)
      ensures !more ==> Valid() && g == all && g.taken <= |incoming| && Holds(before, incoming[..g.taken])
    {
      hide Receive, Grown, Later, Holds, Unsent, InBounds;
      ghost var rest, length, capacity := |incoming| - taken, bufferLength, buffer.Length;
      var room, k := ReadOnce(incoming, taken, answer, before);
      now := taken + k;
      more := room && answer.Ok?;
      g := if !room then Got(taken, TooLarge, true) else Got(taken, Ended(answer), answer == Closed);
      if more {
        ReceiveGoesOn(taken, rest, length, capacity, left, buffer.Length, k);
      } else {
        ReceiveStops(taken, rest, length, capacity, left, answer);
      }
    }

    /** One call of the transport, with room made for it first. */
    method ReadOnce(incoming: Bytes, taken: nat, answer: Answer, ghost before: Bytes) returns (room: bool, k: nat)
      requires Valid() && taken <= |incoming| && Holds(before, incoming[..taken])
      modifies this`buffer, this`bufferLength, buffer
      ensures Valid() && taken + k <= |incoming| && Holds(before, incoming[..taken + k]) && bufferLength < buffer.Length
      ensures buffer == old(buffer) || fresh(buffer)
      ensures room == Grown(old(bufferLength), old(buffer.Length)).Some? && (!room || !answer.Ok? ==> k == 0)
      ensures room ==> old(bufferLength) + 1 < buffer.Length == Grown(old(bufferLength), old(buffer.Length)).value
      ensures room && answer.Ok? ==>
        k == Least(answer.n, Least(|incoming| - taken, buffer.Length - old(bufferLength) - 1))
      ensures bufferLength == old(bufferLength) + k
    {
      hide Unsent, InBounds, Grown;
      k := 0;
      room := EnsureSpace();
      if room && answer.Ok? {
        k := Least(answer.n, Least(|incoming| - taken, buffer.Length - bufferLength - 1));
        Append(incoming[taken..taken + k]);
        assert incoming[..taken] + incoming[taken..taken + k] == incoming[..taken + k];
      }
    }
  }
}
