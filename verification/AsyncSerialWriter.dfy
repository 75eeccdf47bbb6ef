/** The write side of AsyncSerial within one open session, as a protocol.

    Any number of threads call write(); each call is two separate actions, the
    insertion under the queue mutex and the posting of a doWrite handler.  One
    background thread runs the handlers.  doWrite is split at the point where it
    acquires the mutex, so insertions can fall between its test of the buffer
    and its use of the queue.  The device takes bytes of the outstanding write
    in portions of its own choosing and may fail at any moment. */
module AsyncSerialWriter {
  import opened Options

  type Bytes = seq<char>

  /** `inFlight` counts outstanding async_write operations and `written` is the
      concatenation, in mutex order, of everything inserted so far. */
  datatype State = State(
    writeQueue: Bytes, writeBuffer: Option<Bytes>, sent: nat, inFlight: nat,
    posted: nat, writers: nat, taking: bool, error: bool, wire: Bytes, written: Bytes)

  datatype Event =
    | Insert(data: Bytes)      // write(): under the mutex
    | Post                     // write(): io.post(doWrite)
    | DoWriteTest              // doWrite: is a write already in progress?
    | DoWriteTake              // doWrite: under the mutex
    | Transmit(count: nat)     // the device accepts bytes of the buffer
    | WriteEnd                 // completion handler, no error
    | WriteFailed              // completion handler, error

  const START := State([], None, 0, 0, 0, 0, false, false, [], [])

  function Pending(s: State): Bytes {
    match s.writeBuffer
    case None => []
    case Some(b) => if s.sent <= |b| then b[s.sent..] else []
  }

  /** The handler thread runs one handler at a time. */
  predicate Enabled(s: State, e: Event) {
    match e
    case Insert(_) => true
    case Post => s.writers > 0
    case DoWriteTest => s.posted > 0 && !s.taking
    case DoWriteTake => s.taking
    case Transmit(n) => s.inFlight > 0 && s.writeBuffer.Some? && 0 < n <= |Pending(s)|
    case WriteEnd => s.inFlight > 0 && !s.taking && Pending(s) == []
    case WriteFailed => s.inFlight > 0 && !s.taking
  }

  /** Start writing out the whole queue. */
  function StartWrite(s: State): State {
    s.(writeBuffer := Some(s.writeQueue), sent := 0, writeQueue := [], inFlight := s.inFlight + 1)
  }

  function Apply(s: State, e: Event): State
    requires Enabled(s, e)
  {
    match e
    case Insert(data) =>
      s.(writeQueue := s.writeQueue + data, written := s.written + data, writers := s.writers + 1)
    case Post => s.(writers := s.writers - 1, posted := s.posted + 1)
    case DoWriteTest => s.(posted := s.posted - 1, taking := s.writeBuffer.None?)
    case DoWriteTake => StartWrite(s.(taking := false))
    case Transmit(n) => s.(wire := s.wire + Pending(s)[..n], sent := s.sent + n)
    case WriteEnd =>
      var t := s.(inFlight := s.inFlight - 1);
      if s.writeQueue == [] then t.(writeBuffer := None, sent := 0) else StartWrite(t)
    case WriteFailed => s.(inFlight := s.inFlight - 1, error := true)
  }

  predicate Possible(s: State, run: seq<Event>)
    decreases |run|
  {
    run == [] || (Enabled(s, run[0]) && Possible(Apply(s, run[0]), run[1..]))
  }

  function After(s: State, run: seq<Event>): State
    requires Possible(s, run)
    decreases |run|
  {
    if run == [] then s else After(Apply(s, run[0]), run[1..])
  }

  // ---------------------------------------------------------- invariant

  predicate Inv(s: State) {
    // nothing lost, duplicated or reordered
    && s.wire + Pending(s) + s.writeQueue == s.written
    && (s.writeBuffer.Some? ==> s.sent <= |s.writeBuffer.value|)
    // one write at a time, over exactly the buffer that is held
    && s.inFlight <= 1
    && (s.writeBuffer.Some? <==> s.inFlight == 1 || s.error)
    && (s.error ==> s.inFlight == 0)
    && (s.taking ==> s.writeBuffer.None?)
    // a non-empty queue has someone who will look at it
    && (!s.error && s.writeQueue != [] ==> s.inFlight == 1 || s.posted > 0 || s.writers > 0 || s.taking)
  }

  lemma StepKeepsInv(s: State, e: Event)
    requires Inv(s) && Enabled(s, e)
    ensures Inv(Apply(s, e))
  {
    var t := Apply(s, e);
    match e
    case Insert(data) =>
      assert s.wire + Pending(s) + (s.writeQueue + data) == s.wire + Pending(s) + s.writeQueue + data;
    case Transmit(n) =>
      var p := Pending(s);
      assert Pending(t) == p[n..];
      assert s.wire + p[..n] + p[n..] == s.wire + p;
    case DoWriteTake =>
      assert Pending(t) == s.writeQueue;
      assert s.wire + [] + s.writeQueue == s.wire + s.writeQueue + [];
    case WriteEnd =>
      assert s.writeQueue != [] ==> Pending(t) == s.writeQueue;
      assert s.wire + [] + s.writeQueue == s.wire + s.writeQueue + [];
    case _ =>
  }

  lemma {:induction false} RunKeepsInv(s: State, run: seq<Event>)
    requires Inv(s) && Possible(s, run)
    ensures Inv(After(s, run))
    decreases |run|
  {
    if run != [] {
      StepKeepsInv(s, run[0]);
      RunKeepsInv(Apply(s, run[0]), run[1..]);
    }
  }

  /** What the callers of a run wrote, in the order of their insertions: a function of the
      events alone. */
  function Inserted(run: seq<Event>): Bytes {
    if run == [] then [] else (if run[0].Insert? then run[0].data else []) + Inserted(run[1..])
  }

  lemma {:induction false} WrittenIsInserted(s: State, run: seq<Event>)
    requires Possible(s, run)
    ensures After(s, run).written == s.written + Inserted(run)
    decreases |run|
  {
    if run != [] {
      WrittenIsInserted(Apply(s, run[0]), run[1..]);
      var now := if run[0].Insert? then run[0].data else [];
      assert s.written + now + Inserted(run[1..]) == s.written + (now + Inserted(run[1..]));
    }
  }

  /** Safety over every interleaving of a session: at most one write is in flight and the
      wire is a prefix of what the callers wrote, in the order of their insertions, also
      after an error; wire, pending bytes and queue together are all of it; and without an
      error a non-empty queue is never forgotten. */
  lemma SerialWritesSafe(run: seq<Event>)
    requires Possible(START, run)
    ensures var s := After(START, run);
            && s.inFlight <= 1
            && s.wire <= Inserted(run)
            && s.wire + Pending(s) + s.writeQueue == Inserted(run)
            && (!s.error && s.writeQueue != [] ==> s.inFlight == 1 || s.posted > 0 || s.writers > 0 || s.taking)
  {
    RunKeepsInv(START, run);
    WrittenIsInserted(START, run);
    var s := After(START, run);
    assert [] + Inserted(run) == Inserted(run);
    assert Inserted(run)[..|s.wire|] == s.wire;
  }

  /** Once a write has failed nothing more reaches the wire. */
  lemma {:induction false} ErrorFreezesWire(s: State, run: seq<Event>)
    requires Inv(s) && s.error && Possible(s, run)
    ensures After(s, run).error && After(s, run).wire == s.wire
    decreases |run|
  {
    if run != [] {
      StepKeepsInv(s, run[0]);
      ErrorFreezesWire(Apply(s, run[0]), run[1..]);
    }
  }

  // ------------------------------------------------------------ delivery

  /** Everything but new calls of write() and device failures. */
  predicate Internal(e: Event) { !e.Insert? && !e.WriteFailed? }

  predicate AllInternal(run: seq<Event>) { forall i :: 0 <= i < |run| ==> Internal(run[i]) }

  /** Work left before the session is quiet. */
  function Work(s: State): nat {
    2 * |s.writeQueue| + |Pending(s)| + s.inFlight + (if s.taking then 2 else 0) + 3 * s.posted + 4 * s.writers
  }

  lemma InternalStepsWork(s: State, e: Event)
    requires Inv(s) && Enabled(s, e) && Internal(e)
    ensures Work(Apply(s, e)) < Work(s)
  {
  }

  /** A state in which only new writes or failures can happen. */
  ghost predicate Quiet(s: State) { forall e :: Enabled(s, e) ==> !Internal(e) }

  lemma QuietDelivered(s: State)
    requires Inv(s) && Quiet(s) && !s.error
    ensures s.wire == s.written && s.writeQueue == [] && s.inFlight == 0
  {
    assert !Enabled(s, Post) && !Enabled(s, DoWriteTake);
    assert !Enabled(s, DoWriteTest);
    assert !Enabled(s, WriteEnd) && !Enabled(s, Transmit(|Pending(s)|));
    assert s.wire + [] + [] == s.wire;
  }

  /** Left to themselves the handlers and the device stop after a bounded number of steps
      and without an error. */
  lemma {:induction false} InternalRunsEnd(s: State, run: seq<Event>)
    requires Inv(s) && !s.error && Possible(s, run) && AllInternal(run)
    ensures |run| <= Work(s)
    ensures !After(s, run).error && Inv(After(s, run)) && Inserted(run) == []
    decreases |run|
  {
    if run != [] {
      assert Internal(run[0]);
      StepKeepsInv(s, run[0]);
      InternalStepsWork(s, run[0]);
      assert forall i :: 0 <= i < |run[1..]| ==> run[1..][i] == run[i + 1];
      InternalRunsEnd(Apply(s, run[0]), run[1..]);
    }
  }

  /** Delivery: after any session without an error the handlers and the device, left to
      themselves, stop after a bounded number of steps, and whenever they can go no further
      the wire has exactly what the callers wrote. */
  lemma WritesAreDelivered(run: seq<Event>, more: seq<Event>)
    requires Possible(START, run) && !After(START, run).error
    requires Possible(After(START, run), more) && AllInternal(more)
    ensures |more| <= Work(After(START, run))
    ensures var s := After(After(START, run), more);
            !s.error && (Quiet(s) ==> s.wire == Inserted(run))
  {
    var t := After(START, run);
    RunKeepsInv(START, run);
    InternalRunsEnd(t, more);
    WrittenIsInserted(START, run);
    WrittenIsInserted(t, more);
    assert [] + Inserted(run) + [] == Inserted(run);
    if Quiet(After(t, more)) { QuietDelivered(After(t, more)); }
  }

  // ----------------------------------------------------------- the class

  /** AsyncSerialImpl and the methods that update it, one per atomic action. */
  class AsyncSerial {
    var writeQueue: Bytes
    var writeBuffer: Option<Bytes>
    var error: bool
    var posted: nat
    ghost var sent: nat
    ghost var inFlight: nat
    ghost var writers: nat
    ghost var taking: bool
    ghost var wire: Bytes
    ghost var written: Bytes

    ghost function Abs(): State
      reads this
    {
      State(writeQueue, writeBuffer, sent, inFlight, posted, writers, taking, error, wire, written)
    }

    constructor ()
      ensures Abs() == START && Inv(Abs())
    {
      writeQueue, writeBuffer, error, posted := [], None, false, 0;
      sent, inFlight, writers, taking, wire, written := 0, 0, 0, false, [], [];
    }

    /** write(): the insertion, under the mutex. */
    method WriteInsert(data: Bytes)
      requires Inv(Abs())
      modifies this
      ensures Abs() == Apply(old(Abs()), Insert(data)) && Inv(Abs())
    {
      StepKeepsInv(Abs(), Insert(data));
      writeQueue := writeQueue + data;
      written := written + data;
      writers := writers + 1;
    }

    /** write(): io.post. */
    method WritePost()
      requires Inv(Abs()) && Enabled(Abs(), Post)
      modifies this
      ensures Abs() == Apply(old(Abs()), Post) && Inv(Abs())
    {
      StepKeepsInv(Abs(), Post);
      posted := posted + 1;
      writers := writers - 1;
    }

    /** doWrite up to the mutex. */
    method DoWriteTestBuffer() returns (proceed: bool)
      requires Inv(Abs()) && Enabled(Abs(), DoWriteTest)
      modifies this
      ensures Abs() == Apply(old(Abs()), DoWriteTest) && Inv(Abs()) && proceed == Abs().taking
    {
      StepKeepsInv(Abs(), DoWriteTest);
      posted := posted - 1;
      proceed := writeBuffer == None;
      taking := proceed;
    }

    /** The rest of doWrite. */
    method DoWriteTakeQueue()
      requires Inv(Abs()) && Enabled(Abs(), DoWriteTake)
      modifies this
      ensures Abs() == Apply(old(Abs()), DoWriteTake) && Inv(Abs())
    {
      StepKeepsInv(Abs(), DoWriteTake);
      taking := false;
      StartAsyncWrite();
    }

    /** Copy the queue to a new buffer, clear it and call async_write. */
    method StartAsyncWrite()
      modifies this
      ensures Abs() == StartWrite(old(Abs()))
    {
      writeBuffer := Some(writeQueue);
      writeQueue := [];
      sent, inFlight := 0, inFlight + 1;
    }

    /** The device accepts the next bytes of the outstanding write. */
    ghost method DeviceTakes(count: nat)
      requires Inv(Abs()) && Enabled(Abs(), Transmit(count))
      modifies this`wire, this`sent
      ensures Abs() == Apply(old(Abs()), Transmit(count)) && Inv(Abs())
    {
      StepKeepsInv(Abs(), Transmit(count));
      wire := wire + Pending(Abs())[..count];
      sent := sent + count;
    }

    /** writeEnd */
    method WriteEndHandler(failed: bool)
      requires Inv(Abs()) && Enabled(Abs(), if failed then WriteFailed else WriteEnd)
      modifies this
      ensures Abs() == Apply(old(Abs()), if failed then WriteFailed else WriteEnd) && Inv(Abs())
    {
      StepKeepsInv(Abs(), if failed then WriteFailed else WriteEnd);
      inFlight := inFlight - 1;
      if !failed {
        if writeQueue == [] {
          writeBuffer := None;
          sent := 0;
          return;
        }
        StartAsyncWrite();
      } else {
        error := true;
      }
    }
  }
}
