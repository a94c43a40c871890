/** Producers fill one buffer while a single consumer thread empties the other; whole runs in any interleaving. */
module SeparateThreadConsumers {

  datatype Side = First | Second

  function Other(side: Side): Side {
    if side == First then Second else First
  }

  /** The two buffers, which of them is written to, and how much of it is used. All changes happen under one lock. */
  datatype Queue<T> = Queue(first: seq<T>, second: seq<T>, write: Side, used: nat)

  function Buffer<T>(q: Queue<T>, side: Side): seq<T> {
    if side == First then q.first else q.second
  }

  ghost predicate IsQueue<T>(q: Queue<T>, capacity: nat) {
    |q.first| == capacity && |q.second| == capacity && q.used <= capacity
  }

  function Enqueued<T>(q: Queue<T>, value: T): Queue<T>
    requires q.used < |Buffer(q, q.write)|
  {
    var after :=
      if q.write == First then q.(first := q.first[q.used := value]) else q.(second := q.second[q.used := value]);
    after.(used := q.used + 1)
  }

  function Swapped<T>(q: Queue<T>): Queue<T> {
    q.(write := Other(q.write), used := 0)
  }

  class SeparateThreadConsumer<T> {
    const buffer1: array<T>
    const buffer2: array<T>
    var writeBuffer: array<T>
    var readBuffer: array<T>
    var bufferUsed: nat

    constructor (capacity: nat, blank: T)
      ensures Valid() && IsQueue(View(), capacity) && View().write == First && View().used == 0
    {
      buffer1 := new T[capacity](_ => blank);
      buffer2 := new T[capacity](_ => blank);
      writeBuffer, readBuffer, bufferUsed := buffer1, buffer2, 0;
    }

    ghost predicate Valid()
      reads this
    {
      && buffer1 != buffer2 && buffer1.Length == buffer2.Length && bufferUsed <= buffer1.Length
      && ((writeBuffer == buffer1 && readBuffer == buffer2) || (writeBuffer == buffer2 && readBuffer == buffer1))
    }

    ghost function View(): Queue<T>
      reads this, buffer1, buffer2
    {
      Queue(buffer1[..], buffer2[..], if writeBuffer == buffer1 then First else Second, bufferUsed)
    }

    /** Under the lock: one value into the write buffer, unless it is full. */
    method TryEnqueue(value: T) returns (ok: bool)
      requires Valid()
      modifies `bufferUsed, writeBuffer
      ensures Valid() && ok == (old(bufferUsed) < buffer1.Length)
      ensures View() == if ok then Enqueued(old(View()), value) else old(View())
    {
      if bufferUsed >= writeBuffer.Length { return false; }
      writeBuffer[bufferUsed] := value;
      bufferUsed := bufferUsed + 1;
      return true;
    }

    /** Under the lock: takes the filled buffer and hands producers the other one. */
    method TakeValues() returns (values: array<T>, nrOfValues: nat)
      requires Valid()
      modifies `writeBuffer, `readBuffer, `bufferUsed
      ensures Valid() && View() == Swapped(old(View())) && nrOfValues == old(bufferUsed)
      ensures values == old(writeBuffer) && values != writeBuffer
    {
      nrOfValues, values := bufferUsed, writeBuffer;
      writeBuffer, readBuffer := readBuffer, writeBuffer;
      bufferUsed := 0;
    }
  }

  /** Where the consumer thread is; `last` marks the drain after the loop. */
  datatype Phase =
    | Testing
    | Waiting
    | Taking(last: bool)
    | Delivering(from: Side, next: nat, count: nat, last: bool)
    | Finished

  /** The queue, the stop flag, the thread, what has been delivered, all successful enqueues, and how many came before
      the last drain. */
  datatype State<T> =
    State(queue: Queue<T>, stop: bool, phase: Phase, delivered: seq<T>, accepted: seq<T>, drained: nat)

  datatype Step<T> = TryEnqueue(value: T) | Stop | TestStop | Wake | TimeOut | Take | Deliver | Return

  /** What each thread may do next. Enqueuing and stopping are always possible. */
  predicate Enabled<T>(s: State<T>, step: Step<T>) {
    match step
    case TryEnqueue(_) => true
    case Stop => true
    case TestStop => s.phase.Testing?
    case Wake => s.phase.Waiting? && (s.queue.used != 0 || s.stop)
    case TimeOut => s.phase.Waiting? && s.queue.used == 0 && !s.stop
    case Take => s.phase.Taking?
    case Deliver => s.phase.Delivering? && s.phase.next < s.phase.count
      && s.phase.next < |Buffer(s.queue, s.phase.from)|
    case Return => s.phase.Delivering? && s.phase.next >= s.phase.count
  }

  function After<T>(s: State<T>, step: Step<T>): State<T>
    requires Enabled(s, step)
  {
    match step
    case TryEnqueue(value) =>
      if s.queue.used >= |Buffer(s.queue, s.queue.write)| then s
      else s.(queue := Enqueued(s.queue, value), accepted := s.accepted + [value])
    case Stop => s.(stop := true)
    case TestStop => s.(phase := if s.stop then Taking(true) else Waiting)
    case Wake => s.(phase := Taking(false))
    case TimeOut => s.(phase := Testing)
    case Take =>
      s.(queue := Swapped(s.queue), phase := Delivering(s.queue.write, 0, s.queue.used, s.phase.last),
         drained := if s.phase.last then |s.accepted| else s.drained)
    case Deliver =>
      s.(delivered := s.delivered + [Buffer(s.queue, s.phase.from)[s.phase.next]],
        phase := s.phase.(next := s.phase.next + 1))
    case Return => s.(phase := if s.phase.last then Finished else Testing)
  }

  ghost predicate Initial<T>(s: State<T>, capacity: nat) {
    && IsQueue(s.queue, capacity) && s.queue.used == 0 && s.queue.write == First
    && !s.stop && s.phase == Testing && s.delivered == [] && s.accepted == [] && s.drained == 0
  }

  /** What the consumer has taken and not delivered yet; it is read from the buffer as it is now. */
  function InHand<T>(s: State<T>): seq<T>
    requires s.phase.Delivering? ==> s.phase.next <= s.phase.count <= |Buffer(s.queue, s.phase.from)|
  {
    if s.phase.Delivering? then Buffer(s.queue, s.phase.from)[s.phase.next..s.phase.count] else []
  }

  function Queued<T>(s: State<T>): seq<T>
    requires s.queue.used <= |Buffer(s.queue, s.queue.write)|
  {
    Buffer(s.queue, s.queue.write)[..s.queue.used]
  }

  function Draining<T>(s: State<T>): bool {
    s.phase.Finished? || (s.phase.Delivering? && s.phase.last)
  }

  /** Nothing is lost, duplicated or reordered, and producers stay out of the buffer being consumed. */
  ghost predicate Conserved<T>(s: State<T>, capacity: nat) {
    && IsQueue(s.queue, capacity)
    && (s.phase.Delivering? ==> s.phase.from != s.queue.write && s.phase.next <= s.phase.count <= capacity)
    && s.delivered + InHand(s) + Queued(s) == s.accepted
    && (Draining(s) ==> s.drained <= |s.accepted| && s.delivered + InHand(s) == s.accepted[..s.drained])
  }

  lemma InitialConserved<T>(s: State<T>, capacity: nat)
    requires Initial(s, capacity)
    ensures Conserved(s, capacity)
  {
  }

  lemma EnqueueConserves<T>(s: State<T>, capacity: nat, value: T)
    requires Conserved(s, capacity) && s.queue.used < capacity
    ensures Conserved(After(s, TryEnqueue(value)), capacity)
  {
    var t := After(s, TryEnqueue(value));
    assert Queued(t) == Queued(s) + [value];
    assert InHand(t) == InHand(s);
    assert t.delivered + InHand(t) + Queued(t) == (s.delivered + InHand(s) + Queued(s)) + [value];
    assert Draining(s) ==> t.accepted[..s.drained] == s.accepted[..s.drained];
  }

  lemma TakeConserves<T>(s: State<T>, capacity: nat)
    requires Conserved(s, capacity) && s.phase.Taking?
    ensures Conserved(After(s, Take), capacity)
  {
    var t := After(s, Take);
    assert InHand(s) == [] && InHand(t) == Queued(s) && Queued(t) == [];
    assert s.delivered + [] + Queued(s) == s.delivered + Queued(s) + [];
    assert s.accepted[..|s.accepted|] == s.accepted;
  }

  lemma DeliverConserves<T>(s: State<T>, capacity: nat)
    requires Conserved(s, capacity) && Enabled(s, Deliver)
    ensures Conserved(After(s, Deliver), capacity)
  {
    var t := After(s, Deliver);
    assert InHand(s) == [Buffer(s.queue, s.phase.from)[s.phase.next]] + InHand(t);
    assert t.delivered + InHand(t) == s.delivered + InHand(s);
  }

  lemma StepConserves<T>(s: State<T>, capacity: nat, step: Step<T>)
    requires Conserved(s, capacity) && Enabled(s, step)
    ensures Conserved(After(s, step), capacity)
  {
    match step
    case TryEnqueue(value) => if s.queue.used < capacity { EnqueueConserves(s, capacity, value); }
    case Take => TakeConserves(s, capacity);
    case Deliver => DeliverConserves(s, capacity);
    case _ =>
      var t := After(s, step);
      assert InHand(t) == InHand(s) && Queued(t) == Queued(s);
  }

  /** A run: every step is possible in the state it is taken in. */
  ghost predicate IsRun<T>(s: State<T>, steps: seq<Step<T>>)
    decreases |steps|
  {
    steps == [] || (Enabled(s, steps[0]) && IsRun(After(s, steps[0]), steps[1..]))
  }

  ghost function Reached<T>(s: State<T>, steps: seq<Step<T>>): State<T>
    requires IsRun(s, steps)
    decreases |steps|
  {
    if steps == [] then s else Reached(After(s, steps[0]), steps[1..])
  }

  lemma {:induction false} RunConserves<T>(s: State<T>, capacity: nat, steps: seq<Step<T>>)
    requires Conserved(s, capacity) && IsRun(s, steps)
    ensures Conserved(Reached(s, steps), capacity)
    decreases |steps|
  {
    if steps != [] {
      StepConserves(s, capacity, steps[0]);
      RunConserves(After(s, steps[0]), capacity, steps[1..]);
    }
  }

  /** In every interleaving, delivered, in-hand and queued values are the successful enqueues, in order. */
  lemma EveryRunConserves<T>(s: State<T>, capacity: nat, steps: seq<Step<T>>)
    requires Initial(s, capacity) && IsRun(s, steps)
    ensures var t := Reached(s, steps); Conserved(t, capacity) && t.delivered + InHand(t) + Queued(t) == t.accepted
  {
    InitialConserved(s, capacity);
    RunConserves(s, capacity, steps);
  }

  /** When the thread has finished, exactly what was accepted before the last drain has been delivered; later values
      stay behind. */
  lemma FinishedDelivery<T>(s: State<T>, capacity: nat, steps: seq<Step<T>>)
    requires Initial(s, capacity) && IsRun(s, steps) && Reached(s, steps).phase.Finished?
    ensures var t := Reached(s, steps);
      Conserved(t, capacity) && t.drained <= |t.accepted| && t.delivered == t.accepted[..t.drained]
        && Queued(t) == t.accepted[t.drained..]
  {
    EveryRunConserves(s, capacity, steps);
    var t := Reached(s, steps);
    assert t.delivered + InHand(t) == t.delivered;
    assert t.accepted[t.drained..] == Queued(t);
  }

  /** Before the stop flag is set, the thread is not on its last drain. */
  ghost predicate NoDrainUnlessStopped<T>(s: State<T>) {
    !s.stop ==> !Draining(s) && s.phase != Taking(true)
  }

  lemma {:induction false} RunDrainsWhenStopped<T>(s: State<T>, steps: seq<Step<T>>)
    requires NoDrainUnlessStopped(s) && IsRun(s, steps)
    ensures NoDrainUnlessStopped(Reached(s, steps))
    decreases |steps|
  {
    if steps != [] { RunDrainsWhenStopped(After(s, steps[0]), steps[1..]); }
  }

  /** Those values come first among the accepted ones, and the last drain will be late enough for them. */
  ghost predicate Covers<T>(s: State<T>, values: seq<T>) {
    values <= s.accepted && (Draining(s) ==> |values| <= s.drained)
  }

  lemma {:induction false} RunCovers<T>(s: State<T>, capacity: nat, steps: seq<Step<T>>, values: seq<T>)
    requires Conserved(s, capacity) && Covers(s, values) && IsRun(s, steps)
    ensures Covers(Reached(s, steps), values)
    decreases |steps|
  {
    if steps != [] {
      StepConserves(s, capacity, steps[0]);
      RunCovers(After(s, steps[0]), capacity, steps[1..], values);
    }
  }

  /** Whatever had been accepted when the consumer was first told to stop has been delivered once its thread has
      finished. */
  lemma StopDeliversAccepted<T>(s: State<T>, capacity: nat, before: seq<Step<T>>, after: seq<Step<T>>)
    requires Initial(s, capacity) && IsRun(s, before) && !Reached(s, before).stop
    requires IsRun(After(Reached(s, before), Stop), after)
    requires Reached(After(Reached(s, before), Stop), after).phase.Finished?
    ensures Reached(s, before).accepted <= Reached(After(Reached(s, before), Stop), after).delivered
  {
    var m := Reached(s, before);
    EveryRunConserves(s, capacity, before);
    RunDrainsWhenStopped(s, before);
    var stopped := After(m, Stop);
    StepConserves(m, capacity, Stop);
    RunCovers(stopped, capacity, after, m.accepted);
    RunConserves(stopped, capacity, after);
    var t := Reached(stopped, after);
    assert t.delivered + InHand(t) == t.delivered;
  }

  /** After the end nothing more is delivered, whatever producers do. */
  lemma {:induction false} FinishedStays<T>(s: State<T>, steps: seq<Step<T>>)
    requires s.phase.Finished? && IsRun(s, steps)
    ensures Reached(s, steps).phase.Finished? && Reached(s, steps).delivered == s.delivered
      && Reached(s, steps).drained == s.drained
    decreases |steps|
  {
    if steps != [] { FinishedStays(After(s, steps[0]), steps[1..]); }
  }
}
