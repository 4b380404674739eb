/** The lock-free sample ring between the CPU thread and the audio callback, as the interleaving of
    the two threads' individual loads, slot accesses and index stores
    (peripheral_sound.hpp, peripheral_sound.cpp). */
module SoundRing {
  const RING_SIZE := 4096

  type Index = x: nat | x < RING_SIZE

  /** A 16-bit PCM sample. */
  type Sample = x: int | -0x8000 <= x < 0x8000

  function Wrap(x: nat): Index { x % RING_SIZE }

  /** Where the producer is inside handle_ch1_start and try_push; `todo` is the rest of the burst.
      `seen` is history: how many samples had been popped when the tail was loaded. */
  datatype Producer =
    | Idle
    | Next(todo: seq<Sample>)
    | HasHead(todo: seq<Sample>, head: Index)
    | HasTail(todo: seq<Sample>, head: Index, tail: Index, seen: nat)
    | Written(todo: seq<Sample>, next: Index)

  /** Where the consumer is inside pop; `seen` is history: how many samples had been accepted when
      the head was loaded. */
  datatype Consumer =
    | Waiting
    | Asked(n: nat)
    | GotHead(n: nat, head: Index, seen: nat)
    | Copying(n: nat, head: Index, tail: Index, out: seq<Sample>, seen: nat)

  /** The shared memory, both threads, and the history of what was accepted, dropped and popped. */
  datatype State = State(slots: seq<Sample>, head: Index, tail: Index, producer: Producer, consumer: Consumer,
                         accepted: seq<Sample>, popped: seq<Sample>,
                         burst: nat, burstAccepted: nat, burstDropped: nat)

  datatype Action = StartBurst(samples: seq<Sample>) | Produce | StartPop(n: nat) | Consume

  function Init(slots: seq<Sample>): State
    requires |slots| == RING_SIZE
  {
    State(slots, 0, 0, Idle, Waiting, [], [], 0, 0, 0)
  }

  /** One atomic step of the producer. */
  function ProducerStep(s: State): (s': State)
    requires |s.slots| == RING_SIZE
    ensures |s'.slots| == RING_SIZE
  {
    match s.producer
    case Idle => s
    case Next(todo) => s.(producer := if todo == [] then Idle else HasHead(todo, s.head))
    case HasHead(todo, head) => s.(producer := HasTail(todo, head, s.tail, |s.popped|))
    case HasTail(todo, head, tail, _) =>
      if todo == [] then s
      else if Wrap(head + 1) == tail then s.(producer := Next(todo[1..]), burstDropped := s.burstDropped + 1)
      else s.(slots := s.slots[head := todo[0]], producer := Written(todo, Wrap(head + 1)))
    case Written(todo, next) =>
      if todo == [] then s
      else s.(head := next, accepted := s.accepted + [todo[0]], burstAccepted := s.burstAccepted + 1,
              producer := Next(todo[1..]))
  }

  /** One atomic step of the consumer. */
  function ConsumerStep(s: State): (s': State)
    requires |s.slots| == RING_SIZE
    ensures |s'.slots| == RING_SIZE
  {
    match s.consumer
    case Waiting => s
    case Asked(n) => s.(consumer := GotHead(n, s.head, |s.accepted|))
    case GotHead(n, head, seen) => s.(consumer := Copying(n, head, s.tail, [], seen))
    case Copying(n, head, tail, out, seen) =>
      if |out| < n && tail != head then
        s.(consumer := Copying(n, head, Wrap(tail + 1), out + [s.slots[tail]], seen))
      else s.(tail := tail, popped := s.popped + out, consumer := Waiting)
  }

  function Step(s: State, a: Action): (s': State)
    requires |s.slots| == RING_SIZE
    ensures |s'.slots| == RING_SIZE
  {
    match a
    case StartBurst(samples) =>
      if s.producer.Idle? then s.(producer := Next(samples), burst := |samples|, burstAccepted := 0, burstDropped := 0)
      else s
    case Produce => ProducerStep(s)
    case StartPop(n) => if s.consumer.Waiting? then s.(consumer := Asked(n)) else s
    case Consume => ConsumerStep(s)
  }

  /** Any interleaving whatsoever. */
  function Run(s: State, actions: seq<Action>): (s': State)
    requires |s.slots| == RING_SIZE
    ensures |s'.slots| == RING_SIZE
  {
    if actions == [] then s else Step(Run(s, actions[..|actions| - 1]), actions[|actions| - 1])
  }

  // ---- the invariant ----

  /** Indices count the accepted and the popped samples; the live slots hold the samples between. */
  predicate SharedInv(s: State) {
    var H, T := |s.accepted|, |s.popped|;
    && |s.slots| == RING_SIZE
    && s.head == Wrap(H) && s.tail == Wrap(T) && T <= H < T + RING_SIZE
    && s.popped == s.accepted[..T]
    && forall k | T <= k < H :: s.slots[Wrap(k)] == s.accepted[k]
  }

  predicate ProducerInv(s: State) {
    var H, T := |s.accepted|, |s.popped|;
    match s.producer
    case Idle => s.burstAccepted + s.burstDropped == s.burst
    case Next(todo) => s.burstAccepted + s.burstDropped + |todo| == s.burst
    case HasHead(todo, head) =>
      todo != [] && head == Wrap(H) && s.burstAccepted + s.burstDropped + |todo| == s.burst
    case HasTail(todo, head, tail, seen) =>
      && todo != [] && head == Wrap(H) && s.burstAccepted + s.burstDropped + |todo| == s.burst
      && tail == Wrap(seen) && seen <= T && H < seen + RING_SIZE
    case Written(todo, next) =>
      && todo != [] && next == Wrap(H + 1) && s.burstAccepted + s.burstDropped + |todo| == s.burst
      && H + 1 < T + RING_SIZE && Wrap(H) < |s.slots| && s.slots[Wrap(H)] == todo[0]
  }

  predicate ConsumerInv(s: State) {
    var H, T := |s.accepted|, |s.popped|;
    match s.consumer
    case Waiting => true
    case Asked(n) => true
    case GotHead(n, head, seen) => head == Wrap(seen) && T <= seen <= H
    case Copying(n, head, tail, out, seen) =>
      && head == Wrap(seen) && T + |out| <= seen <= H && |out| <= n
      && tail == Wrap(T + |out|) && out == s.accepted[T..T + |out|]
  }

  predicate Inv(s: State) {
    SharedInv(s) && ProducerInv(s) && ConsumerInv(s)
  }

  /** Two positions less than one lap apart share a slot only if they are equal. */
  lemma SameSlot(a: nat, b: nat)
    requires a <= b < a + RING_SIZE && Wrap(a) == Wrap(b)
    ensures a == b
  {
  }

  lemma WrapNext(x: nat)
    ensures Wrap(Wrap(x) + 1) == Wrap(x + 1)
  {
  }

  lemma FullLap(x: nat)
    ensures Wrap(x + RING_SIZE) == Wrap(x)
  {
  }

  /** The producer found room: its tail may be out of date, but only on the safe side. */
  predicate Accepting(s: State) {
    s.producer.HasTail? && s.producer.todo != [] && Wrap(s.producer.head + 1) != s.producer.tail
  }

  /** The full test leaves one slot free, even against an out-of-date tail. */
  lemma RoomLeft(s: State)
    requires Inv(s) && Accepting(s)
    ensures |s.accepted| + 1 < |s.popped| + RING_SIZE
  {
    hide Wrap;
    WrapNext(|s.accepted|);
    FullLap(s.producer.seen);
  }

  /** A slot is never overwritten before the consumer has published past it. */
  lemma NoOverwrite(s: State, k: nat)
    requires Inv(s) && Accepting(s) && |s.popped| <= k < |s.accepted|
    ensures Wrap(k) != s.producer.head
  {
    RoomLeft(s);
    hide Wrap, ConsumerInv;
    if Wrap(k) == Wrap(|s.accepted|) {
      SameSlot(k, |s.accepted|);
    }
  }

  lemma WriteKeepsInv(s: State)
    requires Inv(s) && Accepting(s)
    ensures Inv(ProducerStep(s))
  {
    hide Wrap, ConsumerInv;
    var s' := ProducerStep(s);
    WrapNext(|s.accepted|);
    RoomLeft(s);
    forall k | |s.popped| <= k < |s.accepted|
      ensures s'.slots[Wrap(k)] == s.accepted[k]
    {
      NoOverwrite(s, k);
    }
    ConsumerUnaffected(s, s');
  }

  lemma PublishKeepsInv(s: State)
    requires Inv(s) && s.producer.Written?
    ensures Inv(ProducerStep(s))
  {
    hide Wrap, ConsumerInv;
    var s' := ProducerStep(s);
    assert s'.accepted[..|s.popped|] == s.accepted[..|s.popped|];
    ConsumerUnaffected(s, s');
  }

  lemma ProducerKeepsInv(s: State)
    requires Inv(s)
    ensures Inv(ProducerStep(s))
  {
    if Accepting(s) {
      WriteKeepsInv(s);
    } else if s.producer.Written? {
      PublishKeepsInv(s);
    } else {
      ConsumerUnaffected(s, ProducerStep(s));
      hide Wrap, ConsumerInv;
    }
  }

  /** The consumer's view survives whatever the producer does to the history. */
  lemma ConsumerUnaffected(s: State, s': State)
    requires ConsumerInv(s) && s.accepted <= s'.accepted && s'.popped == s.popped && s'.consumer == s.consumer
    ensures ConsumerInv(s')
  {
    hide Wrap;
  }

  lemma CopyKeepsInv(s: State)
    requires Inv(s) && s.consumer.Copying? && ConsumerStep(s).consumer.Copying?
    ensures Inv(ConsumerStep(s))
  {
    hide Wrap, ProducerInv;
    var T, c := |s.popped|, s.consumer;
    var k := T + |c.out|;
    WrapNext(k);
    assert k < c.seen;
    assert s.accepted[T..k + 1] == s.accepted[T..k] + [s.accepted[k]];
    ProducerUnaffected(s, ConsumerStep(s));
  }

  lemma PublishPopKeepsInv(s: State)
    requires Inv(s) && s.consumer.Copying? && ConsumerStep(s).consumer.Waiting?
    ensures Inv(ConsumerStep(s))
  {
    hide Wrap, ProducerInv;
    var T, c := |s.popped|, s.consumer;
    assert s.accepted[..T] + s.accepted[T..T + |c.out|] == s.accepted[..T + |c.out|];
    ProducerUnaffected(s, ConsumerStep(s));
  }

  lemma ConsumerKeepsInv(s: State)
    requires Inv(s)
    ensures Inv(ConsumerStep(s))
  {
    if s.consumer.Copying? {
      if ConsumerStep(s).consumer.Copying? {
        CopyKeepsInv(s);
      } else {
        PublishPopKeepsInv(s);
      }
    } else {
      ProducerUnaffected(s, ConsumerStep(s));
      hide Wrap, ProducerInv;
    }
  }

  /** Popping only ever gives the producer more room. */
  lemma ProducerUnaffected(s: State, s': State)
    requires ProducerInv(s) && s'.accepted == s.accepted && |s.popped| <= |s'.popped| && s'.slots == s.slots
    requires s' == s.(popped := s'.popped, tail := s'.tail, consumer := s'.consumer)
    ensures ProducerInv(s')
  {
    hide Wrap;
  }

  lemma StepKeepsInv(s: State, a: Action)
    requires Inv(s)
    ensures Inv(Step(s, a))
  {
    match a {
      case Produce => ProducerKeepsInv(s);
      case Consume => ConsumerKeepsInv(s);
      case _ =>
    }
  }

  // ---- the main result ----

  /** available(): (head - tail) masked to the ring size. */
  function Occupied(head: Index, tail: Index): (n: nat)
    ensures n == if tail <= head then head - tail else head + RING_SIZE - tail
  {
    (head - tail) % RING_SIZE
  }

  /** The samples between tail and head, oldest first. */
  function Window(slots: seq<Sample>, head: Index, tail: Index): (w: seq<Sample>)
    requires |slots| == RING_SIZE
    ensures |w| == Occupied(head, tail)
  {
    seq(Occupied(head, tail), i requires 0 <= i => slots[Wrap(tail + i)])
  }

  function Contents(s: State): seq<Sample>
    requires |s.slots| == RING_SIZE
  {
    Window(s.slots, s.head, s.tail)
  }

  lemma OccupiedMeans(H: nat, T: nat)
    requires T <= H < T + RING_SIZE
    ensures Occupied(Wrap(H), Wrap(T)) == H - T
  {
  }

  lemma ContentsAreUnpopped(s: State)
    requires Inv(s)
    ensures Contents(s) == s.accepted[|s.popped|..]
  {
    var H, T := |s.accepted|, |s.popped|;
    OccupiedMeans(H, T);
    hide ProducerInv, ConsumerInv;
    forall i | 0 <= i < H - T
      ensures Contents(s)[i] == s.accepted[T + i]
    {
      assert Wrap(s.tail + i) == Wrap(T + i);
    }
  }

  /** Under every interleaving of the two threads' steps: the popped samples followed by those in
      the ring are exactly the accepted samples in order, the ring never holds more than 4095, and
      between bursts accepted plus dropped samples make up the burst. */
  lemma {:induction false} RingIsFifo(slots: seq<Sample>, actions: seq<Action>)
    requires |slots| == RING_SIZE
    ensures
      var s := Run(Init(slots), actions);
      && Inv(s)
      && s.popped + Contents(s) == s.accepted
      && |Contents(s)| <= 4095
      && (s.producer.Idle? ==> s.burstAccepted + s.burstDropped == s.burst)
  {
    assert Inv(Init(slots)) by {
      hide Run;
    }
    var s := Run(Init(slots), actions);
    hide Wrap, ConsumerInv, Window, Step;
    RunKeepsInv(Init(slots), actions);
    hide Run;
    ContentsAreUnpopped(s);
  }

  lemma {:induction false} RunKeepsInv(s: State, actions: seq<Action>)
    requires |s.slots| == RING_SIZE && Inv(s)
    ensures Inv(Run(s, actions))
  {
    hide Inv;
    if actions != [] {
      RunKeepsInv(s, actions[..|actions| - 1]);
      StepKeepsInv(Run(s, actions[..|actions| - 1]), actions[|actions| - 1]);
    }
  }

  // ---- the ring object, between interleavings ----

  lemma PushedWindow(slots: seq<Sample>, head: Index, tail: Index, x: Sample)
    requires |slots| == RING_SIZE
    ensures Wrap(head + 1) == tail <==> Occupied(head, tail) == RING_SIZE - 1
    ensures Wrap(head + 1) != tail ==>
              Window(slots[head := x], Wrap(head + 1), tail) == Window(slots, head, tail) + [x]
  {
    var n := Occupied(head, tail);
    if Wrap(head + 1) != tail {
      var pushed := Window(slots[head := x], Wrap(head + 1), tail);
      assert Occupied(Wrap(head + 1), tail) == n + 1;
      forall i | 0 <= i <= n
        ensures pushed[i] == if i < n then slots[Wrap(tail + i)] else x
      {
        assert Wrap(tail + i) == head <==> i == n;
      }
    }
  }

  lemma PoppedWindow(slots: seq<Sample>, head: Index, tail: Index)
    requires |slots| == RING_SIZE && tail != head
    ensures Window(slots, head, tail) == [slots[tail]] + Window(slots, head, Wrap(tail + 1))
  {
    var all, rest := Window(slots, head, tail), Window(slots, head, Wrap(tail + 1));
    assert Occupied(head, Wrap(tail + 1)) == Occupied(head, tail) - 1;
    assert all[0] == slots[Wrap(tail + 0)] == slots[tail];
    forall j | 0 <= j < |all|
      ensures all[j] == ([slots[tail]] + rest)[j]
    {
      if j > 0 {
        assert Wrap(Wrap(tail + 1) + (j - 1)) == Wrap(tail + j);
      }
    }
  }

  class SampleRing {
    const ring: array<Sample>
    var head: Index
    var tail: Index

    constructor ()
      ensures Valid() && fresh(ring) && Samples() == []
    {
      ring := new Sample[RING_SIZE](_ => 0);
      head, tail := 0, 0;
    }

    predicate Valid()
      reads this
    {
      ring.Length == RING_SIZE
    }

    ghost function Samples(): seq<Sample>
      requires Valid()
      reads this, ring
    {
      Window(ring[..], head, tail)
    }

    method TryPush(sample: Sample) returns (ok: bool)
      requires Valid()
      modifies this`head, ring
      ensures Valid() && ok == (|old(Samples())| < 4095)
      ensures Samples() == if ok then old(Samples()) + [sample] else old(Samples())
    {
      hide Window;
      PushedWindow(ring[..], head, tail, sample);
      var next := Wrap(head + 1);
      if next == tail {
        return false;
      }
      ring[head] := sample;
      head := next;
      assert ring[..] == old(ring[..])[old(head) := sample];
      return true;
    }

    method Pop(n: nat) returns (out: seq<Sample>)
      requires Valid()
      modifies this`tail
      ensures Valid() && |out| == (if n <= |old(Samples())| then n else |old(Samples())|)
      ensures out + Samples() == old(Samples())
    {
      hide Window;
      var t: Index := tail;
      out := [];
      while |out| < n && t != head
        invariant |out| <= n && out + Window(ring[..], head, t) == old(Samples())
        decreases n - |out|
      {
        PoppedWindow(ring[..], head, t);
        out := out + [ring[t]];
        t := Wrap(t + 1);
      }
      tail := t;
    }
  }
}
