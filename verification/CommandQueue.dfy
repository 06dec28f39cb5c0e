/**
 The lock-free command queue of transport.c: one producer, one consumer, eight slots, and two
 indices that only ever grow and wrap with the machine word. Every load, every store and every
 cell of a slot copy is a step of its own, interleaved in any order.
 */
module CommandQueue {
  import opened Modular

  const QUEUE_SIZE := 8

  /** The number of values of a machine word: a power of two in C; any multiple of eight will do. */
  type Word = m: nat | m > QUEUE_SIZE && m % QUEUE_SIZE == 0 witness 16

  type Cell = int

  datatype Producer =
    | Ready
    | HasHead(cmd: seq<Cell>, h: nat)
    | Writing(cmd: seq<Cell>, h: nat, done: nat)

  datatype Consumer =
    | Polling
    | HasTail(t: nat)
    | Reading(t: nat, out: seq<Cell>)

  type Slots = s: seq<seq<Cell>> | |s| == QUEUE_SIZE witness [[], [], [], [], [], [], [], []]

  /** `sent` and `got` record the commands whose enqueue and dequeue completed; `width` is a command's size. */
  datatype Queue = Queue(width: nat, head: nat, tail: nat, slots: Slots,
                         producer: Producer, consumer: Consumer,
                         sent: seq<seq<Cell>>, got: seq<seq<Cell>>)

  datatype Step =
    | LoadHead(cmd: seq<Cell>) | LoadTail | WriteCell | StoreHead
    | PollTail | PollHead | ReadCell | StoreTail

  /** head - tail in unsigned machine arithmetic. */
  function WordMinus(a: nat, b: nat, m: Word): nat {
    (a - b) % m
  }

  predicate Enabled(q: Queue, st: Step) {
    match st
    case LoadHead(cmd) => q.producer.Ready? && |cmd| == q.width
    case LoadTail => q.producer.HasHead?
    case WriteCell => q.producer.Writing? && q.producer.done < |q.producer.cmd|
                      && q.producer.done < |q.slots[q.producer.h % QUEUE_SIZE]|
    case StoreHead => q.producer.Writing? && q.producer.done >= |q.producer.cmd|
    case PollTail => q.consumer.Polling?
    case PollHead => q.consumer.HasTail?
    case ReadCell => q.consumer.Reading? && |q.consumer.out| < q.width
                     && |q.consumer.out| < |q.slots[q.consumer.t % QUEUE_SIZE]|
    case StoreTail => q.consumer.Reading? && |q.consumer.out| >= q.width
  }

  function Do(m: Word, q: Queue, st: Step): Queue
    requires Enabled(q, st)
  {
    match st
    case LoadHead(cmd) => q.(producer := HasHead(cmd, q.head))
    case LoadTail =>
      if WordMinus(q.producer.h, q.tail, m) >= QUEUE_SIZE then q.(producer := Ready)  // full: refused
      else q.(producer := Writing(q.producer.cmd, q.producer.h, 0))
    case WriteCell =>
      var i, k := q.producer.h % QUEUE_SIZE, q.producer.done;
      q.(slots := q.slots[i := q.slots[i][k := q.producer.cmd[k]]], producer := q.producer.(done := k + 1))
    case StoreHead =>
      q.(head := (q.producer.h + 1) % m, sent := q.sent + [q.producer.cmd], producer := Ready)
    case PollTail => q.(consumer := HasTail(q.tail))
    case PollHead =>
      if q.consumer.t == q.head then q.(consumer := Polling)  // empty
      else q.(consumer := Reading(q.consumer.t, []))
    case ReadCell =>
      var out := q.consumer.out;
      q.(consumer := q.consumer.(out := out + [q.slots[q.consumer.t % QUEUE_SIZE][|out|]]))
    case StoreTail =>
      q.(tail := (q.consumer.t + 1) % m, got := q.got + [q.consumer.out], consumer := Polling)
  }

  predicate Init(q: Queue) {
    && q.head == 0 && q.tail == 0 && q.sent == [] && q.got == [] && q.producer == Ready && q.consumer == Polling
    && forall i :: 0 <= i < QUEUE_SIZE ==> |q.slots[i]| == q.width
  }

  ghost predicate Run(m: Word, q: Queue, steps: seq<Step>, r: Queue)
    decreases |steps|
  {
    if steps == [] then q == r
    else Enabled(q, steps[0]) && Run(m, Do(m, q, steps[0]), steps[1..], r)
  }

  ghost predicate Shaped(q: Queue) {
    && (forall i :: 0 <= i < QUEUE_SIZE ==> |q.slots[i]| == q.width)
    && |q.got| <= |q.sent| <= |q.got| + QUEUE_SIZE
    && (forall i :: 0 <= i < |q.sent| ==> |q.sent[i]| == q.width)
  }

  /** The indices count the commands modulo the word, and the slots hold those not yet taken. */
  ghost predicate Counted(m: Word, q: Queue)
    requires Shaped(q)
  {
    && q.head == |q.sent| % m && q.tail == |q.got| % m
    && q.got == q.sent[..|q.got|]
    && (forall i :: |q.got| <= i < |q.sent| ==> q.slots[i % QUEUE_SIZE] == q.sent[i])
  }

  /** An unfinished write is confined to the slot behind the newest command. */
  ghost predicate Producing(q: Queue)
    requires Shaped(q)
  {
    match q.producer
    case Ready => true
    case HasHead(cmd, h) => h == q.head && |cmd| == q.width
    case Writing(cmd, h, done) =>
      && h == q.head && h % QUEUE_SIZE == |q.sent| % QUEUE_SIZE
      && |cmd| == q.width && done <= q.width && |q.sent| < |q.got| + QUEUE_SIZE
      && q.slots[|q.sent| % QUEUE_SIZE][..done] == cmd[..done]
  }

  /** An unfinished read holds the beginning of the oldest command. */
  ghost predicate Consuming(q: Queue)
    requires Shaped(q)
  {
    match q.consumer
    case Polling => true
    case HasTail(t) => t == q.tail
    case Reading(t, out) =>
      && t == q.tail && t % QUEUE_SIZE == |q.got| % QUEUE_SIZE
      && |q.got| < |q.sent| && |out| <= q.width && out == q.sent[|q.got|][..|out|]
  }

  ghost predicate Valid(m: Word, q: Queue) {
    Shaped(q) && Counted(m, q) && Producing(q) && Consuming(q)
  }

  /** The distance of two wrapped counters is the distance of the counts. */
  lemma WordDistance(a: nat, b: nat, m: Word)
    requires b <= a < b + m
    ensures WordMinus(a % m, b % m, m) == a - b
    ensures a % m == b % m <==> a == b
  {
    var d := (a % m) - (b % m);
    assert a == (a / m) * m + a % m && b == (b / m) * m + b % m;
    var q := b / m - a / m;
    assert d == q * m + (a - b) by {
      assert q * m == (b / m) * m - (a / m) * m;
    }
    DivModUnique(d, q, a - b, m);
    if a != b {
      ResiduesDiffer(b, a, m);
    }
  }

  lemma MultipleSlot(a: nat, m: nat)
    requires m > 0 && m % QUEUE_SIZE == 0
    ensures (a % m) % QUEUE_SIZE == a % QUEUE_SIZE
  {
    var r, k := a % m, m / QUEUE_SIZE;
    var laps := (a / m) * k;
    assert a == (a / m) * m + r && m == QUEUE_SIZE * k;
    assert (a / m) * m == QUEUE_SIZE * laps by {
      assert (a / m) * (QUEUE_SIZE * k) == QUEUE_SIZE * ((a / m) * k);
    }
    DivModUnique(a, laps + r / QUEUE_SIZE, r % QUEUE_SIZE, QUEUE_SIZE);
  }

  /** Wrapping an index does not move its slot, because eight divides the word size. */
  lemma SlotSurvivesWrap(a: nat, m: Word)
    ensures (a % m) % QUEUE_SIZE == a % QUEUE_SIZE
  {
    MultipleSlot(a, m);
  }

  /** ... and for no other size would it: the counters would go astray at the first wrap. */
  lemma OnlyMultiplesOfEight(m: nat)
    requires m > 0
    ensures m % 8 == 0 <==> forall a: nat :: (a % m) % 8 == a % 8
  {
    if m % QUEUE_SIZE == 0 {
      forall a: nat
        ensures (a % m) % QUEUE_SIZE == a % QUEUE_SIZE
      {
        MultipleSlot(a, m);
      }
    } else {
      assert (m % m) % QUEUE_SIZE != m % QUEUE_SIZE;
    }
  }

  lemma NextWord(a: nat, m: Word)
    ensures (a % m + 1) % m == (a + 1) % m
  {
    var q, r := a / m, a % m;
    assert a == q * m + r;
    if r + 1 < m {
      DivModUnique(a + 1, q, r + 1, m);
      DivModUnique(r + 1, 0, r + 1, m);
    } else {
      assert (q + 1) * m == q * m + m;
      DivModUnique(a + 1, q + 1, 0, m);
      DivModUnique(m, 1, 0, m);
    }
  }

  lemma ValidWriteCell(m: Word, q: Queue)
    requires Valid(m, q) && Enabled(q, WriteCell)
    ensures Valid(m, Do(m, q, WriteCell))
  {
    forall i | |q.got| <= i < |q.sent|
      ensures i % QUEUE_SIZE != |q.sent| % QUEUE_SIZE
    {
      ResiduesDiffer(i, |q.sent|, QUEUE_SIZE);
    }
    var k := q.producer.done;
    assert q.producer.cmd[..k + 1] == q.producer.cmd[..k] + [q.producer.cmd[k]];
  }

  lemma ValidStoreHead(m: Word, q: Queue)
    requires Valid(m, q) && Enabled(q, StoreHead)
    ensures Valid(m, Do(m, q, StoreHead))
  {
    NextWord(|q.sent|, m);
    var cmd := q.producer.cmd;
    assert q.slots[|q.sent| % QUEUE_SIZE] == q.slots[|q.sent| % QUEUE_SIZE][..q.width] == cmd[..q.width] == cmd;
    assert (q.sent + [cmd])[..|q.got|] == q.sent[..|q.got|];
  }

  lemma ValidStoreTail(m: Word, q: Queue)
    requires Valid(m, q) && Enabled(q, StoreTail)
    ensures Valid(m, Do(m, q, StoreTail))
  {
    NextWord(|q.got|, m);
    var n := |q.got|;
    assert q.consumer.out == q.sent[n][..q.width] == q.sent[n];
    assert q.sent[..n + 1] == q.sent[..n] + [q.sent[n]];
  }

  lemma ValidStep(m: Word, q: Queue, st: Step)
    requires Valid(m, q) && Enabled(q, st)
    ensures Valid(m, Do(m, q, st))
  {
    match st
    case LoadHead(_) =>
    case LoadTail =>
      WordDistance(|q.sent|, |q.got|, m);
      SlotSurvivesWrap(|q.sent|, m);
    case WriteCell => ValidWriteCell(m, q);
    case StoreHead => ValidStoreHead(m, q);
    case PollTail =>
    case PollHead =>
      WordDistance(|q.sent|, |q.got|, m);
      SlotSurvivesWrap(|q.got|, m);
    case ReadCell =>
    case StoreTail => ValidStoreTail(m, q);
  }

  lemma {:induction false} ValidFrom(m: Word, q: Queue, steps: seq<Step>, r: Queue)
    requires Valid(m, q) && Run(m, q, steps, r)
    ensures Valid(m, r)
    decreases |steps|
  {
    if steps == [] {
    } else {
      ValidStep(m, q, steps[0]);
      ValidFrom(m, Do(m, q, steps[0]), steps[1..], r);
    }
  }

  /** The commands whose enqueue completed, told by the producer's steps alone: each the last one an attempt began with. */
  function Enqueued(cmd: seq<Cell>, steps: seq<Step>): seq<seq<Cell>>
    decreases |steps|
  {
    if steps == [] then []
    else match steps[0]
      case LoadHead(c) => Enqueued(c, steps[1..])
      case StoreHead => [cmd] + Enqueued(cmd, steps[1..])
      case _ => Enqueued(cmd, steps[1..])
  }

  /** The command the producer is busy with. */
  predicate Busy(q: Queue, cmd: seq<Cell>) {
    q.producer.Ready? || q.producer.cmd == cmd
  }

  lemma {:induction false} SentFrom(m: Word, q: Queue, cmd: seq<Cell>, steps: seq<Step>, r: Queue)
    requires Busy(q, cmd) && Run(m, q, steps, r)
    ensures r.sent == q.sent + Enqueued(cmd, steps)
    decreases |steps|
  {
    if steps == [] {
    } else {
      var c := if steps[0].LoadHead? then steps[0].cmd else cmd;
      var rest := Enqueued(c, steps[1..]);
      SentFrom(m, Do(m, q, steps[0]), c, steps[1..], r);
      if steps[0].StoreHead? {
        assert q.sent + [cmd] + rest == q.sent + ([cmd] + rest);
      }
    }
  }

  /**
   In every interleaving, and however often the indices wrapped, the queue is a FIFO of at most eight commands: what
   was taken out is the beginning of what was put in.
   */
  lemma Fifo(m: Word, q: Queue, steps: seq<Step>, r: Queue)
    requires Init(q) && Run(m, q, steps, r)
    ensures r.sent == Enqueued([], steps)
    ensures r.got <= Enqueued([], steps) && |Enqueued([], steps)| - |r.got| <= 8
  {
    ValidFrom(m, q, steps, r);
    SentFrom(m, q, [], steps, r);
  }

  /** No slot is ever read while it is being written. */
  lemma NoTornRead(m: Word, q: Queue, steps: seq<Step>, r: Queue)
    requires Init(q) && Run(m, q, steps, r)
    requires r.producer.Writing? && r.consumer.Reading?
    ensures r.producer.h % QUEUE_SIZE != r.consumer.t % QUEUE_SIZE
  {
    ValidFrom(m, q, steps, r);
    SlotSurvivesWrap(|r.sent|, m);
    SlotSurvivesWrap(|r.got|, m);
    ResiduesDiffer(|r.got|, |r.sent|, QUEUE_SIZE);
  }

  /** An enqueue is refused exactly when eight commands wait as it looks, and a poll comes back empty exactly when none does. */
  lemma ExactAnswers(m: Word, q: Queue, steps: seq<Step>, r: Queue)
    requires Init(q) && Run(m, q, steps, r)
    ensures r.producer.HasHead? ==> (Do(m, r, LoadTail).producer.Ready? <==> |r.sent| - |r.got| == 8)
    ensures r.consumer.HasTail? ==> (Do(m, r, PollHead).consumer.Polling? <==> r.sent == r.got)
  {
    ValidFrom(m, q, steps, r);
    WordDistance(|r.sent|, |r.got|, m);
  }
}
