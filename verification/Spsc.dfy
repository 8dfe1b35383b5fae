/**
 * `xsl::spsc`: the lock-free single-producer single-consumer queue, one atomic
 * load or store per step. Either side decides from its own, possibly stale, copy
 * of the other side's index, and `pop` gives its slot away before it has moved
 * the item out of it.
 */
module Spsc {
  import opened Bits
  import opened Ring
  import opened Basics

  /** Where the producer is in `push`. */
  datatype Producer<+V> = PIdle | LoadHead(v: V) | Construct(v: V) | PublishTail(v: V)

  /** Where the consumer is in `pop`; `at` is the slot it reads. */
  datatype Consumer<+V> = CIdle | LoadTail | PublishHead | MoveOut(at: nat) | Destroy(at: nat, v: V)

  /** What is observed, in the order of the steps that decide it. */
  datatype Event<+V> = Accepted(v: V) | Full | Taken | Empty

  /** History, not part of the program: what was pushed, and positions without wrap-around. */
  datatype History<+V> = History(pushed: seq<V>, heads: nat, seenTail: nat, seenHead: nat, returned: seq<V>, log: seq<Event<V>>)

  datatype State<+V> = State(
    bits: nat,
    slots: seq<Slot<V>>,
    head: nat, headLocal: nat,
    tail: nat, tailLocal: nat,
    prod: Producer<V>, cons: Consumer<V>,
    hist: History<V>)
  {
    predicate Shaped() {
      && |slots| == Pow2(bits) && head < |slots| && tail < |slots|
      && (cons.MoveOut? || cons.Destroy? ==> cons.at < |slots|)
    }
  }

  function Init<V>(bits: nat): (s: State<V>)
    ensures s.Shaped() && s.bits == bits
  {
    State(bits, seq(Pow2(bits), _ => Raw), 0, 0, 0, 0, PIdle, CIdle, History([], 0, 0, 0, [], []))
  }

  // ---- Steps ----

  /** One step of the producer; `v` is what it pushes when it begins a `push`. */
  function ProducerStep<V>(s: State<V>, v: V): (s': State<V>)
    requires s.Shaped()
    ensures s'.Shaped() && s'.bits == s.bits
  {
    var next := Next(s.bits, s.tail);
    match s.prod
    case PIdle =>
      s.(prod := if next != s.tailLocal then Construct(v) else LoadHead(v))
    case LoadHead(v) =>
      s.(tailLocal := s.head,
         prod := if next != s.head then Construct(v) else PIdle,
         hist := s.hist.(seenHead := s.hist.heads, log := s.hist.log + if next != s.head then [] else [Full]))
    case Construct(v) =>
      s.(slots := s.slots[s.tail := Item(v)], prod := PublishTail(v))
    case PublishTail(v) =>
      s.(tail := next, prod := PIdle,
         hist := s.hist.(pushed := s.hist.pushed + [v], log := s.hist.log + [Accepted(v)]))
  }

  /** One step of the consumer. Moving out of raw memory is no step. */
  function ConsumerStep<V>(s: State<V>): (s': State<V>)
    requires s.Shaped()
    ensures s'.Shaped() && s'.bits == s.bits
  {
    match s.cons
    case CIdle =>
      s.(cons := if s.head == s.headLocal then LoadTail else PublishHead)
    case LoadTail =>
      s.(headLocal := s.tail,
         cons := if s.head == s.tail then CIdle else PublishHead,
         hist := s.hist.(seenTail := |s.hist.pushed|, log := s.hist.log + if s.head == s.tail then [Empty] else []))
    case PublishHead =>
      s.(head := Next(s.bits, s.head), cons := MoveOut(s.head),
         hist := s.hist.(heads := s.hist.heads + 1, log := s.hist.log + [Taken]))
    case MoveOut(at) =>
      if s.slots[at].Item? then s.(cons := Destroy(at, s.slots[at].value)) else s
    case Destroy(at, v) =>
      s.(slots := s.slots[at := Raw], cons := CIdle, hist := s.hist.(returned := s.hist.returned + [v]))
  }

  /** Whose turn it is. */
  datatype Turn<+V> = Produce(v: V) | Consume

  function Step<V>(s: State<V>, t: Turn<V>): (s': State<V>)
    requires s.Shaped()
    ensures s'.Shaped() && s'.bits == s.bits
  {
    match t
    case Produce(v) => ProducerStep(s, v)
    case Consume => ConsumerStep(s)
  }

  // ---- The bounded queue it stands for ----

  datatype Fifo<+V> = Fifo(queue: seq<V>, taken: seq<V>)

  /** A bounded queue: which events it admits, and what they leave. */
  function Admit<V>(q: Fifo<V>, e: Event<V>, capacity: nat): Option<Fifo<V>> {
    match e
    case Accepted(v) => if |q.queue| < capacity then Some(Fifo(q.queue + [v], q.taken)) else None
    case Full => if |q.queue| == capacity then Some(q) else None
    case Taken => if q.queue != [] then Some(Fifo(q.queue[1..], q.taken + [q.queue[0]])) else None
    case Empty => if q.queue == [] then Some(q) else None
  }

  /** What a bounded queue holds after these events, if it admits them. */
  function Replay<V>(log: seq<Event<V>>, capacity: nat): Option<Fifo<V>> {
    if log == [] then Some(Fifo([], []))
    else match Replay(log[..|log| - 1], capacity)
         case None => None
         case Some(q) => Admit(q, log[|log| - 1], capacity)
  }

  lemma ReplayOneMore<V>(log: seq<Event<V>>, e: Event<V>, capacity: nat, q: Fifo<V>)
    requires Replay(log, capacity) == Some(q)
    ensures Replay(log + [e], capacity) == Admit(q, e, capacity)
  {
    assert (log + [e])[..|log|] == log;
  }

  /** The values accepted, in order. */
  function Values<V>(log: seq<Event<V>>): seq<V> {
    if log == [] then []
    else
      var e := log[|log| - 1];
      Values(log[..|log| - 1]) + if e.Accepted? then [e.v] else []
  }

  /** How many were taken. */
  function Takes<V>(log: seq<Event<V>>): nat {
    if log == [] then 0
    else Takes(log[..|log| - 1]) + if log[|log| - 1].Taken? then 1 else 0
  }

  /**
   * No event comes at the wrong time: with `held` values accepted and not yet taken, one
   * more is accepted only while there is room, one is taken only if there is one, and
   * a failure is reported only of a full or an empty queue.
   */
  ghost predicate InTime<V>(e: Event<V>, held: int, capacity: nat) {
    match e
    case Accepted(_) => 0 <= held < capacity
    case Full => held == capacity
    case Taken => held > 0
    case Empty => held == 0
  }

  ghost predicate InTimeAt<V>(log: seq<Event<V>>, i: nat, capacity: nat)
    requires i < |log|
  {
    InTime(log[i], |Values(log[..i])| - Takes(log[..i]), capacity)
  }

  ghost predicate AllInTime<V>(log: seq<Event<V>>, capacity: nat) {
    forall i :: 0 <= i < |log| ==> InTimeAt(log, i, capacity)
  }

  lemma InTimeBefore<V>(log: seq<Event<V>>, n: nat, i: nat, capacity: nat)
    requires i < n <= |log|
    ensures InTimeAt(log[..n], i, capacity) == InTimeAt(log, i, capacity)
  {
    assert log[..n][..i] == log[..i] && log[..n][i] == log[i];
    hide Values, Takes, InTime;
  }

  lemma AllInTimeStep<V>(log: seq<Event<V>>, capacity: nat)
    requires log != []
    ensures AllInTime(log, capacity) <==>
              AllInTime(log[..|log| - 1], capacity) && InTimeAt(log, |log| - 1, capacity)
  {
    var n := |log| - 1;
    hide InTimeAt;
    forall i | 0 <= i < n ensures InTimeAt(log[..n], i, capacity) == InTimeAt(log, i, capacity) {
      InTimeBefore(log, n, i, capacity);
    }
  }

  /** A bounded queue admits just the histories in which no event comes at the wrong time, and hands out what it accepted, in order. */
  lemma {:induction false} ReplayExactly<V>(log: seq<Event<V>>, capacity: nat)
    ensures Replay(log, capacity).Some? <==> AllInTime(log, capacity)
    ensures Replay(log, capacity).Some? ==>
              var q := Replay(log, capacity).value;
              Takes(log) <= |Values(log)| && q.taken == Values(log)[..Takes(log)] && q.queue == Values(log)[Takes(log)..]
              && |q.queue| <= capacity
  {
    if log != [] {
      var before, e := log[..|log| - 1], log[|log| - 1];
      ReplayExactly(before, capacity);
      AllInTimeStep(log, capacity);
      hide AllInTime;
      if Replay(before, capacity).Some? {
        var q := Replay(before, capacity).value;
        AdmitExactly(q, e, capacity, Values(before), Takes(before));
      }
    }
  }

  lemma AdmitExactly<V>(q: Fifo<V>, e: Event<V>, capacity: nat, values: seq<V>, takes: nat)
    requires takes <= |values| && q.taken == values[..takes] && q.queue == values[takes..] && |q.queue| <= capacity
    ensures Admit(q, e, capacity).Some? <==> InTime(e, |values| - takes, capacity)
    ensures Admit(q, e, capacity).Some? ==>
              var q', values' := Admit(q, e, capacity).value, values + if e.Accepted? then [e.v] else [];
              var takes' := takes + if e.Taken? then 1 else 0;
              takes' <= |values'| && q'.taken == values'[..takes'] && q'.queue == values'[takes'..] && |q'.queue| <= capacity
  {}

  // ---- The invariant ----

  /** The items in memory and behind: those pushed, and one that is constructed but not published. */
  function Stored<V>(s: State<V>): seq<V> {
    s.hist.pushed + if s.prod.PublishTail? then [s.prod.v] else []
  }

  /** Indices are positions: seen head <= head <= seen tail <= tail, never a whole ring apart. */
  ghost predicate Indices<V>(s: State<V>) {
    var h, n := s.hist, Pow2(s.bits);
    var t := |h.pushed|;
    && s.head == At(s.bits, h.heads) && s.tail == At(s.bits, t)
    && s.headLocal == At(s.bits, h.seenTail) && s.tailLocal == At(s.bits, h.seenHead)
    && h.seenHead <= h.heads <= h.seenTail <= t <= h.seenHead + n - 1
  }

  /** A producer about to construct keeps one slot in reserve. */
  ghost predicate ProducerRoom<V>(s: State<V>) {
    var t, n := |s.hist.pushed|, Pow2(s.bits);
    && (s.prod.LoadHead? ==> t + 1 == s.hist.seenHead + n)
    && (s.prod.Construct? || s.prod.PublishTail? ==> t + 1 < s.hist.seenHead + n)
  }

  /** The head runs at most one ahead of what is returned; what is returned is what was pushed. */
  ghost predicate ConsumerPlace<V>(s: State<V>) {
    var h := s.hist;
    var d := |h.returned|;
    && d <= |h.pushed| && h.returned == h.pushed[..d]
    && h.heads == d + (if s.cons.MoveOut? || s.cons.Destroy? then 1 else 0)
    && (s.cons.MoveOut? || s.cons.Destroy? ==> s.cons.at == At(s.bits, d))
    && (s.cons.Destroy? ==> d < |h.pushed| && s.cons.v == h.pushed[d])
    && (s.cons.LoadTail? ==> h.heads == h.seenTail)
    && (s.cons.PublishHead? ==> h.heads < h.seenTail)
  }

  ghost predicate Matches<V>(s: State<V>) {
    var h := s.hist;
    h.heads <= |h.pushed| && Replay(h.log, Pow2(s.bits) - 1) == Some(Fifo(h.pushed[h.heads..], h.pushed[..h.heads]))
  }

  ghost predicate Inv<V>(s: State<V>) {
    && s.Shaped() && Indices(s) && ProducerRoom(s) && ConsumerPlace(s) && Matches(s)
    && Live(s.slots, s.bits, |s.hist.returned|, Stored(s))
  }

  lemma InitInv<V>(bits: nat)
    ensures Inv(Init<V>(bits))
  {
    NothingLive(Init<V>(bits).slots, bits);
  }

  lemma ProducerIndices<V>(s: State<V>, v: V)
    requires s.Shaped() && Indices(s) && ProducerRoom(s) && ConsumerPlace(s)
    ensures var s' := ProducerStep(s, v); s'.Shaped() && Indices(s') && ProducerRoom(s') && ConsumerPlace(s')
  {
    hide At, Next, Pow2;
    var t := |s.hist.pushed|;
    NextIsSuccessor(s.bits, t);
    SameIndex(s.bits, s.hist.seenHead, t + 1);
    SameIndex(s.bits, s.hist.heads, t + 1);
  }

  lemma ProducerMatches<V>(s: State<V>, v: V)
    requires s.Shaped() && Indices(s) && ProducerRoom(s) && Matches(s)
    ensures Matches(ProducerStep(s, v))
  {
    hide Replay, At, Next, Pow2;
    var h, n := s.hist, Pow2(s.bits);
    var t, q := |h.pushed|, Fifo(h.pushed[h.heads..], h.pushed[..h.heads]);
    if s.prod.LoadHead? {
      NextIsSuccessor(s.bits, t);
      SameIndex(s.bits, h.heads, t + 1);
      ReplayOneMore(h.log, Full, n - 1, q);
      assert h.log + [] == h.log;
    } else if s.prod.PublishTail? {
      ReplayOneMore(h.log, Accepted(s.prod.v), n - 1, q);
      assert (h.pushed + [s.prod.v])[h.heads..] == q.queue + [s.prod.v];
      assert (h.pushed + [s.prod.v])[..h.heads] == q.taken;
    }
  }

  lemma ProducerLive<V>(s: State<V>, v: V)
    requires s.Shaped() && Indices(s) && ProducerRoom(s) && ConsumerPlace(s)
    requires Live(s.slots, s.bits, |s.hist.returned|, Stored(s))
    ensures var s' := ProducerStep(s, v); Live(s'.slots, s'.bits, |s'.hist.returned|, Stored(s'))
  {
    hide At, Next, Pow2;
    if s.prod.Construct? {
      assert Stored(s) == s.hist.pushed;
      ConstructLive(s.slots, s.bits, |s.hist.returned|, s.hist.pushed, s.prod.v);
    } else {
      assert Stored(ProducerStep(s, v)) == Stored(s);
    }
  }

  lemma ProducerKeeps<V>(s: State<V>, v: V)
    requires Inv(s)
    ensures Inv(ProducerStep(s, v))
  {
    hide Live, Matches, Indices, ProducerRoom, ConsumerPlace, Pow2;
    ProducerIndices(s, v);
    ProducerMatches(s, v);
    ProducerLive(s, v);
  }

  lemma ConsumerIndices<V>(s: State<V>)
    requires s.Shaped() && Indices(s) && ProducerRoom(s) && ConsumerPlace(s)
    requires s.cons.MoveOut? && s.slots[s.cons.at].Item? ==> s.slots[s.cons.at].value == s.hist.pushed[|s.hist.returned|]
    ensures var s' := ConsumerStep(s); s'.Shaped() && Indices(s') && ProducerRoom(s') && ConsumerPlace(s')
  {
    hide At, Next, Pow2;
    NextIsSuccessor(s.bits, s.hist.heads);
    SameIndex(s.bits, s.hist.heads, s.hist.seenTail);
    SameIndex(s.bits, s.hist.heads, |s.hist.pushed|);
  }

  lemma ConsumerMatches<V>(s: State<V>)
    requires s.Shaped() && Indices(s) && ConsumerPlace(s) && Matches(s)
    ensures Matches(ConsumerStep(s))
  {
    hide Replay, At, Next, Pow2;
    var h, n := s.hist, Pow2(s.bits);
    var q := Fifo(h.pushed[h.heads..], h.pushed[..h.heads]);
    if s.cons.LoadTail? {
      SameIndex(s.bits, h.heads, |h.pushed|);
      ReplayOneMore(h.log, Empty, n - 1, q);
      assert h.log + [] == h.log;
    } else if s.cons.PublishHead? {
      ReplayOneMore(h.log, Taken, n - 1, q);
      assert h.pushed[..h.heads + 1] == q.taken + [q.queue[0]];
      assert h.pushed[h.heads + 1..] == q.queue[1..];
    }
  }

  lemma ConsumerLive<V>(s: State<V>)
    requires s.Shaped() && Indices(s) && ConsumerPlace(s)
    requires Live(s.slots, s.bits, |s.hist.returned|, Stored(s))
    ensures var s' := ConsumerStep(s); Live(s'.slots, s'.bits, |s'.hist.returned|, Stored(s'))
    ensures s.cons.MoveOut? ==> s.slots[s.cons.at] == Item(s.hist.pushed[|s.hist.returned|])
  {
    hide At, Next, Pow2;
    if s.cons.MoveOut? || s.cons.Destroy? {
      DestroyLive(s.slots, s.bits, |s.hist.returned|, Stored(s));
    }
    assert Stored(ConsumerStep(s)) == Stored(s);
  }

  lemma ConsumerKeeps<V>(s: State<V>)
    requires Inv(s)
    ensures Inv(ConsumerStep(s))
  {
    hide Live, Matches, Indices, ProducerRoom, ConsumerPlace, Pow2;
    ConsumerLive(s);
    ConsumerIndices(s);
    ConsumerMatches(s);
  }

  // ---- What every run keeps ----

  /** The state these turns lead to. */
  function From<V>(s: State<V>, turns: seq<Turn<V>>): (e: State<V>)
    requires s.Shaped()
    ensures e.Shaped() && e.bits == s.bits
    decreases turns
  {
    if turns == [] then s else From(Step(s, turns[0]), turns[1..])
  }

  function Run<V>(bits: nat, turns: seq<Turn<V>>): (s: State<V>)
    ensures s.Shaped() && s.bits == bits
  {
    From(Init(bits), turns)
  }

  lemma {:induction false} FromKeeps<V>(s: State<V>, turns: seq<Turn<V>>)
    requires s.Shaped() && Inv(s)
    ensures Inv(From(s, turns))
    decreases turns
  {
    if turns != [] {
      hide Inv, ProducerStep, ConsumerStep;
      match turns[0] {
        case Produce(v) => ProducerKeeps(s, v);
        case Consume => ConsumerKeeps(s);
      }
      FromKeeps(Step(s, turns[0]), turns[1..]);
    }
  }

  lemma RunKeeps<V>(bits: nat, turns: seq<Turn<V>>)
    ensures Inv(Run(bits, turns))
  {
    hide Inv, From;
    InitInv<V>(bits);
    FromKeeps(Init<V>(bits), turns);
  }

  /**
   * In every interleaving what was observed is a history of a bounded queue that
   * holds one item less than there are slots; what `pop` has returned are the
   * values pushed, in order, without the one it may be moving.
   */
  lemma EveryRunIsAQueue<V>(bits: nat, turns: seq<Turn<V>>)
    ensures var s := Run(bits, turns);
            && Replay(s.hist.log, Pow2(bits) - 1).Some?
            && var q := Replay(s.hist.log, Pow2(bits) - 1).value;
               && q.taken + q.queue == s.hist.pushed
               && s.hist.returned <= q.taken && |q.taken| <= |s.hist.returned| + 1
               && |q.queue| <= Pow2(bits) - 1
  {
    RunKeeps(bits, turns);
    hide Live, Replay, Pow2, At, Run;
    var s := Run(bits, turns);
    TakeDrop(s.hist.pushed, s.hist.heads);
  }

  /**
   * Memory is used well in every interleaving: construction is in raw memory,
   * moving and destruction are of an item, and never both in one slot.
   */
  lemma SlotsAreSafe<V>(bits: nat, turns: seq<Turn<V>>)
    ensures var s := Run(bits, turns);
            && (s.prod.Construct? ==> s.slots[s.tail] == Raw)
            && (s.cons.MoveOut? ==> s.slots[s.cons.at].Item?)
            && (s.cons.Destroy? ==> s.slots[s.cons.at] == Item(s.cons.v))
            && (s.prod.Construct? && (s.cons.MoveOut? || s.cons.Destroy?) ==> s.tail != s.cons.at)
  {
    RunKeeps(bits, turns);
    hide Matches, Pow2, At, Run, Next;
    var s := Run(bits, turns);
    if s.prod.Construct? {
      ConstructLive(s.slots, s.bits, |s.hist.returned|, s.hist.pushed, s.prod.v);
    }
    if s.cons.MoveOut? || s.cons.Destroy? {
      DestroyLive(s.slots, s.bits, |s.hist.returned|, Stored(s));
    }
  }

  /** `push` fails when, and only when, the queue is full as it loads the head. */
  lemma PushFailsWhenFull<V>(bits: nat, turns: seq<Turn<V>>, v: V)
    requires Run(bits, turns).prod.LoadHead?
    ensures var s := Run(bits, turns);
            ProducerStep(s, v).prod.PIdle? <==> |s.hist.pushed| - s.hist.heads == Pow2(bits) - 1
  {
    RunKeeps(bits, turns);
    hide Live, Matches, Pow2, At, Run, Next;
    var s := Run(bits, turns);
    NextIsSuccessor(bits, |s.hist.pushed|);
    SameIndex(bits, s.hist.heads, |s.hist.pushed| + 1);
  }

  /** `pop` fails when, and only when, the queue is empty as it loads the tail. */
  lemma PopFailsWhenEmpty<V>(bits: nat, turns: seq<Turn<V>>)
    requires Run(bits, turns).cons.LoadTail?
    ensures var s := Run(bits, turns);
            ConsumerStep(s).cons.CIdle? <==> s.hist.heads == |s.hist.pushed|
  {
    RunKeeps(bits, turns);
    hide Live, Matches, Pow2, At, Run, Next;
    var s := Run(bits, turns);
    SameIndex(bits, s.hist.heads, |s.hist.pushed|);
  }

  // ---- Every call ends ----

  /** What the producer has observed. */
  function Pushes<V>(log: seq<Event<V>>): seq<Event<V>> {
    if log == [] then []
    else
      var e := log[|log| - 1];
      Pushes(log[..|log| - 1]) + if e.Accepted? || e.Full? then [e] else []
  }

  /** What the consumer has observed. */
  function Pops<V>(log: seq<Event<V>>): seq<Event<V>> {
    if log == [] then []
    else
      var e := log[|log| - 1];
      Pops(log[..|log| - 1]) + if e.Taken? || e.Empty? then [e] else []
  }

  lemma OneMore<V>(log: seq<Event<V>>, e: Event<V>)
    ensures Pushes(log + [e]) == Pushes(log) + if e.Accepted? || e.Full? then [e] else []
    ensures Pops(log + [e]) == Pops(log) + if e.Taken? || e.Empty? then [e] else []
    ensures log + [] == log
  {
    assert (log + [e])[..|log|] == log;
  }

  /** How many turns of its own a call needs at most. */
  function TurnsToPush<V>(p: Producer<V>): nat {
    match p case PIdle => 4 case LoadHead(_) => 3 case Construct(_) => 2 case PublishTail(_) => 1
  }

  function TurnsToPop<V>(c: Consumer<V>): nat {
    match c case CIdle => 5 case LoadTail => 4 case PublishHead => 3 case MoveOut(_) => 2 case Destroy(_, _) => 1
  }

  /** The producer is in a push of `v`. */
  ghost predicate Pushing<V>(p: Producer<V>, v: V) {
    !p.PIdle? && p.v == v
  }

  lemma PushTurn<V>(s: State<V>, v: V, w: V)
    requires s.Shaped() && (s.prod.PIdle? ==> v == w) && (!s.prod.PIdle? ==> s.prod.v == v)
    ensures var s' := ProducerStep(s, w);
            && (if s'.prod.PIdle? then
                  !s.prod.PIdle?
                  && (Pushes(s'.hist.log) == Pushes(s.hist.log) + [Accepted(v)] || Pushes(s'.hist.log) == Pushes(s.hist.log) + [Full])
                else
                  s'.prod.v == v && TurnsToPush(s'.prod) < TurnsToPush(s.prod) && Pushes(s'.hist.log) == Pushes(s.hist.log))
            && Pops(s'.hist.log) == Pops(s.hist.log) && s'.hist.returned == s.hist.returned
            && s'.cons == s.cons
  {
    OneMore(s.hist.log, Full);
    OneMore(s.hist.log, Accepted(v));
    hide Pushes, Pops, Next, Pow2;
  }

  lemma PopTurn<V>(s: State<V>)
    requires Inv(s)
    ensures var s' := ConsumerStep(s);
            && (if s'.cons.CIdle? then
                  && !s.cons.CIdle?
                  && (if s.cons.LoadTail? then Pops(s'.hist.log) == Pops(s.hist.log) + [Empty] && s'.hist.returned == s.hist.returned
                      else Pops(s'.hist.log) == Pops(s.hist.log) && |s'.hist.returned| == |s.hist.returned| + 1)
                else
                  && TurnsToPop(s'.cons) < TurnsToPop(s.cons) && s'.hist.returned == s.hist.returned
                  && Pops(s'.hist.log) == Pops(s.hist.log) + if s.cons.PublishHead? then [Taken] else [])
            && (s'.cons.LoadTail? ==> s.cons.CIdle?) && (s'.cons.MoveOut? <==> s.cons.PublishHead?)
            && (s'.cons.Destroy? ==> s.cons.MoveOut?) && Pushes(s'.hist.log) == Pushes(s.hist.log)
            && s'.prod == s.prod
  {
    if s.cons.MoveOut? {
      DestroyLive(s.slots, s.bits, |s.hist.returned|, Stored(s));
    }
    OneMore(s.hist.log, Empty);
    OneMore(s.hist.log, Taken);
    hide Pushes, Pops, Next, Pow2, At, Live, Matches;
  }

  lemma ConsumerLeaves<V>(s: State<V>)
    requires s.Shaped()
    ensures var s' := ConsumerStep(s); s'.prod == s.prod && Pushes(s'.hist.log) == Pushes(s.hist.log)
  {
    OneMore(s.hist.log, Empty);
    OneMore(s.hist.log, Taken);
    hide Pushes, Next, Pow2;
  }

  lemma ProducerLeaves<V>(s: State<V>, v: V)
    requires s.Shaped()
    ensures var s' := ProducerStep(s, v);
            s'.cons == s.cons && Pops(s'.hist.log) == Pops(s.hist.log) && s'.hist.returned == s.hist.returned
  {
    PushTurn(s, if s.prod.PIdle? then v else s.prod.v, v);
    hide Pops, ProducerStep;
  }

  function Produced<V>(turns: seq<Turn<V>>): nat {
    if turns == [] then 0 else Produced(turns[1..]) + if turns[0].Produce? then 1 else 0
  }

  function Consumed<V>(turns: seq<Turn<V>>): nat {
    if turns == [] then 0 else Consumed(turns[1..]) + if turns[0].Consume? then 1 else 0
  }

  lemma FirstTurn<V>(s: State<V>, turns: seq<Turn<V>>, k: nat)
    requires s.Shaped() && turns != [] && k <= |turns[1..]|
    ensures From(s, turns[..k + 1]) == From(Step(s, turns[0]), turns[1..][..k])
  {
    hide Step;
    assert turns[..k + 1][1..] == turns[1..][..k];
  }

  /** One value was pushed, or the queue was full. */
  ghost predicate Pushed<V>(s: State<V>, e: State<V>, v: V) {
    && e.prod.PIdle?
    && (Pushes(e.hist.log) == Pushes(s.hist.log) + [Accepted(v)] || Pushes(e.hist.log) == Pushes(s.hist.log) + [Full])
  }

  lemma NoTurns<V>(s: State<V>)
    requires s.Shaped()
    ensures From(s, []) == s
  {}

  lemma {:induction false} PushGoesOn<V>(s: State<V>, turns: seq<Turn<V>>, v: V) returns (k: nat)
    requires s.Shaped() && Pushing(s.prod, v) && Produced(turns) >= TurnsToPush(s.prod)
    ensures k <= |turns| && Pushed(s, From(s, turns[..k]), v)
    decreases turns
  {
    var s' := Step(s, turns[0]);
    match turns[0] {
      case Produce(w) => PushTurn(s, v, w);
      case Consume => ConsumerLeaves(s);
    }
    hide ProducerStep, ConsumerStep, From, Pushes, TurnsToPush;
    if s'.prod.PIdle? {
      k := 1;
      NoTurns(s');
      FirstTurn(s, turns, 0);
      assert turns[1..][..0] == [];
    } else {
      k := PushGoesOn(s', turns[1..], v);
      FirstTurn(s, turns, k);
      k := k + 1;
    }
  }

  /** Whatever the consumer does, a push is over after four turns of the producer, and has had one outcome. */
  lemma PushEnds<V>(s: State<V>, turns: seq<Turn<V>>, v: V) returns (k: nat)
    requires s.Shaped() && s.prod.PIdle? && turns != [] && turns[0] == Produce(v) && Produced(turns) >= 4
    ensures k <= |turns|
    ensures var e := From(s, turns[..k]);
            && e.prod.PIdle?
            && (Pushes(e.hist.log) == Pushes(s.hist.log) + [Accepted(v)] || Pushes(e.hist.log) == Pushes(s.hist.log) + [Full])
  {
    PushTurn(s, v, v);
    hide ProducerStep, From, Pushes;
    k := PushGoesOn(Step(s, turns[0]), turns[1..], v);
    FirstTurn(s, turns, k);
    k := k + 1;
  }

  /** One value was returned, or the queue was empty; `claimed` says that the value has been taken before. */
  ghost predicate Popped<V>(s: State<V>, e: State<V>, claimed: bool) {
    && e.cons.CIdle?
    && if claimed then Pops(e.hist.log) == Pops(s.hist.log) && |e.hist.returned| == |s.hist.returned| + 1
       else
         || (Pops(e.hist.log) == Pops(s.hist.log) + [Taken] && |e.hist.returned| == |s.hist.returned| + 1)
         || (Pops(e.hist.log) == Pops(s.hist.log) + [Empty] && e.hist.returned == s.hist.returned)
  }

  predicate Claimed<V>(c: Consumer<V>) {
    c.MoveOut? || c.Destroy?
  }

  lemma PoppedStep<V>(s: State<V>, t: Turn<V>)
    requires Inv(s) && !s.cons.CIdle?
    ensures var s' := Step(s, t);
            && Inv(s')
            && (if s'.cons.CIdle? then t.Consume? && Popped(s, s', Claimed(s.cons))
                else
                  && TurnsToPop(s'.cons) <= TurnsToPop(s.cons) - (if t.Consume? then 1 else 0)
                  && forall e :: Popped(s', e, Claimed(s'.cons)) ==> Popped(s, e, Claimed(s.cons)))
  {
    match t
    case Produce(v) =>
      ProducerKeeps(s, v);
      ProducerLeaves(s, v);
      hide Inv, ProducerStep, Pops;
    case Consume =>
      ConsumerKeeps(s);
      PopTurn(s);
      hide Inv, ConsumerStep, Pops;
  }

  lemma {:induction false} PopGoesOn<V>(s: State<V>, turns: seq<Turn<V>>) returns (k: nat)
    requires Inv(s) && !s.cons.CIdle? && Consumed(turns) >= TurnsToPop(s.cons)
    ensures k <= |turns| && Popped(s, From(s, turns[..k]), Claimed(s.cons))
    decreases turns
  {
    var s' := Step(s, turns[0]);
    PoppedStep(s, turns[0]);
    hide Inv, Step, From, Popped, Claimed, TurnsToPop;
    if s'.cons.CIdle? {
      k := 1;
      NoTurns(s');
      FirstTurn(s, turns, 0);
      assert turns[1..][..0] == [];
      return;
    }
    k := PopGoesOn(s', turns[1..]);
    FirstTurn(s, turns, k);
    k := k + 1;
  }

  /** Whatever the producer does, a pop is over after five turns of the consumer, and has had one outcome. */
  lemma PopEnds<V>(bits: nat, before: seq<Turn<V>>, turns: seq<Turn<V>>) returns (k: nat)
    requires Run(bits, before).cons.CIdle? && turns != [] && turns[0].Consume? && Consumed(turns) >= 5
    ensures k <= |turns|
    ensures var s := Run(bits, before);
            var e := From(s, turns[..k]);
            && e.cons.CIdle?
            && ((Pops(e.hist.log) == Pops(s.hist.log) + [Taken] && |e.hist.returned| == |s.hist.returned| + 1)
                || (Pops(e.hist.log) == Pops(s.hist.log) + [Empty] && e.hist.returned == s.hist.returned))
  {
    RunKeeps(bits, before);
    var s := Run(bits, before);
    PopTurn(s);
    ConsumerKeeps(s);
    hide Inv, ConsumerStep, From, Pops, Run;
    k := PopGoesOn(Step(s, turns[0]), turns[1..]);
    FirstTurn(s, turns, k);
    k := k + 1;
  }
}
