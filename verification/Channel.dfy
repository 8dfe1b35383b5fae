/**
 * `SPSCChannel`: the same ring under a coroutine channel. The consumer awaits an
 * item; to suspend it registers a callback and looks again. The producer, which
 * also closes the channel, publishes first and then takes the callback. Every
 * load, store and exchange is one step.
 */
module Channel {
  import opened Bits
  import opened Ring
  import opened Basics

  /** Where the producer is in `push` or `close`; the last three steps are the same for both. */
  datatype Producer<+V> =
    | PIdle
    | LoadClosed(v: V) | Check(v: V) | LoadHead(v: V) | Construct(v: V) | PublishTail(v: V)
    | StoreClosed
    | Exchange(closing: bool) | Refresh(closing: bool) | Wake(closing: bool)

  /**
   * Where the consumer is in `co_await`. `Failed` is the assertion in `await_resume`
   * failing; where assertions are compiled out the consumer gets `nullopt` and goes on.
   */
  datatype Consumer<+V> =
    | CIdle
    | ReadyTail | ReadyClosed
    | SuspendStore | SuspendTail | SuspendClosed(tail: nat) | SuspendExchange(tail: nat)
    | Suspended
    | ResumeLoad | ResumeMove | ResumeDestroy(v: V) | ResumePublish(v: V) | ResumeClosed
    | Failed

  /** Who obtained a registered callback. */
  datatype Owner = InSlot | ByPush | ByClose | ByAwait

  /**
   * History, not part of the program: what was pushed and returned, positions
   * without wrap-around, who obtained each callback, for each `nullopt` whether
   * nothing was left, how often a push took a callback with the ring empty, and how
   * often the assertion in `await_resume` failed.
   */
  datatype History<+V> = History(
    pushed: seq<V>, returned: seq<V>,
    seenHead: nat, seenTail: nat, rechecked: nat,
    owners: seq<Owner>, ends: seq<bool>, stales: nat, failures: nat)

  datatype State<+V> = State(
    bits: nat,
    slots: seq<Slot<V>>,
    head: nat, headLocal: nat,
    tail: nat, tailLocal: nat,
    callback: Option<nat>, closed: bool, wake: bool,
    prod: Producer<V>, cons: Consumer<V>,
    hist: History<V>)
  {
    predicate Shaped() {
      && |slots| == Pow2(bits) && head < |slots| && tail < |slots|
      && (callback.Some? ==> callback.value < |hist.owners|)
    }
  }

  function Init<V>(bits: nat): (s: State<V>)
    ensures s.Shaped() && s.bits == bits
  {
    State(bits, seq(Pow2(bits), _ => Raw), 0, 0, 0, 0, None, false, false, PIdle, CIdle,
          History([], [], 0, 0, 0, [], [], 0, 0))
  }

  // ---- Steps ----

  datatype Op<+V> = Push(v: V) | Close

  /** Take the callback out of the slot. */
  function Obtain<V>(s: State<V>, owner: Owner): State<V>
    requires s.Shaped() && s.callback.Some?
  {
    s.(callback := None, hist := s.hist.(owners := s.hist.owners[s.callback.value := owner]))
  }

  /** One step of the producer; `op` is what it begins when it is idle. */
  function ProducerStep<V>(s: State<V>, op: Op<V>): (s': State<V>)
    requires s.Shaped()
    ensures s'.Shaped() && s'.bits == s.bits && s.hist.stales <= s'.hist.stales
  {
    var next := Next(s.bits, s.tail);
    match s.prod
    case PIdle =>
      (match op
       case Push(v) => s.(prod := LoadClosed(v))
       case Close => s.(prod := StoreClosed))
    case LoadClosed(v) =>
      s.(prod := if s.closed then PIdle else Check(v))
    case Check(v) =>
      s.(prod := if next != s.tailLocal then Construct(v) else LoadHead(v))
    case LoadHead(v) =>
      s.(tailLocal := s.head, prod := if next != s.head then Construct(v) else PIdle,
         hist := s.hist.(seenHead := |s.hist.returned|))
    case Construct(v) =>
      s.(slots := s.slots[s.tail := Item(v)], prod := PublishTail(v))
    case PublishTail(v) =>
      s.(tail := next, prod := Exchange(false), hist := s.hist.(pushed := s.hist.pushed + [v]))
    case StoreClosed =>
      s.(closed := true, prod := Exchange(true))
    case Exchange(closing) =>
      if s.callback.None? then s.(prod := PIdle)
      else
        var o := Obtain(s, if closing then ByClose else ByPush);
        o.(prod := Refresh(closing),
           hist := o.hist.(stales := o.hist.stales + if !closing && s.head == s.tail then 1 else 0))
    case Refresh(closing) =>
      s.(headLocal := s.tail, prod := Wake(closing), hist := s.hist.(seenTail := |s.hist.pushed|))
    case Wake(closing) =>
      s.(wake := true, prod := PIdle)
  }

  /** One step of the consumer. A suspended consumer goes on once it is woken. */
  function ConsumerStep<V>(s: State<V>): (s': State<V>)
    requires s.Shaped()
    ensures s'.Shaped() && s'.bits == s.bits && s.hist.stales == s'.hist.stales
  {
    match s.cons
    case CIdle =>
      s.(cons := if s.head == s.headLocal then ReadyTail else ResumeLoad)
    case ReadyTail =>
      s.(headLocal := s.tail, cons := if s.head == s.tail then ReadyClosed else ResumeLoad,
         hist := s.hist.(seenTail := |s.hist.pushed|))
    case ReadyClosed =>
      s.(cons := if s.closed then ResumeLoad else SuspendStore)
    case SuspendStore =>
      s.(callback := Some(|s.hist.owners|), cons := SuspendTail, hist := s.hist.(owners := s.hist.owners + [InSlot]))
    case SuspendTail =>
      s.(cons := if s.head != s.tail then SuspendExchange(s.tail) else SuspendClosed(s.tail),
         hist := s.hist.(rechecked := |s.hist.pushed|))
    case SuspendClosed(tail) =>
      s.(cons := if s.closed then SuspendExchange(tail) else Suspended)
    case SuspendExchange(tail) =>
      if s.callback.None? then s.(cons := Suspended)
      else
        var o := Obtain(s, ByAwait);
        o.(headLocal := tail, cons := ResumeLoad, hist := o.hist.(seenTail := o.hist.rechecked))
    case Suspended =>
      if s.wake then s.(wake := false, cons := ResumeLoad) else s
    case ResumeLoad =>
      s.(cons := if s.head != s.tail then ResumeMove else ResumeClosed)
    case ResumeMove =>
      if s.slots[s.head].Item? then s.(cons := ResumeDestroy(s.slots[s.head].value)) else s
    case ResumeDestroy(v) =>
      s.(slots := s.slots[s.head := Raw], cons := ResumePublish(v))
    case ResumePublish(v) =>
      s.(head := Next(s.bits, s.head), cons := CIdle, hist := s.hist.(returned := s.hist.returned + [v]))
    case ResumeClosed =>
      if s.closed then
        s.(cons := CIdle, hist := s.hist.(ends := s.hist.ends + [|s.hist.returned| == |s.hist.pushed|]))
      else s.(cons := Failed, hist := s.hist.(failures := s.hist.failures + 1))
    case Failed => s.(cons := CIdle)
  }

  /** Whose turn it is. */
  datatype Turn<+V> = Produce(op: Op<V>) | Consume

  function Step<V>(s: State<V>, t: Turn<V>): (s': State<V>)
    requires s.Shaped()
    ensures s'.Shaped() && s'.bits == s.bits && s.hist.stales <= s'.hist.stales
  {
    match t
    case Produce(op) => ProducerStep(s, op)
    case Consume => ConsumerStep(s)
  }

  // ---- The invariant: the ring ----

  function Stored<V>(s: State<V>): seq<V> {
    s.hist.pushed + if s.prod.PublishTail? then [s.prod.v] else []
  }

  /** How many items have been destroyed: one more than returned before the head is published. */
  function Destroyed<V>(s: State<V>): nat {
    |s.hist.returned| + if s.cons.ResumePublish? then 1 else 0
  }

  ghost predicate Indices<V>(s: State<V>) {
    var h, t, n := |s.hist.returned|, |s.hist.pushed|, Pow2(s.bits);
    && s.head == At(s.bits, h) && s.tail == At(s.bits, t) && s.tailLocal == At(s.bits, s.hist.seenHead)
    && s.hist.seenHead <= h <= t <= s.hist.seenHead + n - 1
  }

  /** A producer about to construct keeps one slot in reserve; while it pushes, the channel is open. */
  ghost predicate ProducerPlace<V>(s: State<V>) {
    var t, n := |s.hist.pushed|, Pow2(s.bits);
    && (s.prod.LoadHead? ==> t + 1 == s.hist.seenHead + n)
    && (s.prod.Construct? || s.prod.PublishTail? ==> t + 1 < s.hist.seenHead + n)
    && (s.prod.Check? || s.prod.LoadHead? || s.prod.Construct? || s.prod.PublishTail? ==> !s.closed)
    && (s.prod.Exchange? || s.prod.Refresh? || s.prod.Wake? ==> s.prod.closing == s.closed)
    && (s.prod.Exchange? && !s.prod.closing ==> n > 1)
  }

  /** A consumer taking an item has one to take; what it has returned is what was pushed. */
  ghost predicate ConsumerPlace<V>(s: State<V>) {
    var h, t := |s.hist.returned|, |s.hist.pushed|;
    && h <= t && s.hist.returned == s.hist.pushed[..h]
    && (s.cons.ResumeMove? ==> h < t)
    && (s.cons.ResumeDestroy? || s.cons.ResumePublish? ==> h < t && s.cons.v == s.hist.pushed[h])
  }

  ghost predicate RingInv<V>(s: State<V>) {
    && s.Shaped() && Indices(s) && ProducerPlace(s) && ConsumerPlace(s)
    && Live(s.slots, s.bits, Destroyed(s), Stored(s))
  }

  // ---- The invariant: the callback ----

  /** Between registering a callback and resuming. */
  predicate Registered<V>(c: Consumer<V>) {
    c.SuspendTail? || c.SuspendClosed? || c.SuspendExchange? || c.Suspended?
  }

  predicate Signalling<V>(p: Producer<V>) {
    p.Refresh? || p.Wake?
  }

  /** The wake-up of a registered consumer is in exactly one place; nobody else has one. */
  ghost predicate OneWakeup<V>(s: State<V>) {
    && (s.callback.Some? ==> Registered(s.cons) && !Signalling(s.prod) && !s.wake)
    && (Signalling(s.prod) ==> Registered(s.cons) && !s.wake)
    && (s.wake ==> Registered(s.cons))
    && (Registered(s.cons) ==> s.callback.Some? || Signalling(s.prod) || s.wake)
  }

  /** The callback in the slot is the last one, every other one was obtained; `nullopt` is for a closed channel. */
  ghost predicate Ownership<V>(s: State<V>) {
    && (s.callback.Some? ==> s.callback.value == |s.hist.owners| - 1)
    && (s.hist.ends != [] ==> s.closed)
    && (s.cons.Failed? ==> s.hist.failures > 0)
    && (Signalling(s.prod) ==>
          s.hist.owners != [] && s.hist.owners[|s.hist.owners| - 1] == if s.prod.closing then ByClose else ByPush)
    && forall i :: 0 <= i < |s.hist.owners| ==> (s.hist.owners[i].InSlot? <==> s.callback == Some(i))
  }

  /** Either the consumer sees what was published, or the producer is yet to look for the callback. */
  ghost predicate Dekker<V>(s: State<V>) {
    s.callback.Some? && !s.prod.Exchange? ==>
      && (s.cons.SuspendClosed? || s.cons.Suspended? ==> |s.hist.returned| == |s.hist.pushed|)
      && (s.cons.Suspended? ==> !s.closed)
  }

  // ---- The invariant: nothing spurious, as long as no push took a callback with the ring empty ----

  ghost predicate Honest<V>(s: State<V>) {
    var h, t, seen := |s.hist.returned|, |s.hist.pushed|, s.hist.seenTail;
    && s.headLocal == At(s.bits, seen)
    && (!s.closed ==> h <= seen <= t)
    && (!s.closed && (s.cons.ResumeLoad? || s.cons.ResumeMove? || s.cons.ResumeDestroy? || s.cons.ResumePublish?) ==> h < seen)
    && (!s.closed && (s.wake || s.prod.Wake?) ==> h < seen)
    && (!s.closed && s.prod.Refresh? ==> h < t)
    && (s.cons.SuspendClosed? || s.cons.SuspendExchange? ==>
          s.cons.tail == At(s.bits, s.hist.rechecked) && h <= s.hist.rechecked <= t)
    && (s.cons.SuspendExchange? && !s.closed ==> h < s.hist.rechecked)
    && (s.cons.ResumeClosed? ==> s.closed && h == t)
    && !s.cons.Failed? && s.hist.failures == 0
    && forall i :: 0 <= i < |s.hist.ends| ==> s.hist.ends[i]
  }

  ghost predicate Inv<V>(s: State<V>) {
    && RingInv(s) && OneWakeup(s) && Ownership(s) && Dekker(s)
    && (s.hist.stales == 0 ==> Honest(s))
  }

  lemma InitInv<V>(bits: nat)
    ensures Inv(Init<V>(bits))
  {
    NothingLive(Init<V>(bits).slots, bits);
  }

  // ---- The producer keeps it ----

  /** What a step of the producer leaves of the ring. */
  lemma ProducerFrame<V>(s: State<V>, op: Op<V>)
    requires s.Shaped()
    ensures var s', publishes := ProducerStep(s, op), s.prod.PublishTail?;
            && s'.bits == s.bits && s'.cons == s.cons && s'.head == s.head && s'.hist.returned == s.hist.returned
            && s'.tail == (if publishes then Next(s.bits, s.tail) else s.tail)
            && s'.hist.pushed == s.hist.pushed + (if publishes then [s.prod.v] else [])
            && s'.tailLocal == (if s.prod.LoadHead? then s.head else s.tailLocal)
            && s'.hist.seenHead == (if s.prod.LoadHead? then |s.hist.returned| else s.hist.seenHead)
            && s'.slots == (if s.prod.Construct? then s.slots[s.tail := Item(s.prod.v)] else s.slots)
            && (s'.callback.Some? ==> s'.callback.value < |s'.hist.owners|)
            && (s'.prod.PublishTail? <==> s.prod.Construct?)
            && (s'.prod.PublishTail? ==> s'.prod.v == s.prod.v)
  {
    hide Next, Pow2;
    match s.prod
    case PIdle =>
    case LoadClosed(_) =>
    case Check(_) =>
    case LoadHead(_) =>
    case Construct(_) =>
    case PublishTail(_) =>
    case StoreClosed =>
    case Exchange(_) =>
    case Refresh(_) =>
    case Wake(_) =>
  }

  lemma ProducerPlaced<V>(s: State<V>, op: Op<V>)
    requires s.Shaped() && Indices(s) && ProducerPlace(s)
    ensures ProducerPlace(ProducerStep(s, op))
  {
    hide At, Next, Pow2;
    var h, t := |s.hist.returned|, |s.hist.pushed|;
    if s.prod.Check? || s.prod.LoadHead? {
      NextIsSuccessor(s.bits, t);
      SameIndex(s.bits, s.hist.seenHead, t + 1);
      SameIndex(s.bits, h, t + 1);
    }
  }

  lemma ProducerIndices<V>(s: State<V>, op: Op<V>)
    requires s.Shaped() && Indices(s) && ProducerPlace(s) && ConsumerPlace(s)
    ensures var s' := ProducerStep(s, op); s'.Shaped() && Indices(s') && ConsumerPlace(s')
  {
    hide At, Next, Pow2, ProducerStep;
    ProducerFrame(s, op);
    NextIsSuccessor(s.bits, |s.hist.pushed|);
    var h := |s.hist.returned|;
    assert ProducerStep(s, op).hist.pushed[..h] == s.hist.pushed[..h];
  }

  lemma ProducerLive<V>(s: State<V>, op: Op<V>)
    requires RingInv(s)
    ensures var s' := ProducerStep(s, op); Live(s'.slots, s'.bits, Destroyed(s'), Stored(s'))
  {
    hide At, Next, Pow2, Live, ProducerStep;
    ProducerFrame(s, op);
    if s.prod.Construct? {
      assert Stored(s) == s.hist.pushed;
      LiveFits(s.slots, s.bits, Destroyed(s), Stored(s));
      ConstructLive(s.slots, s.bits, Destroyed(s), s.hist.pushed, s.prod.v);
    } else {
      assert Stored(ProducerStep(s, op)) == Stored(s);
    }
  }

  lemma ProducerOwnership<V>(s: State<V>, op: Op<V>)
    requires s.Shaped() && OneWakeup(s) && Ownership(s)
    ensures Ownership(ProducerStep(s, op))
  {
    hide At, Next, Pow2;
    match s.prod
    case PIdle =>
    case LoadClosed(_) =>
    case Check(_) =>
    case LoadHead(_) =>
    case Construct(_) =>
    case PublishTail(_) =>
    case StoreClosed =>
    case Exchange(_) =>
    case Refresh(_) =>
    case Wake(_) =>
  }

  lemma ProducerWakeup<V>(s: State<V>, op: Op<V>)
    requires s.Shaped() && OneWakeup(s) && Ownership(s) && Dekker(s) && ProducerPlace(s)
    ensures var s' := ProducerStep(s, op); s'.Shaped() ==> OneWakeup(s') && Dekker(s')
  {
    hide At, Next, Pow2;
  }

  lemma ProducerHonest<V>(s: State<V>, op: Op<V>)
    requires RingInv(s) && OneWakeup(s) && Honest(s)
    ensures var s' := ProducerStep(s, op); s'.hist.stales == s.hist.stales ==> Honest(s')
  {
    hide At, Next, Pow2, Live;
    if s.prod.Exchange? {
      SameIndex(s.bits, |s.hist.returned|, |s.hist.pushed|);
    }
    hide Indices, Stored;
    match s.prod
    case PIdle =>
    case LoadClosed(_) =>
    case Check(_) =>
    case LoadHead(_) =>
    case Construct(_) =>
    case PublishTail(_) =>
    case StoreClosed =>
    case Exchange(_) =>
    case Refresh(_) =>
    case Wake(_) =>
  }

  lemma ProducerKeeps<V>(s: State<V>, op: Op<V>)
    requires Inv(s)
    ensures Inv(ProducerStep(s, op))
  {
    hide Live, Indices, ProducerPlace, ConsumerPlace, OneWakeup, Ownership, Dekker, Honest, Pow2;
    ProducerIndices(s, op);
    ProducerPlaced(s, op);
    ProducerLive(s, op);
    ProducerOwnership(s, op);
    ProducerWakeup(s, op);
    if s.hist.stales == 0 {
      ProducerHonest(s, op);
    }
  }

  // ---- The consumer keeps it ----

  lemma ConsumerLeaves<V>(s: State<V>)
    requires s.Shaped()
    ensures var s', publishes := ConsumerStep(s), s.cons.ResumePublish?;
            && s'.bits == s.bits && s'.prod == s.prod && s'.closed == s.closed
            && s'.tail == s.tail && s'.tailLocal == s.tailLocal
            && s'.hist.pushed == s.hist.pushed && s'.hist.seenHead == s.hist.seenHead
            && s'.head == (if publishes then Next(s.bits, s.head) else s.head)
            && s'.hist.returned == s.hist.returned + (if publishes then [s.cons.v] else [])
            && s'.slots == (if s.cons.ResumeDestroy? then s.slots[s.head := Raw] else s.slots)
  {
    hide Next, Pow2;
    match s.cons
    case CIdle =>
    case ReadyTail =>
    case ReadyClosed =>
    case SuspendStore =>
    case SuspendTail =>
    case SuspendClosed(_) =>
    case SuspendExchange(_) =>
    case Suspended =>
    case ResumeLoad =>
    case ResumeMove =>
    case ResumeDestroy(_) =>
    case ResumePublish(_) =>
    case ResumeClosed =>
    case Failed =>
  }

  lemma ConsumerMoves<V>(s: State<V>)
    requires s.Shaped()
    ensures var s' := ConsumerStep(s);
            && (s'.callback.Some? ==> s'.callback.value < |s'.hist.owners|)
            && (s'.cons.ResumePublish? <==> s.cons.ResumeDestroy?)
            && (s'.cons.ResumePublish? ==> s'.cons.v == s.cons.v)
            && (s'.cons.ResumeMove? ==> s.cons.ResumeMove? || (s.cons.ResumeLoad? && s.head != s.tail))
            && (s'.cons.ResumeDestroy? ==> s.cons.ResumeMove? && s.slots[s.head] == Item(s'.cons.v))
  {
    hide Next, Pow2;
    match s.cons
    case CIdle =>
    case ReadyTail =>
    case ReadyClosed =>
    case SuspendStore =>
    case SuspendTail =>
    case SuspendClosed(_) =>
    case SuspendExchange(_) =>
    case Suspended =>
    case ResumeLoad =>
    case ResumeMove =>
    case ResumeDestroy(_) =>
    case ResumePublish(_) =>
    case ResumeClosed =>
    case Failed =>
  }

  /** What a step of the consumer leaves of the ring. */
  lemma ConsumerFrame<V>(s: State<V>)
    requires s.Shaped()
    ensures var s', publishes := ConsumerStep(s), s.cons.ResumePublish?;
            && s'.bits == s.bits && s'.prod == s.prod && s'.closed == s.closed
            && s'.tail == s.tail && s'.tailLocal == s.tailLocal
            && s'.hist.pushed == s.hist.pushed && s'.hist.seenHead == s.hist.seenHead
            && s'.head == (if publishes then Next(s.bits, s.head) else s.head)
            && s'.hist.returned == s.hist.returned + (if publishes then [s.cons.v] else [])
            && s'.slots == (if s.cons.ResumeDestroy? then s.slots[s.head := Raw] else s.slots)
    ensures var s' := ConsumerStep(s);
            && (s'.callback.Some? ==> s'.callback.value < |s'.hist.owners|)
            && (s'.cons.ResumePublish? <==> s.cons.ResumeDestroy?)
            && (s'.cons.ResumePublish? ==> s'.cons.v == s.cons.v)
            && (s'.cons.ResumeMove? ==> s.cons.ResumeMove? || (s.cons.ResumeLoad? && s.head != s.tail))
            && (s'.cons.ResumeDestroy? ==> s.cons.ResumeMove? && s.slots[s.head] == Item(s'.cons.v))
  {
    ConsumerLeaves(s);
    ConsumerMoves(s);
    hide ConsumerStep, Next, Pow2;
  }

  lemma ConsumerIndices<V>(s: State<V>)
    requires s.Shaped() && Indices(s) && ProducerPlace(s) && ConsumerPlace(s)
    ensures var s' := ConsumerStep(s); s'.Shaped() && Indices(s') && ProducerPlace(s')
  {
    hide At, Next, Pow2, ConsumerStep;
    ConsumerFrame(s);
    NextIsSuccessor(s.bits, |s.hist.returned|);
  }

  lemma ConsumerPlaced<V>(s: State<V>)
    requires RingInv(s)
    ensures ConsumerPlace(ConsumerStep(s))
  {
    hide At, Next, Pow2, Live, ProducerPlace, ConsumerStep;
    ConsumerFrame(s);
    if s.cons.ResumeMove? {
      DestroyLive(s.slots, s.bits, Destroyed(s), Stored(s));
    } else if s.cons.ResumeLoad? {
      SameIndex(s.bits, |s.hist.returned|, |s.hist.pushed|);
    } else if s.cons.ResumePublish? {
      var h := |s.hist.returned|;
      assert s.hist.pushed[..h + 1] == s.hist.pushed[..h] + [s.hist.pushed[h]];
    }
  }

  lemma ConsumerLive<V>(s: State<V>)
    requires RingInv(s)
    ensures var s' := ConsumerStep(s); Live(s'.slots, s'.bits, Destroyed(s'), Stored(s'))
  {
    hide At, Next, Pow2, Live, ProducerPlace, ConsumerStep;
    ConsumerFrame(s);
    if s.cons.ResumeDestroy? {
      DestroyLive(s.slots, s.bits, Destroyed(s), Stored(s));
    }
  }

  lemma ConsumerOwnership<V>(s: State<V>)
    requires s.Shaped() && OneWakeup(s) && Ownership(s)
    ensures Ownership(ConsumerStep(s))
  {
    hide At, Next, Pow2;
    match s.cons
    case CIdle =>
    case ReadyTail =>
    case ReadyClosed =>
    case SuspendStore =>
    case SuspendTail =>
    case SuspendClosed(_) =>
    case SuspendExchange(_) =>
    case Suspended =>
    case ResumeLoad =>
    case ResumeMove =>
    case ResumeDestroy(_) =>
    case ResumePublish(_) =>
    case ResumeClosed =>
    case Failed =>
  }

  lemma ConsumerWakeup<V>(s: State<V>)
    requires s.Shaped() && Indices(s) && OneWakeup(s) && Dekker(s)
    ensures var s' := ConsumerStep(s); OneWakeup(s') && Dekker(s')
  {
    SameIndex(s.bits, |s.hist.returned|, |s.hist.pushed|);
    assert s.head == s.tail ==> |s.hist.returned| == |s.hist.pushed|;
    hide At, Next, Pow2, Indices;
    match s.cons
    case CIdle =>
    case ReadyTail =>
    case ReadyClosed =>
    case SuspendStore =>
    case SuspendTail =>
    case SuspendClosed(_) =>
    case SuspendExchange(_) =>
    case Suspended =>
    case ResumeLoad =>
    case ResumeMove =>
    case ResumeDestroy(_) =>
    case ResumePublish(_) =>
    case ResumeClosed =>
    case Failed =>
  }

  lemma ConsumerHonest<V>(s: State<V>)
    requires RingInv(s) && OneWakeup(s) && Honest(s)
    ensures Honest(ConsumerStep(s))
  {
    hide At, Next, Pow2, Live;
    SameIndex(s.bits, |s.hist.returned|, |s.hist.pushed|);
    if !s.closed {
      SameIndex(s.bits, |s.hist.returned|, s.hist.seenTail);
    }
  }

  lemma ConsumerKeeps<V>(s: State<V>)
    requires Inv(s)
    ensures Inv(ConsumerStep(s))
  {
    hide Live, Indices, ProducerPlace, ConsumerPlace, OneWakeup, Ownership, Dekker, Honest, Pow2;
    ConsumerIndices(s);
    ConsumerPlaced(s);
    ConsumerLive(s);
    ConsumerOwnership(s);
    ConsumerWakeup(s);
    if s.hist.stales == 0 {
      ConsumerHonest(s);
    }
  }

  // ---- What every run keeps ----

  lemma StepKeeps<V>(s: State<V>, t: Turn<V>)
    requires Inv(s)
    ensures Inv(Step(s, t))
  {
    hide Inv, Next;
    match t
    case Produce(op) => ProducerKeeps(s, op);
    case Consume => ConsumerKeeps(s);
  }

  /** The state these turns lead to. */
  function From<V>(s: State<V>, turns: seq<Turn<V>>): (e: State<V>)
    requires s.Shaped()
    ensures e.Shaped() && e.bits == s.bits && s.hist.stales <= e.hist.stales
    decreases turns
  {
    if turns == [] then s else From(Step(s, turns[0]), turns[1..])
  }

  function Run<V>(bits: nat, turns: seq<Turn<V>>): (s: State<V>)
    ensures s.Shaped() && s.bits == bits
  {
    From(Init(bits), turns)
  }

  lemma {:induction false} FromKeeps<V>(s: State<V>, turns: seq<Turn<V>>)
    requires s.Shaped() && Inv(s)
    ensures Inv(From(s, turns))
    decreases turns
  {
    if turns != [] {
      hide Inv, ProducerStep, ConsumerStep;
      StepKeeps(s, turns[0]);
      FromKeeps(Step(s, turns[0]), turns[1..]);
    }
  }

  lemma RunKeeps<V>(bits: nat, turns: seq<Turn<V>>)
    ensures Inv(Run(bits, turns))
  {
    hide Inv, From;
    InitInv<V>(bits);
    FromKeeps(Init<V>(bits), turns);
  }

  /**
   * No wake-up is lost. A consumer suspended although there is an item, or although
   * the channel is closed, is being woken; if its callback is still in the slot, a
   * push or close is between its store and its exchange.
   */
  lemma NoLostWakeup<V>(bits: nat, turns: seq<Turn<V>>)
    ensures var s := Run(bits, turns);
            s.cons.Suspended? && (s.head != s.tail || s.closed) ==>
              && (s.wake || s.prod.Exchange? || s.prod.Refresh? || s.prod.Wake?)
              && (s.callback.Some? ==> s.prod.Exchange?)
  {
    RunKeeps(bits, turns);
    hide Run, At, Pow2, Live;
    var s := Run(bits, turns);
  }

  /** What obtained callbacks are by now stays as it is. */
  ghost predicate Settled(o: seq<Owner>, o': seq<Owner>) {
    |o| <= |o'| && forall i :: 0 <= i < |o| && !o[i].InSlot? ==> o'[i] == o[i]
  }

  lemma ProducerSettled<V>(s: State<V>, op: Op<V>)
    requires s.Shaped() && Ownership(s)
    ensures Settled(s.hist.owners, ProducerStep(s, op).hist.owners)
  {
    hide Next, Pow2;
    match s.prod
    case PIdle =>
    case LoadClosed(_) =>
    case Check(_) =>
    case LoadHead(_) =>
    case Construct(_) =>
    case PublishTail(_) =>
    case StoreClosed =>
    case Exchange(_) =>
    case Refresh(_) =>
    case Wake(_) =>
  }

  lemma ConsumerSettled<V>(s: State<V>)
    requires s.Shaped() && Ownership(s)
    ensures Settled(s.hist.owners, ConsumerStep(s).hist.owners)
  {
    hide Next, Pow2;
    match s.cons
    case CIdle =>
    case ReadyTail =>
    case ReadyClosed =>
    case SuspendStore =>
    case SuspendTail =>
    case SuspendClosed(_) =>
    case SuspendExchange(_) =>
    case Suspended =>
    case ResumeLoad =>
    case ResumeMove =>
    case ResumeDestroy(_) =>
    case ResumePublish(_) =>
    case ResumeClosed =>
    case Failed =>
  }

  /** Once obtained, a callback is never obtained again, however the run goes on. */
  lemma {:induction false} ObtainedOnce<V>(s: State<V>, turns: seq<Turn<V>>)
    requires s.Shaped() && Inv(s)
    ensures Settled(s.hist.owners, From(s, turns).hist.owners)
    decreases turns
  {
    if turns != [] {
      match turns[0] {
        case Produce(op) => ProducerSettled(s, op);
        case Consume => ConsumerSettled(s);
      }
      StepKeeps(s, turns[0]);
      hide Inv, Ownership, ProducerStep, ConsumerStep;
      ObtainedOnce(Step(s, turns[0]), turns[1..]);
    }
  }

  /**
   * All but the last registered callback have been obtained, the last one too once it
   * is not in the slot; a push or close that is waking the consumer has obtained the last.
   */
  lemma AllObtained<V>(bits: nat, turns: seq<Turn<V>>)
    ensures var s := Run(bits, turns);
            forall i :: 0 <= i < |s.hist.owners| ==>
              (s.hist.owners[i].InSlot? <==> s.callback.Some? && i == |s.hist.owners| - 1)
    ensures var s := Run(bits, turns);
            s.prod.Refresh? || s.prod.Wake? ==>
              s.hist.owners != [] && s.hist.owners[|s.hist.owners| - 1] == if s.prod.closing then ByClose else ByPush
  {
    RunKeeps(bits, turns);
    hide Run, At, Pow2, Live;
    var s := Run(bits, turns);
  }

  /**
   * What the consumer gets is a prefix of what was pushed. A `nullopt` that the
   * assertion lets through is for a closed channel. Unless some push took a callback
   * with the ring empty it is for one with nothing left, and the assertion has not failed.
   */
  lemma Drain<V>(bits: nat, turns: seq<Turn<V>>)
    ensures var s := Run(bits, turns);
            && s.hist.returned <= s.hist.pushed
            && (s.hist.ends != [] ==> s.closed) && (s.cons.Failed? ==> s.hist.failures > 0)
            && (s.hist.stales == 0 ==> s.hist.failures == 0 && forall i :: 0 <= i < |s.hist.ends| ==> s.hist.ends[i])
  {
    RunKeeps(bits, turns);
    hide Run, At, Pow2, Live;
    var s := Run(bits, turns);
  }

  /** Construction is in raw memory, moving and destruction are of an item, never both in one slot. */
  lemma SlotsAreSafe<V>(bits: nat, turns: seq<Turn<V>>)
    ensures var s := Run(bits, turns);
            && (s.prod.Construct? ==> s.slots[s.tail] == Raw)
            && (s.cons.ResumeMove? ==> |s.hist.returned| < |s.hist.pushed| && s.slots[s.head] == Item(s.hist.pushed[|s.hist.returned|]))
            && (s.cons.ResumeDestroy? ==> s.slots[s.head] == Item(s.cons.v))
            && (s.prod.Construct? && (s.cons.ResumeMove? || s.cons.ResumeDestroy?) ==> s.tail != s.head)
  {
    RunKeeps(bits, turns);
    hide Run, At, Pow2, Live, Honest, Dekker, OneWakeup, Ownership;
    var s := Run(bits, turns);
    if s.prod.Construct? {
      assert Stored(s) == s.hist.pushed;
      LiveFits(s.slots, s.bits, Destroyed(s), Stored(s));
      ConstructLive(s.slots, s.bits, Destroyed(s), s.hist.pushed, s.prod.v);
    }
    if s.cons.ResumeMove? || s.cons.ResumeDestroy? {
      DestroyLive(s.slots, s.bits, Destroyed(s), Stored(s));
    }
  }

  /** An open channel rejects a push when, and only when, the ring is full as the head is loaded. */
  lemma PushFailsWhenFull<V>(bits: nat, turns: seq<Turn<V>>, op: Op<V>)
    requires Run(bits, turns).prod.LoadHead?
    ensures var s := Run(bits, turns);
            ProducerStep(s, op).prod.PIdle? <==> |s.hist.pushed| - |s.hist.returned| == Pow2(bits) - 1
  {
    RunKeeps(bits, turns);
    hide Live, Dekker, Honest, OneWakeup, Ownership, Pow2, At, Run, Next;
    var s := Run(bits, turns);
    NextIsSuccessor(bits, |s.hist.pushed|);
    SameIndex(bits, |s.hist.returned|, |s.hist.pushed| + 1);
  }

  // ---- A consumer that is being woken ----

  /** The consumer is suspended, and its wake-up is under way. */
  ghost predicate Waking<V>(s: State<V>) {
    s.cons.Suspended? && (s.wake || s.prod.Refresh? || s.prod.Wake? || (s.prod.Exchange? && s.callback.Some?))
  }

  /** How many steps of the producer it takes at most until the consumer is woken. */
  function StepsToWake<V>(s: State<V>): nat {
    if s.wake || !(s.prod.Exchange? || s.prod.Refresh? || s.prod.Wake?) then 0
    else if s.prod.Wake? then 1 else if s.prod.Refresh? then 2 else 3
  }

  function Produces<V>(turns: seq<Turn<V>>): nat {
    if turns == [] then 0 else Produces(turns[1..]) + if turns[0].Produce? then 1 else 0
  }

  lemma WakingStep<V>(s: State<V>, t: Turn<V>)
    requires s.Shaped() && Waking(s)
    ensures var s' := Step(s, t);
            if t.Consume? && s.wake then s'.cons.ResumeLoad?
            else
              && Waking(s') && StepsToWake(s') <= StepsToWake(s)
              && (t.Produce? && !s.wake ==> StepsToWake(s') < StepsToWake(s))
              && (s.wake ==> s'.wake)
  {
    hide Next, Pow2;
  }

  /** Three turns of the producer, and then one of its own, resume it, whatever comes between. */
  lemma {:induction false} WakingResumes<V>(s: State<V>, before: seq<Turn<V>>) returns (k: nat)
    requires s.Shaped() && Waking(s) && Produces(before) >= StepsToWake(s)
    ensures k <= |before| + 1 && From(s, (before + [Consume])[..k]).cons.ResumeLoad?
    decreases before
  {
    var all := before + [Consume];
    assert StepsToWake(s) == 0 ==> s.wake;
    WakingStep(s, all[0]);
    var s' := Step(s, all[0]);
    if s'.cons.ResumeLoad? {
      k := 1;
      assert all[..1] == [all[0]] && [all[0]][1..] == [];
      assert From(s, [all[0]]) == From(s', []);
    } else {
      assert before != [];
      hide Step, StepsToWake, Waking;
      k := WakingResumes(s', before[1..]);
      assert all[..k + 1] == [all[0]] + (before[1..] + [Consume])[..k];
      assert ([all[0]] + (before[1..] + [Consume])[..k])[1..] == (before[1..] + [Consume])[..k];
      k := k + 1;
    }
  }

  /**
   * In every run a consumer that is suspended although there is an item, or although
   * the channel is closed, goes on as soon as the producer has had three more turns
   * and it has one itself, in any order with any others.
   */
  lemma SuspendedGoesOn<V>(bits: nat, turns: seq<Turn<V>>, before: seq<Turn<V>>) returns (k: nat)
    requires var s := Run(bits, turns); s.cons.Suspended? && (s.head != s.tail || s.closed)
    requires Produces(before) >= 3
    ensures k <= |before| + 1 && From(Run(bits, turns), (before + [Consume])[..k]).cons.ResumeLoad?
  {
    RunKeeps(bits, turns);
    NoLostWakeup(bits, turns);
    hide Run, At, Pow2, Live, From, Produces, RingInv, Dekker, Honest, Ownership;
    k := WakingResumes(Run(bits, turns), before);
  }

  // ---- A closed channel is drained ----

  function Consumes<V>(n: nat): (turns: seq<Turn<V>>)
    ensures |turns| == n
  {
    if n == 0 then [] else [Consume] + Consumes(n - 1)
  }

  /** How many turns the consumer needs at most until it is told that nothing is left. */
  function TurnsToEnd<V>(c: Consumer<V>, left: nat): nat {
    10 * left +
      match c
      case SuspendStore => 9
      case SuspendTail => 8
      case SuspendClosed(_) => 7
      case SuspendExchange(_) => 6
      case Suspended => 5
      case CIdle => 7
      case ReadyTail => 6
      case ReadyClosed => 5
      case ResumeLoad => 4
      case ResumeMove => 3
      case ResumeDestroy(_) => 2
      case ResumePublish(_) => 1
      case ResumeClosed => if left > 0 then 8 else 1
      case Failed => 8
  }

  ghost predicate Closing<V>(s: State<V>) {
    Inv(s) && s.closed && s.prod.PIdle?
  }

  lemma ClosedIsWoken<V>(s: State<V>)
    requires Closing(s)
    ensures s.cons.Suspended? ==> s.wake
    ensures s.head == s.tail <==> |s.hist.returned| == |s.hist.pushed|
    ensures s.cons.ResumeMove? ==> s.slots[s.head].Item?
    ensures |s.hist.returned| <= |s.hist.pushed|
    ensures s.cons.ResumePublish? ==> |s.hist.returned| < |s.hist.pushed|
  {
    SameIndex(s.bits, |s.hist.returned|, |s.hist.pushed|);
    if s.cons.ResumeMove? {
      DestroyLive(s.slots, s.bits, Destroyed(s), Stored(s));
    }
    hide At, Next, Pow2, Live, Honest;
  }

  /** One turn of the consumer: it comes closer to the end, or is told so. */
  lemma DrainStep<V>(s: State<V>)
    requires Closing(s)
    ensures var s' := ConsumerStep(s);
            && Closing(s') && s'.hist.pushed == s.hist.pushed && s.hist.ends <= s'.hist.ends
            && |s'.hist.returned| <= |s.hist.pushed|
            && if s.cons.ResumeClosed? && |s.hist.returned| == |s.hist.pushed| then
                 s'.cons.CIdle? && s'.hist.ends == s.hist.ends + [true] && s'.hist.returned == s.hist.returned
               else
                 TurnsToEnd(s'.cons, |s.hist.pushed| - |s'.hist.returned|) < TurnsToEnd(s.cons, |s.hist.pushed| - |s.hist.returned|)
  {
    ClosedIsWoken(s);
    ConsumerKeeps(s);
    ConsumerFrame(s);
    ClosedIsWoken(ConsumerStep(s));
    hide Inv, Next, Pow2;
    match s.cons
    case CIdle =>
    case ReadyTail =>
    case ReadyClosed =>
    case SuspendStore =>
    case SuspendTail =>
    case SuspendClosed(_) =>
    case SuspendExchange(_) =>
    case Suspended =>
    case ResumeLoad =>
    case ResumeMove =>
    case ResumeDestroy(_) =>
    case ResumePublish(_) =>
    case ResumeClosed =>
    case Failed =>
  }

  /** Every item has been returned, and the consumer has then been told that nothing is left. */
  ghost predicate Drained<V>(s: State<V>, e: State<V>) {
    && e.cons.CIdle? && e.hist.pushed == s.hist.pushed && e.hist.returned == e.hist.pushed
    && s.hist.ends <= e.hist.ends && |s.hist.ends| < |e.hist.ends| && e.hist.ends[|e.hist.ends| - 1]
  }

  lemma ConsumesStep<V>(s: State<V>, n: nat)
    requires s.Shaped() && n > 0
    ensures From(s, Consumes<V>(n)) == From(ConsumerStep(s), Consumes<V>(n - 1))
  {
    hide ConsumerStep;
    assert Consumes<V>(n)[1..] == Consumes<V>(n - 1);
  }

  lemma DrainedAtOnce<V>(s: State<V>)
    requires Closing(s) && s.cons.ResumeClosed? && |s.hist.returned| == |s.hist.pushed|
    ensures Drained(s, ConsumerStep(s))
  {
    DrainStep(s);
    hide ConsumerStep, Inv;
    assert s.hist.returned == s.hist.pushed by { hide Live, Pow2; }
  }

  lemma DrainsOn<V>(s: State<V>, e: State<V>)
    requires Closing(s) && Drained(ConsumerStep(s), e)
    ensures Drained(s, e)
  {
    DrainStep(s);
    hide Closing, ConsumerStep;
  }

  lemma NoTurns<V>(s: State<V>)
    requires s.Shaped()
    ensures From(s, Consumes<V>(0)) == s
  {}

  lemma DrainsNow<V>(s: State<V>)
    requires s.Shaped() && Closing(s) && s.cons.ResumeClosed? && |s.hist.returned| == |s.hist.pushed|
    ensures Drained(s, From(s, Consumes(1)))
  {
    DrainedAtOnce(s);
    NoTurns(ConsumerStep(s));
    ConsumesStep(s, 1);
    hide Closing, Drained, ConsumerStep, From, Consumes;
  }

  lemma {:induction false} DrainsFrom<V>(s: State<V>) returns (n: nat)
    requires s.Shaped() && Closing(s) && |s.hist.returned| <= |s.hist.pushed|
    ensures n <= TurnsToEnd(s.cons, |s.hist.pushed| - |s.hist.returned|)
    ensures Drained(s, From(s, Consumes(n)))
    decreases TurnsToEnd(s.cons, |s.hist.pushed| - |s.hist.returned|)
  {
    if s.cons.ResumeClosed? && |s.hist.returned| == |s.hist.pushed| {
      DrainsNow(s);
      n := 1;
      return;
    }
    hide *;
    DrainStep(s);
    var s' := ConsumerStep(s);
    n := DrainsFrom(s');
    DrainsOn(s, From(s', Consumes(n)));
    n := n + 1;
    ConsumesStep(s, n);
  }

  /**
   * In every run that has closed the channel and returned from the push or close it
   * was in, turns of the consumer alone get it every item that is left, in order, and
   * then the end.
   */
  lemma ClosedDrains<V>(bits: nat, turns: seq<Turn<V>>) returns (n: nat)
    requires var s := Run(bits, turns); s.closed && s.prod.PIdle?
    ensures n <= 10 * (|Run(bits, turns).hist.pushed| + 1)
    ensures Drained(Run(bits, turns), From(Run(bits, turns), Consumes(n)))
  {
    RunKeeps(bits, turns);
    ClosedIsWoken(Run(bits, turns));
    hide Inv, From, Run;
    n := DrainsFrom(Run(bits, turns));
  }

  // ---- Where a state can lead ----

  /** From `s` some turns lead to `e`. */
  ghost predicate Leads<V(!new)>(s: State<V>, e: State<V>)
    requires s.Shaped()
  {
    exists turns: seq<Turn<V>> :: From(s, turns) == e
  }

  lemma {:induction false} FromAppend<V>(s: State<V>, a: seq<Turn<V>>, b: seq<Turn<V>>)
    requires s.Shaped()
    ensures From(s, a + b) == From(From(s, a), b)
    decreases a
  {
    if a == [] {
      assert a + b == b;
    } else {
      hide Step;
      assert (a + b)[1..] == a[1..] + b;
      FromAppend(Step(s, a[0]), a[1..], b);
    }
  }

  lemma LeadsOn<V(!new)>(s: State<V>, e: State<V>, f: State<V>)
    requires s.Shaped() && e.Shaped() && Leads(s, e) && Leads(e, f)
    ensures Leads(s, f)
  {
    hide From;
    var a :| From(s, a) == e;
    var b :| From(e, b) == f;
    FromAppend(s, a, b);
  }

  /** One step of the producer. */
  lemma Produced<V(!new)>(s: State<V>, op: Op<V>)
    requires Inv(s)
    ensures Inv(ProducerStep(s, op)) && Leads(s, ProducerStep(s, op))
  {
    ProducerKeeps(s, op);
    hide Inv, ProducerStep;
    assert From(s, [Produce(op)]) == From(Step(s, Produce(op)), []);
  }

  lemma Consumed<V(!new)>(s: State<V>)
    requires Inv(s)
    ensures Inv(ConsumerStep(s)) && Leads(s, ConsumerStep(s))
  {
    ConsumerKeeps(s);
    hide Inv, ConsumerStep;
    assert From(s, [Consume]) == From(Step(s, Consume), []);
  }

  /** Nothing the consumer looks at has changed but the items. */
  ghost predicate OnlyPushed<V>(s: State<V>, e: State<V>, v: V) {
    && e.bits == s.bits && e.head == s.head && e.headLocal == s.headLocal && e.tail == Next(s.bits, s.tail)
    && e.callback == s.callback && e.closed == s.closed && e.wake == s.wake && e.cons == s.cons
    && e.hist.pushed == s.hist.pushed + [v] && e.hist.returned == s.hist.returned
    && e.hist.ends == s.hist.ends && e.hist.stales == s.hist.stales && e.hist.failures == s.hist.failures
  }

  lemma RoomWhenEmpty<V>(s: State<V>)
    requires Inv(s) && s.head == s.tail && Pow2(s.bits) > 1
    ensures |s.hist.returned| == |s.hist.pushed| && Next(s.bits, s.tail) != s.head
  {
    hide Live, ProducerPlace, OneWakeup, Ownership, Dekker, Honest, Next, At;
    var h, t := |s.hist.returned|, |s.hist.pushed|;
    SameIndex(s.bits, h, t);
    NextIsSuccessor(s.bits, t);
    SameIndex(s.bits, h, t + 1);
  }

  lemma PushBegins<V(!new)>(s: State<V>, v: V) returns (e: State<V>)
    requires Inv(s) && s.prod.PIdle? && !s.closed
    ensures Inv(e) && Leads(s, e) && e == s.(prod := Check(v))
  {
    var s1 := s.(prod := LoadClosed(v));
    e := s.(prod := Check(v));
    assert ProducerStep(s, Push(v)) == s1 && ProducerStep(s1, Push(v)) == e by { hide Next, Pow2; }
    hide Inv, Leads, ProducerStep;
    Produced(s, Push(v));
    Produced(s1, Push(v));
    LeadsOn(s, s1, e);
  }

  lemma PushFindsRoom<V(!new)>(s: State<V>, v: V) returns (e: State<V>)
    requires Inv(s) && s.prod == Check(v) && Next(s.bits, s.tail) != s.head
    ensures Inv(e) && Leads(s, e)
    ensures e == s.(prod := Construct(v), tailLocal := e.tailLocal, hist := s.hist.(seenHead := e.hist.seenHead))
  {
    e := ProducerStep(s, Push(v));
    Produced(s, Push(v));
    if Next(s.bits, s.tail) == s.tailLocal {
      var s1 := e;
      assert s1 == s.(prod := LoadHead(v)) by { hide Next, Pow2; }
      e := ProducerStep(s1, Push(v));
      assert e.prod == Construct(v) by { hide Next, Pow2; }
      hide Inv, Leads;
      Produced(s1, Push(v));
      LeadsOn(s, s1, e);
    }
  }

  lemma PushPublishes<V(!new)>(s: State<V>, v: V) returns (e: State<V>)
    requires Inv(s) && s.prod == Construct(v)
    ensures Inv(e) && Leads(s, e) && e.prod == Exchange(false) && OnlyPushed(s, e, v)
  {
    var s1 := ProducerStep(s, Push(v));
    e := ProducerStep(s1, Push(v));
    assert e.prod == Exchange(false) && OnlyPushed(s, e, v) by { hide Next, Pow2; }
    hide Inv, Leads, ProducerStep, OnlyPushed;
    Produced(s, Push(v));
    Produced(s1, Push(v));
    LeadsOn(s, s1, e);
  }

  /** With nothing in the ring an idle producer can publish an item and be held up before it looks for a callback. */
  lemma PushLeads<V(!new)>(s: State<V>, v: V) returns (e: State<V>)
    requires Inv(s) && s.prod.PIdle? && !s.closed && s.head == s.tail && Pow2(s.bits) > 1
    ensures Inv(e) && Leads(s, e) && e.prod == Exchange(false) && OnlyPushed(s, e, v)
  {
    RoomWhenEmpty(s);
    var s1 := PushBegins(s, v);
    var s2 := PushFindsRoom(s1, v);
    e := PushPublishes(s2, v);
    assert OnlyPushed(s, e, v);
    hide Inv, Leads, OnlyPushed;
    LeadsOn(s, s1, s2);
    LeadsOn(s, s2, e);
  }

  lemma ToResumeSteps<V>(s: State<V>)
    requires s.Shaped() && s.cons.CIdle? && s.head != s.tail
    ensures ConsumerStep(s).cons.ResumeLoad? ==> ConsumerStep(s) == s.(cons := ResumeLoad)
    ensures !ConsumerStep(s).cons.ResumeLoad? ==>
              && ConsumerStep(s) == s.(cons := ReadyTail)
              && ConsumerStep(s.(cons := ReadyTail))
                 == s.(cons := ResumeLoad, headLocal := s.tail, hist := s.hist.(seenTail := |s.hist.pushed|))
  {
    hide Next, Pow2;
  }

  lemma ToResume<V(!new)>(s: State<V>) returns (e: State<V>)
    requires Inv(s) && s.cons.CIdle? && s.head != s.tail
    ensures Inv(e) && Leads(s, e)
    ensures e == s.(cons := ResumeLoad, headLocal := e.headLocal, hist := s.hist.(seenTail := e.hist.seenTail))
  {
    ToResumeSteps(s);
    hide Inv, Leads, ConsumerStep;
    e := ConsumerStep(s);
    Consumed(s);
    if !e.cons.ResumeLoad? {
      var s1 := e;
      e := ConsumerStep(s1);
      Consumed(s1);
      LeadsOn(s, s1, e);
    }
  }

  /** The consumer begins to take an item. */
  lemma TakeBegins<V(!new)>(s: State<V>) returns (e: State<V>)
    requires Inv(s) && s.cons.CIdle? && s.head != s.tail
    ensures Inv(e) && Leads(s, e)
    ensures e == s.(cons := ResumeMove, headLocal := e.headLocal, hist := s.hist.(seenTail := e.hist.seenTail))
  {
    var s1 := ToResume(s);
    e := s1.(cons := ResumeMove);
    assert ConsumerStep(s1) == e by { hide Next, Pow2; }
    hide Inv, Leads, ConsumerStep;
    Consumed(s1);
    LeadsOn(s, s1, e);
  }

  /** Nothing the producer looks at has changed but the head. */
  ghost predicate OnlyTaken<V>(s: State<V>, e: State<V>) {
    && e.bits == s.bits && e.tail == s.tail && e.tailLocal == s.tailLocal && e.prod == s.prod
    && e.callback == s.callback && e.closed == s.closed && e.wake == s.wake
    && e.hist.pushed == s.hist.pushed && |e.hist.returned| == |s.hist.returned| + 1
    && e.hist.ends == s.hist.ends && e.hist.stales == s.hist.stales && e.hist.failures == s.hist.failures
  }

  lemma ItemThere<V>(s: State<V>)
    requires Inv(s) && s.cons.ResumeMove?
    ensures s.slots[s.head].Item?
  {
    hide OneWakeup, Ownership, Dekker, Honest, Next, At, Pow2, Live;
    DestroyLive(s.slots, s.bits, Destroyed(s), Stored(s));
  }

  lemma TakeEnds<V(!new)>(s: State<V>) returns (e: State<V>)
    requires Inv(s) && s.cons.ResumeMove?
    ensures Inv(e) && Leads(s, e) && e.cons.CIdle? && OnlyTaken(s, e)
  {
    ItemThere(s);
    var s1 := ConsumerStep(s);
    var s2 := ConsumerStep(s1);
    e := ConsumerStep(s2);
    assert e.cons.CIdle? && OnlyTaken(s, e) by { hide Next, Pow2; }
    hide Inv, Leads, ConsumerStep, OnlyTaken;
    Consumed(s);
    Consumed(s1);
    Consumed(s2);
    LeadsOn(s, s1, s2);
    LeadsOn(s, s2, e);
  }

  /** An idle consumer can take an item that is there. */
  lemma TakeLeads<V(!new)>(s: State<V>) returns (e: State<V>)
    requires Inv(s) && s.cons.CIdle? && s.head != s.tail
    ensures Inv(e) && Leads(s, e) && e.cons.CIdle? && OnlyTaken(s, e)
  {
    var s1 := TakeBegins(s);
    e := TakeEnds(s1);
    assert OnlyTaken(s, e);
    hide Inv, Leads, OnlyTaken;
    LeadsOn(s, s1, e);
  }

  lemma NothingCached<V>(s: State<V>)
    requires Inv(s) && s.cons.CIdle? && !s.closed && s.head == s.tail && s.hist.stales == 0
    ensures s.headLocal == s.head && s.callback.None?
  {
    hide Live, ProducerPlace, ConsumerPlace, Ownership, Dekker, Next, At, Pow2;
    SameIndex(s.bits, |s.hist.returned|, |s.hist.pushed|);
    assert s.hist.seenTail == |s.hist.returned|;
  }

  lemma WaitSteps<V>(s: State<V>) returns (s1: State<V>, s2: State<V>, s3: State<V>, e: State<V>)
    requires s.Shaped() && s.cons.CIdle? && !s.closed && s.head == s.tail == s.headLocal
    ensures s1.Shaped() && s2.Shaped() && s3.Shaped()
    ensures s1 == ConsumerStep(s) && s2 == ConsumerStep(s1) && s3 == ConsumerStep(s2) && e == ConsumerStep(s3)
    ensures e == s.(cons := SuspendTail, callback := Some(|s.hist.owners|),
                    hist := s.hist.(seenTail := |s.hist.pushed|, owners := s.hist.owners + [InSlot]))
  {
    hide Next, Pow2;
    s1 := s.(cons := ReadyTail);
    s2 := s.(cons := ReadyClosed, hist := s.hist.(seenTail := |s.hist.pushed|));
    s3 := s2.(cons := SuspendStore);
    e := ConsumerStep(s3);
  }

  /** An idle consumer that finds nothing can register a callback and be held up before it looks again. */
  lemma WaitLeads<V(!new)>(s: State<V>) returns (e: State<V>)
    requires Inv(s) && s.cons.CIdle? && !s.closed && s.head == s.tail && s.hist.stales == 0
    ensures Inv(e) && Leads(s, e) && e.cons.SuspendTail? && e.callback.Some?
    ensures e.bits == s.bits && e.head == s.head && e.tail == s.tail && e.prod == s.prod && e.closed == s.closed
    ensures e.hist.stales == 0 && e.hist.pushed == s.hist.pushed && e.hist.returned == s.hist.returned
    ensures e.hist.ends == s.hist.ends && e.hist.failures == s.hist.failures
  {
    NothingCached(s);
    var s1, s2, s3;
    s1, s2, s3, e := WaitSteps(s);
    hide Inv, Leads, ConsumerStep;
    Consumed(s);
    Consumed(s1);
    Consumed(s2);
    Consumed(s3);
    LeadsOn(s, s1, s2);
    LeadsOn(s, s2, s3);
    LeadsOn(s, s3, e);
  }

  /**
   * From any state in which nobody is busy and nothing is in an open channel that
   * takes items at all, a push can be overtaken: its item is taken, and waited behind,
   * before it looks for a callback.
   */
  lemma PushOvertaken<V(!new)>(s: State<V>, v: V) returns (e: State<V>)
    requires Inv(s) && s.prod.PIdle? && s.cons.CIdle? && !s.closed && s.head == s.tail && Pow2(s.bits) > 1
    requires s.hist.stales == 0
    ensures Inv(e) && Leads(s, e)
    ensures e.bits == s.bits && e.prod == Exchange(false) && e.callback.Some? && e.head == e.tail
    ensures e.hist.stales == 0 && e.hist.ends == s.hist.ends && e.hist.failures == s.hist.failures
  {
    RoomWhenEmpty(s);
    var s1 := PushLeads(s, v);
    assert s1.head != s1.tail;
    var s2 := TakeLeads(s1);
    EmptyAgain(s, s1, s2, v);
    e := WaitLeads(s2);
    hide Inv, Leads, OnlyPushed, OnlyTaken;
    LeadsOn(s, s1, s2);
    LeadsOn(s, s2, e);
  }

  lemma EmptyAgain<V>(s: State<V>, s1: State<V>, s2: State<V>, v: V)
    requires Inv(s2) && |s.hist.returned| == |s.hist.pushed|
    requires OnlyPushed(s, s1, v) && OnlyTaken(s1, s2)
    ensures s2.head == s2.tail
  {
    hide Live, ProducerPlace, ConsumerPlace, OneWakeup, Ownership, Dekker, Honest, Next, At, Pow2;
  }

  // ---- When a wake-up is spurious ----

  /** The consumer is about to find nothing, in an open channel and with nobody else busy. */
  ghost predicate InVain<V>(s: State<V>) {
    s.cons.ResumeClosed? && s.prod.PIdle? && !s.closed && s.head == s.tail && s.callback.None?
  }

  /** Taking the callback, refreshing the cached tail and waking: nothing else is touched. */
  lemma WakeSteps<V(!new)>(s: State<V>) returns (e: State<V>)
    requires Inv(s) && s.prod == Refresh(false) && s.callback.None?
    ensures Inv(e) && Leads(s, e) && e.wake
    ensures e == s.(prod := PIdle, wake := true, headLocal := s.tail, hist := s.hist.(seenTail := |s.hist.pushed|))
  {
    var s1 := ProducerStep(s, Close);
    e := ProducerStep(s1, Close);
    assert e == s.(prod := PIdle, wake := true, headLocal := s.tail, hist := s.hist.(seenTail := |s.hist.pushed|)) by { hide Next, Pow2; }
    hide Inv, Leads, ProducerStep;
    Produced(s, Close);
    Produced(s1, Close);
    LeadsOn(s, s1, e);
  }

  /** A consumer that is woken with nothing there finds nothing. */
  lemma {:induction false} FindsNothing<V(!new)>(s: State<V>, n: nat) returns (e: State<V>)
    requires Inv(s) && s.prod.PIdle? && !s.closed && s.head == s.tail && s.callback.None?
    requires match s.cons
             case SuspendTail => n == 4 && s.wake
             case SuspendClosed(_) => n == 3 && s.wake
             case Suspended => n == 2 && s.wake
             case ResumeLoad => n == 1
             case ResumeClosed => n == 0
             case _ => false
    ensures Inv(e) && Leads(s, e) && InVain(e)
    ensures e.bits == s.bits && e.hist.stales == s.hist.stales && e.hist.ends == s.hist.ends && e.hist.failures == s.hist.failures
    decreases n
  {
    if n == 0 {
      e := s;
      assert From(s, []) == e;
    } else {
      var s1 := ConsumerStep(s);
      Consumed(s);
      hide Inv, Leads, Next, Pow2;
      e := FindsNothing(s1, n - 1);
      LeadsOn(s, s1, e);
    }
  }

  /** A push that takes the callback with the ring empty may go on to wake the consumer in vain. */
  lemma StaleLeads<V(!new)>(s: State<V>) returns (e: State<V>)
    requires Inv(s) && s.hist.stales == 0
    requires s.prod == Exchange(false) && s.callback.Some? && s.head == s.tail
    ensures var s1 := ProducerStep(s, Close);
            Inv(s1) && Inv(e) && Leads(s1, e) && InVain(e) && e.bits == s.bits && Pow2(e.bits) > 1
            && e.hist.stales == s1.hist.stales && e.hist.ends == s1.hist.ends == s.hist.ends
            && e.hist.failures == s1.hist.failures == s.hist.failures
  {
    SameIndex(s.bits, |s.hist.returned|, |s.hist.pushed|);
    assert !s.closed && Registered(s.cons) && !s.cons.SuspendExchange? && Pow2(s.bits) > 1;
    hide Inv, Leads, Next, At, Pow2, InVain;
    var s1 := ProducerStep(s, Close);
    Produced(s, Close);
    var s2 := WakeSteps(s1);
    e := FindsNothing(s2, match s.cons case SuspendTail => 4 case SuspendClosed(_) => 3 case _ => 2);
    LeadsOn(s1, s2, e);
  }

  /** From here on no push takes a callback with the ring empty, and yet the assertion fails. */
  ghost predicate Fails<V>(s: State<V>, more: seq<Turn<V>>)
    requires Inv(s)
  {
    From(s, more).cons.Failed? && From(s, more).hist.stales == s.hist.stales
  }

  /**
   * From here on no push takes a callback with the ring empty, and yet the consumer
   * is told that the channel is closed and drained with an item still in it.
   */
  ghost predicate EndsShort<V>(s: State<V>, more: seq<Turn<V>>)
    requires Inv(s)
  {
    var e := From(s, more);
    && e.hist.stales == s.hist.stales && e.hist.failures == s.hist.failures
    && exists i :: |s.hist.ends| <= i < |e.hist.ends| && !e.hist.ends[i]
  }

  lemma VainFails<V(!new)>(s: State<V>)
    requires Inv(s) && InVain(s)
    ensures var e := ConsumerStep(s);
            && Leads(s, e) && e.cons.Failed? && e.hist.stales == s.hist.stales
            && e.hist.failures == s.hist.failures + 1 && e.hist.ends == s.hist.ends
  {
    Consumed(s);
    hide Inv, Leads, Next, Pow2;
  }

  /** A push and a close, before the consumer looks whether the channel is closed. */
  lemma VainEndsShort<V(!new)>(s: State<V>, v: V) returns (e: State<V>)
    requires Inv(s) && InVain(s) && Pow2(s.bits) > 1
    ensures Inv(e) && Leads(s, e) && e.cons.CIdle? && e.hist.stales == s.hist.stales
    ensures e.hist.ends == s.hist.ends + [false] && e.hist.failures == s.hist.failures
  {
    RoomWhenEmpty(s);
    var s1 := PushLeads(s, v);
    var s2 := ProducerStep(s1, Close);
    assert s2 == s1.(prod := PIdle) by { hide Next, Pow2; }
    var s3 := ProducerStep(s2, Close);
    assert s3 == s2.(prod := StoreClosed) by { hide Next, Pow2; }
    var s4 := ProducerStep(s3, Close);
    assert s4 == s3.(prod := Exchange(true), closed := true) by { hide Next, Pow2; }
    e := ConsumerStep(s4);
    assert e.hist.ends == s.hist.ends + [false] && e.cons.CIdle? && e.hist.stales == s.hist.stales
        && e.hist.failures == s.hist.failures by { hide Next, Pow2; }
    hide Inv, Leads, ProducerStep, ConsumerStep, OnlyPushed, Pow2, Next;
    Produced(s1, Close);
    Produced(s2, Close);
    Produced(s3, Close);
    Consumed(s4);
    LeadsOn(s, s1, s2);
    LeadsOn(s, s2, s3);
    LeadsOn(s, s3, s4);
    LeadsOn(s, s4, e);
  }

  lemma LeadsBy<V(!new)>(s: State<V>, e: State<V>) returns (more: seq<Turn<V>>)
    requires s.Shaped() && Leads(s, e)
    ensures From(s, more) == e
  {
    more :| From(s, more) == e;
  }

  /** As long as no push takes a callback with the ring empty neither can happen. */
  lemma HonestForGood<V>(s: State<V>, more: seq<Turn<V>>)
    requires Inv(s) && s.hist.stales == 0
    ensures !Fails(s, more) && !EndsShort(s, more)
  {
    FromKeeps(s, more);
    hide From, RingInv, OneWakeup, Ownership, Dekker;
    assert Honest(From(s, more)) || From(s, more).hist.stales != 0;
  }

  lemma NotStale<V>(s: State<V>)
    requires s.Shaped() && s.prod == Exchange(false) && s.callback.Some?
    ensures ProducerStep(s, Close).hist.stales == s.hist.stales + if s.head == s.tail then 1 else 0
  {
    hide Next, Pow2;
  }

  /**
   * When a push takes the callback, its wake-up can turn out to be spurious
   * exactly if the ring is empty at that moment: the consumer has already taken
   * the item the push is about, and has come back for the next.
   */
  lemma SpuriousExactly<V(!new)>(s: State<V>)
    requires Inv(s) && s.hist.stales == 0
    requires s.prod == Exchange(false) && s.callback.Some?
    ensures Inv(ProducerStep(s, Close))
    ensures (exists more: seq<Turn<V>> :: Fails(ProducerStep(s, Close), more)) <==> s.head == s.tail
  {
    Produced(s, Close);
    NotStale(s);
    var s1 := ProducerStep(s, Close);
    hide Inv, ProducerStep, From, Leads, InVain;
    if s.head == s.tail {
      var e := StaleLeads(s);
      VainFails(e);
      LeadsOn(s1, e, ConsumerStep(e));
      var more := LeadsBy(s1, ConsumerStep(e));
      assert Fails(s1, more);
    } else {
      forall more: seq<Turn<V>> ensures !Fails(s1, more) {
        HonestForGood(s1, more);
      }
    }
  }

  /**
   * At the same price the consumer can be told, without the assertion failing, that
   * the channel is closed and drained when an item is left: the wake-up finds nothing,
   * and a push and a close come before it looks whether the channel is closed.
   */
  lemma EndsShortExactly<V(!new)>(s: State<V>, v: V)
    requires Inv(s) && s.hist.stales == 0
    requires s.prod == Exchange(false) && s.callback.Some?
    ensures Inv(ProducerStep(s, Close))
    ensures (exists more: seq<Turn<V>> :: EndsShort(ProducerStep(s, Close), more)) <==> s.head == s.tail
  {
    Produced(s, Close);
    NotStale(s);
    var s1 := ProducerStep(s, Close);
    hide Inv, ProducerStep, From, Leads, InVain, Pow2;
    if s.head == s.tail {
      var e := StaleLeads(s);
      var f := VainEndsShort(e, v);
      LeadsOn(s1, e, f);
      var more := LeadsBy(s1, f);
      assert !f.hist.ends[|s1.hist.ends|];
      assert EndsShort(s1, more);
    } else {
      forall more: seq<Turn<V>> ensures !EndsShort(s1, more) {
        HonestForGood(s1, more);
      }
    }
  }

  lemma FreshState<V>(bits: nat)
    requires bits > 0
    ensures var s := Init<V>(bits);
            Inv(s) && s.prod.PIdle? && s.cons.CIdle? && !s.closed && s.head == s.tail && Pow2(s.bits) > 1
            && s.hist.stales == 0 && s.hist.ends == [] && s.hist.failures == 0
  {
    InitInv<V>(bits);
    Pow2Monotone(1, bits);
    assert Pow2(1) == 2;
    hide Inv;
  }

  /** In a channel of any size that takes items at all there is a run in which the assertion fails. */
  lemma SpuriousRun<V(!new)>(bits: nat, v: V) returns (turns: seq<Turn<V>>)
    requires bits > 0
    ensures var s := Run(bits, turns); s.cons.Failed? && s.hist.failures == 1 && s.hist.ends == []
  {
    FreshState<V>(bits);
    var s := Init<V>(bits);
    hide Inv, From, Leads, InVain, Pow2, Init, ProducerStep;
    var s1 := PushOvertaken(s, v);
    var s2 := ProducerStep(s1, Close);
    Produced(s1, Close);
    var e := StaleLeads(s1);
    VainFails(e);
    LeadsOn(s, s1, s2);
    LeadsOn(s, s2, e);
    LeadsOn(s, e, ConsumerStep(e));
    turns := LeadsBy(s, ConsumerStep(e));
  }

  /** And one in which the consumer is told that nothing is left when an item is, and no assertion fails. */
  lemma EndsShortRun<V(!new)>(bits: nat, v: V) returns (turns: seq<Turn<V>>)
    requires bits > 0
    ensures var s := Run(bits, turns); s.hist.ends == [false] && s.hist.failures == 0 && s.cons.CIdle?
  {
    FreshState<V>(bits);
    var s := Init<V>(bits);
    hide Inv, From, Leads, InVain, Pow2, Init, ProducerStep;
    var s1 := PushOvertaken(s, v);
    var s2 := ProducerStep(s1, Close);
    Produced(s1, Close);
    var e := StaleLeads(s1);
    var f := VainEndsShort(e, v);
    LeadsOn(s, s1, s2);
    LeadsOn(s, s2, e);
    LeadsOn(s, e, f);
    turns := LeadsBy(s, f);
  }
}
