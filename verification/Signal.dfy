/**
 * `MPSCSignal`: a consumer that suspends on a signal, and any number of
 * producers that release or stop it. Every load, store, exchange and
 * compare-exchange is one step; the plain fields are read and written in steps of
 * their own.
 */
module Signal {
  import opened Basics

  datatype Word = Idle | Signaled | Stopped | Waiting

  /** Where the consumer is in `co_await`. */
  datatype Consumer =
    | ReadyLoad | ReadyConsume | ReadyStopped
    | Register | Publish | Retract(restore: Word)
    | Suspended
    | Resume

  /** Where a producer is in `release` or `stop`; `fn` is the continuation it has copied. */
  datatype Producer = Off | Restore | Copy(stopping: bool) | StoreIdle(fn: nat) | Invoke(fn: nat)

  datatype Op = Release | Stop

  /**
   * `handle` stands for the two continuation fields and names the suspension they
   * belong to. The rest below it is history, not part of the program: suspensions
   * begun, the producer that owns the continuation, the suspensions resumed, whether
   * a restoring store has overwritten the registration, whether a release has
   * happened since the consumer last took one, and counts.
   */
  datatype State = State(
    word: Word, handle: nat, wake: bool, cons: Consumer, prods: seq<Producer>,
    begun: nat, owner: Option<nat>, invoked: seq<nat>, overwritten: bool, pending: bool,
    releases: nat, stops: nat, results: seq<bool>)

  function Init(n: nat): State {
    State(Idle, 0, false, ReadyLoad, seq(n, _ => Off), 0, None, [], false, false, 0, 0, [])
  }

  /** Owning the right to invoke the continuation. */
  predicate Owning(p: Producer) {
    p.Copy? || p.StoreIdle? || p.Invoke?
  }

  // ---- Steps ----

  function ConsumerStep(s: State): State {
    match s.cons
    case ReadyLoad =>
      s.(cons := if s.word == Signaled then ReadyConsume else ReadyStopped)
    case ReadyConsume =>
      if s.word == Signaled then s.(word := Idle, cons := Resume, pending := false) else s.(cons := Resume)
    case ReadyStopped =>
      s.(cons := if s.word == Stopped then Resume else Register)
    case Register =>
      s.(handle := s.begun, begun := s.begun + 1, cons := Publish)
    case Publish =>
      s.(word := Waiting,
         cons := if s.word == Idle then Suspended else Retract(if s.word == Stopped then Stopped else Idle),
         pending := s.pending && s.word != Signaled)
    case Retract(restore) =>
      s.(word := restore, cons := if s.word == Waiting then Resume else Suspended)
    case Suspended =>
      if s.wake then s.(wake := false, cons := Resume, pending := false) else s
    case Resume =>
      s.(cons := ReadyLoad, results := s.results + [s.word != Stopped])
  }

  /** One step of producer `i`; `op` is what it begins when it is not in a call. */
  function ProducerStep(s: State, i: nat, op: Op): State
    requires i < |s.prods|
  {
    match s.prods[i]
    case Off =>
      (match op
       case Release =>
         var t := s.(word := Signaled, pending := true, releases := s.releases + 1);
         (match s.word
          case Idle => t
          case Signaled => t
          case Stopped => t.(prods := s.prods[i := Restore])
          case Waiting => t.(prods := s.prods[i := Copy(false)], owner := Some(i)))
       case Stop =>
         var t := s.(word := Stopped, stops := s.stops + 1);
         if s.word == Waiting then t.(prods := s.prods[i := Copy(true)], owner := Some(i)) else t)
    case Restore =>
      s.(word := Stopped, prods := s.prods[i := Off], overwritten := s.overwritten || s.word == Waiting)
    case Copy(stopping) =>
      s.(prods := s.prods[i := if stopping then Invoke(s.handle) else StoreIdle(s.handle)])
    case StoreIdle(fn) =>
      s.(word := Idle, prods := s.prods[i := Invoke(fn)])
    case Invoke(fn) =>
      s.(wake := true, prods := s.prods[i := Off], owner := None, invoked := s.invoked + [fn])
  }

  datatype Turn = Produce(i: nat, op: Op) | Consume

  /** A turn of a producer that does not exist is nobody's. */
  function Step(s: State, t: Turn): State {
    match t
    case Produce(i, op) => if i < |s.prods| then ProducerStep(s, i, op) else s
    case Consume => ConsumerStep(s)
  }

  function From(s: State, turns: seq<Turn>): State
    decreases turns
  {
    if turns == [] then s else From(Step(s, turns[0]), turns[1..])
  }

  function Run(n: nat, turns: seq<Turn>): State {
    From(Init(n), turns)
  }

  // ---- Any mix of releases and stops ----

  /** Between publishing a continuation and resuming. */
  predicate Registered(c: Consumer) {
    c.Retract? || c.Suspended?
  }

  ghost predicate Owners(s: State) {
    && (s.owner.Some? ==> s.owner.value < |s.prods|)
    && forall i :: 0 <= i < |s.prods| ==> (Owning(s.prods[i]) <==> s.owner == Some(i))
  }

  /** The wake-up of a registered consumer is in exactly one of four places. */
  ghost predicate OnePlace(s: State) {
    && (s.word == Waiting ==> Registered(s.cons) && s.owner.None? && !s.wake && !s.overwritten)
    && (s.owner.Some? ==> Registered(s.cons) && !s.wake && !s.overwritten)
    && (s.wake ==> Registered(s.cons) && !s.overwritten)
    && (s.overwritten ==> Registered(s.cons))
    && (s.cons.Retract? ==> s.cons.restore != Waiting)
    && (Registered(s.cons) ==> s.word == Waiting || s.owner.Some? || s.wake || s.overwritten)
  }

  /** The fields belong to the suspension begun last, also in the copies that are made of them. */
  ghost predicate Continuation(s: State) {
    && (Registered(s.cons) || s.cons.Publish? ==> s.begun == s.handle + 1)
    && (s.owner.Some? && s.owner.value < |s.prods| && (s.prods[s.owner.value].StoreIdle? || s.prods[s.owner.value].Invoke?) ==>
          s.prods[s.owner.value].fn == s.handle)
  }

  /** No suspension is resumed twice. */
  ghost predicate ResumedOnce(s: State) {
    && (forall j, k :: 0 <= j < k < |s.invoked| ==> s.invoked[j] < s.invoked[k])
    && (forall j :: 0 <= j < |s.invoked| ==> s.invoked[j] < s.begun)
    && (s.cons.Publish? || s.word == Waiting || s.owner.Some? || s.overwritten ==>
          forall j :: 0 <= j < |s.invoked| ==> s.invoked[j] < s.begun - 1)
    && (s.wake ==> s.invoked != [] && s.invoked[|s.invoked| - 1] == s.begun - 1)
  }

  ghost predicate Inv(s: State) {
    Owners(s) && OnePlace(s) && Continuation(s) && ResumedOnce(s)
  }

  lemma ProducerOwners(s: State, i: nat, op: Op)
    requires i < |s.prods| && Owners(s) && OnePlace(s)
    ensures Owners(ProducerStep(s, i, op))
  {}

  lemma ProducerOnePlace(s: State, i: nat, op: Op)
    requires i < |s.prods| && Owners(s) && OnePlace(s)
    ensures OnePlace(ProducerStep(s, i, op))
  {}

  lemma ProducerContinuation(s: State, i: nat, op: Op)
    requires i < |s.prods| && Owners(s) && OnePlace(s) && Continuation(s)
    ensures Continuation(ProducerStep(s, i, op))
  {}

  lemma ProducerResumedOnce(s: State, i: nat, op: Op)
    requires i < |s.prods| && Inv(s)
    ensures ResumedOnce(ProducerStep(s, i, op))
  {}

  lemma ConsumerKeeps(s: State)
    requires Inv(s)
    ensures Inv(ConsumerStep(s))
  {
    match s.cons
    case ReadyLoad =>
    case ReadyConsume =>
    case ReadyStopped =>
    case Register =>
    case Publish =>
    case Retract(_) =>
    case Suspended =>
    case Resume =>
  }

  lemma StepKeeps(s: State, t: Turn)
    requires Inv(s)
    ensures Inv(Step(s, t))
  {
    hide Owners, OnePlace, Continuation, ResumedOnce, ProducerStep, ConsumerStep;
    match t
    case Consume =>
      ConsumerKeeps(s);
    case Produce(i, op) =>
      if i < |s.prods| {
        ProducerOwners(s, i, op);
        ProducerOnePlace(s, i, op);
        ProducerContinuation(s, i, op);
        ProducerResumedOnce(s, i, op);
      }
  }

  lemma InitInv(n: nat)
    ensures Inv(Init(n))
  {}

  lemma {:induction false} FromKeeps(s: State, turns: seq<Turn>)
    requires Inv(s)
    ensures Inv(From(s, turns))
    decreases turns
  {
    if turns != [] {
      hide Inv, Step;
      StepKeeps(s, turns[0]);
      FromKeeps(Step(s, turns[0]), turns[1..]);
    }
  }

  /**
   * Whatever the mix of releases and stops, at most one producer at a time owns a
   * continuation, it invokes the one of the suspension begun last, a consumer that
   * is woken has been resumed for that suspension, and no suspension is ever resumed
   * twice.
   */
  lemma AtMostOneResumer(n: nat, turns: seq<Turn>)
    ensures var s := Run(n, turns);
            && (forall i, j :: 0 <= i < j < |s.prods| ==> !(Owning(s.prods[i]) && Owning(s.prods[j])))
            && (forall i :: 0 <= i < |s.prods| && s.prods[i].Invoke? ==> s.prods[i].fn == s.begun - 1 && s.cons != Resume)
            && (s.wake ==> s.begun > 0 && s.begun - 1 in s.invoked)
            && (forall j, k :: 0 <= j < k < |s.invoked| ==> s.invoked[j] != s.invoked[k])
  {
    hide From;
    InitInv(n);
    FromKeeps(Init(n), turns);
    var s := Run(n, turns);
    forall i | 0 <= i < |s.prods| && s.prods[i].Invoke? ensures s.prods[i].fn == s.begun - 1 && s.cons != Resume {
      assert Owning(s.prods[i]);
    }
  }

  // ---- When a consumer is left behind ----

  /** A step that puts the stop back over a registration made in the meantime. */
  predicate Overwrites(s: State, t: Turn) {
    t.Produce? && t.i < |s.prods| && s.prods[t.i].Restore? && s.word == Waiting
  }

  /** About to be: registered, and found that way by the retracting exchange. */
  ghost predicate Lost(s: State) {
    && Registered(s.cons) && s.word != Waiting && !s.wake
    && forall i :: 0 <= i < |s.prods| ==> !Owning(s.prods[i])
  }

  /**
   * A registered consumer loses its wake-up in exactly one kind of step: a release
   * that found the signal stopped puts the stop back over the registration.
   */
  lemma LostExactlyWhenOverwritten(s: State, t: Turn)
    requires Inv(s) && !Lost(s)
    ensures Lost(Step(s, t)) <==> Overwrites(s, t)
  {
    StepKeeps(s, t);
    LostIsOverwritten(s);
    LostIsOverwritten(Step(s, t));
    hide Inv, Lost;
  }

  lemma LostIsOverwritten(s: State)
    requires Inv(s)
    ensures Lost(s) <==> s.overwritten
  {
    if s.owner.Some? {
      assert Owning(s.prods[s.owner.value]);
    }
  }

  /** Nothing that happens afterwards, and no later release or stop, resumes it. */
  lemma {:induction false} LostForever(s: State, turns: seq<Turn>)
    requires Inv(s) && Lost(s)
    ensures Lost(From(s, turns)) && From(s, turns).results == s.results
    decreases turns
  {
    if turns != [] {
      LostOnce(s, turns[0]);
      StepKeeps(s, turns[0]);
      hide Inv, Lost, Step;
      LostForever(Step(s, turns[0]), turns[1..]);
    }
  }

  lemma LostOnce(s: State, t: Turn)
    requires Inv(s) && Lost(s)
    ensures Lost(Step(s, t)) && Step(s, t).results == s.results
  {}

  lemma FromStep(s: State, t: Turn, more: seq<Turn>)
    ensures From(s, [t] + more) == From(Step(s, t), more)
  {
    assert ([t] + more)[1..] == more;
  }

  function Consumes(n: nat): seq<Turn> {
    if n == 0 then [Produce(0, Release)] else [Consume] + Consumes(n - 1)
  }

  lemma {:induction false} ConsumesStep(s: State, n: nat)
    requires n > 0
    ensures From(s, Consumes(n)) == From(ConsumerStep(s), Consumes(n - 1))
  {
    FromStep(s, Consume, Consumes(n - 1));
  }

  /** A release of one that has stopped the signal, while the consumer goes round. */
  function Releasing(word: Word, handle: nat, cons: Consumer, results: seq<bool>): State {
    State(word, handle, false, cons, [Restore], handle, None, [], false, word == Signaled, 1, 1, results)
  }

  lemma RoundSteps()
    ensures ConsumerStep(Releasing(Signaled, 0, ReadyLoad, [])) == Releasing(Signaled, 0, ReadyConsume, [])
    ensures ConsumerStep(Releasing(Signaled, 0, ReadyConsume, [])) == Releasing(Idle, 0, Resume, [])
    ensures ConsumerStep(Releasing(Idle, 0, Resume, [])) == Releasing(Idle, 0, ReadyLoad, [true])
    ensures ConsumerStep(Releasing(Idle, 0, ReadyLoad, [true])) == Releasing(Idle, 0, ReadyStopped, [true])
    ensures ConsumerStep(Releasing(Idle, 0, ReadyStopped, [true])) == Releasing(Idle, 0, Register, [true])
  {}

  lemma GoesRound()
    ensures From(Releasing(Signaled, 0, ReadyLoad, []), Consumes(7))
         == From(Releasing(Idle, 0, Register, [true]), Consumes(2))
  {
    RoundSteps();
    hide From, Consumes, ConsumerStep, Releasing;
    ConsumesStep(Releasing(Signaled, 0, ReadyLoad, []), 7);
    ConsumesStep(Releasing(Signaled, 0, ReadyConsume, []), 6);
    ConsumesStep(Releasing(Idle, 0, Resume, []), 5);
    ConsumesStep(Releasing(Idle, 0, ReadyLoad, [true]), 4);
    ConsumesStep(Releasing(Idle, 0, ReadyStopped, [true]), 3);
  }

  /** Registered while the release has still to restore the stop. */
  function Behind(word: Word, cons: Consumer, prods: seq<Producer>, overwritten: bool): State {
    State(word, 0, false, cons, prods, 1, None, [], overwritten, false, 1, 1, [true])
  }

  lemma Suspends()
    ensures From(Releasing(Idle, 0, Register, [true]), Consumes(2))
         == Behind(Stopped, Suspended, [Off], true)
  {
    assert [Restore][0 := Off] == [Off];
    NoMore(Behind(Stopped, Suspended, [Off], true));
    hide From, Consumes;
    ConsumesStep(Releasing(Idle, 0, Register, [true]), 2);
    ConsumesStep(Behind(Idle, Publish, [Restore], false), 1);
  }

  lemma NoMore(s: State)
    requires s == Behind(Stopped, Suspended, [Off], true)
    ensures From(Behind(Waiting, Suspended, [Restore], false), Consumes(0)) == s
  {
    assert [Restore][0 := Off] == [Off];
    var t := Behind(Waiting, Suspended, [Restore], false);
    assert Step(t, Produce(0, Release)) == s;
    assert Consumes(0)[1..] == [];
  }

  /**
   * A run that comes to that. One producer stops the signal and then releases it.
   * Between the exchange and the store of that release the consumer takes the
   * signal, awaits again and suspends.
   */
  lemma LostRun() returns (turns: seq<Turn>)
    ensures Lost(Run(1, turns)) && Run(1, turns).word == Stopped
  {
    var rest := [Produce(0, Release)] + Consumes(7);
    turns := [Produce(0, Stop)] + rest;
    var s1 := Step(Init(1), Produce(0, Stop));
    assert Init(1).prods == [Off] && [Off][0 := Restore] == [Restore];
    assert Step(s1, Produce(0, Release)) == Releasing(Signaled, 0, ReadyLoad, []);
    hide From, Consumes, Step;
    FromStep(Init(1), Produce(0, Stop), rest);
    FromStep(s1, Produce(0, Release), Consumes(7));
    GoesRound();
    Suspends();
  }

  // ---- Releases only ----

  /** Without a stop: no release that nobody has taken yet is forgotten, and every await succeeds. */
  ghost predicate NeverStopped(s: State) {
    && s.word != Stopped && !s.overwritten
    && (s.cons.Retract? ==> s.cons.restore == Idle)
    && (s.cons.ReadyConsume? ==> s.word == Signaled)
    && (forall i :: 0 <= i < |s.prods| ==> !s.prods[i].Restore? && s.prods[i] != Copy(true))
    && (forall j :: 0 <= j < |s.results| ==> s.results[j])
    && (s.pending ==> s.word == Signaled || s.owner.Some? || s.wake)
  }

  /** A signal that stands for a release of its own: not the one a producer leaves while it still has to store. */
  function Standing(s: State): nat {
    var taking := s.owner.Some? && s.owner.value < |s.prods| && !s.prods[s.owner.value].Invoke?;
    if s.word == Signaled && !taking then 1 else 0
  }

  /** Every wake-up and every signal that waits to be taken is the work of a release of its own. */
  ghost predicate Paid(s: State) {
    |s.results| + Standing(s)
      + (if s.cons == Resume || s.owner.Some? || s.wake || (s.cons.Retract? && s.word == Waiting) then 1 else 0)
      <= s.releases
  }

  predicate Releases(turns: seq<Turn>) {
    forall i :: 0 <= i < |turns| ==> turns[i].Produce? ==> turns[i].op == Release
  }

  lemma ReleaseKeeps(s: State, t: Turn)
    requires Inv(s) && NeverStopped(s) && (t.Produce? ==> t.op == Release)
    ensures NeverStopped(Step(s, t))
  {}

  lemma ReleasePaid(s: State, t: Turn)
    requires Inv(s) && NeverStopped(s) && Paid(s) && (t.Produce? ==> t.op == Release)
    ensures Paid(Step(s, t))
  {}

  lemma {:induction false} FromReleases(s: State, turns: seq<Turn>)
    requires Inv(s) && NeverStopped(s) && Paid(s) && Releases(turns)
    ensures Inv(From(s, turns)) && NeverStopped(From(s, turns)) && Paid(From(s, turns))
    decreases turns
  {
    if turns != [] {
      hide Inv, NeverStopped, Paid, Step;
      StepKeeps(s, turns[0]);
      ReleaseKeeps(s, turns[0]);
      ReleasePaid(s, turns[0]);
      FromReleases(Step(s, turns[0]), turns[1..]);
    }
  }

  /**
   * In a run of releases only, a suspended consumer either waits and no release
   * has happened since it last took one, or is being resumed by exactly one
   * producer; every await succeeds, and takes a release of its own.
   */
  lemma ReleasesAreNotForgotten(n: nat, turns: seq<Turn>)
    requires Releases(turns)
    ensures var s := Run(n, turns);
            && (s.cons.Suspended? ==>
                  (s.word == Waiting && !s.pending && s.owner.None? && !s.wake)
                  || (s.word != Waiting && (s.owner.Some? != s.wake)))
            && (s.pending && !Registered(s.cons) ==> s.word == Signaled)
            && (forall j :: 0 <= j < |s.results| ==> s.results[j])
            && |s.results| <= s.releases
  {
    InitInv(n);
    FromReleases(Init(n), turns);
    hide From, Owners, Continuation, ResumedOnce;
  }

  /** How many turns of a run may begin a release. */
  function ReleaseTurns(turns: seq<Turn>): nat {
    if turns == [] then 0 else ReleaseTurns(turns[1..]) + if turns[0].Produce? && turns[0].op == Release then 1 else 0
  }

  lemma ReleasesStep(s: State, t: Turn)
    ensures Step(s, t).releases <= s.releases + if t.Produce? && t.op == Release then 1 else 0
  {}

  lemma {:induction false} ReleasesCounted(s: State, turns: seq<Turn>)
    ensures From(s, turns).releases <= s.releases + ReleaseTurns(turns)
    decreases turns
  {
    if turns != [] {
      ReleasesStep(s, turns[0]);
      hide Step;
      ReleasesCounted(Step(s, turns[0]), turns[1..]);
    }
  }

  /** With releases only no more awaits come back than there were releases. */
  lemma OneReleaseEach(n: nat, turns: seq<Turn>)
    requires Releases(turns)
    ensures |Run(n, turns).results| <= ReleaseTurns(turns)
  {
    ReleasesAreNotForgotten(n, turns);
    ReleasesCounted(Init(n), turns);
    hide From, ReleaseTurns, Releases;
  }

  /** An await reports a stop only if there was one. */
  lemma FalseNeedsStop(n: nat, turns: seq<Turn>, j: nat)
    requires j < |Run(n, turns).results| && Run(n, turns).results[j] == false
    ensures exists i :: 0 <= i < |turns| && turns[i].Produce? && turns[i].op == Stop
  {
    if Releases(turns) {
      ReleasesAreNotForgotten(n, turns);
    }
  }

  // ---- An await goes on ----

  /** How many turns an await that is not suspended needs at most. */
  function TurnsToGo(c: Consumer): nat {
    match c
    case ReadyLoad => 6
    case ReadyStopped => 5
    case Register => 4
    case Publish => 3
    case Retract(_) => 2
    case ReadyConsume => 2
    case Resume => 1
    case Suspended => 0
  }

  lemma GoingStep(s: State, t: Turn)
    requires !s.cons.Suspended?
    ensures var s' := Step(s, t);
            if t.Consume? then
              if s.cons == Resume then s'.cons == ReadyLoad && s'.results == s.results + [s.word != Stopped]
              else s'.results == s.results && TurnsToGo(s'.cons) < TurnsToGo(s.cons)
            else s'.cons == s.cons && s'.results == s.results
  {}

  /** Whatever the producers do, six turns of the consumer suspend it or end its await. */
  lemma {:induction false} AwaitGoesOn(s: State, turns: seq<Turn>) returns (k: nat)
    requires !s.cons.Suspended? && Consumptions(turns) >= TurnsToGo(s.cons)
    ensures k <= |turns|
    ensures var e := From(s, turns[..k]); e.cons.Suspended? || |e.results| == |s.results| + 1
    ensures TurnsToGo(s.cons) <= 6
    decreases turns
  {
    var t := turns[0];
    var s' := Step(s, t);
    GoingStep(s, t);
    if s'.cons.Suspended? || |s'.results| > |s.results| {
      k := 1;
      assert turns[..1] == [t] && [t][1..] == [];
      assert From(s, [t]) == From(s', []);
    } else {
      hide Step;
      k := AwaitGoesOn(s', turns[1..]);
      k := k + 1;
      assert turns[..k] == [t] + turns[1..][..k - 1];
      FromStep(s, t, turns[1..][..k - 1]);
    }
  }

  // ---- What an await reports ----

  /** The signal is stopped, and no release is under way. */
  ghost predicate Quiet(s: State) {
    && (s.word == Stopped || (s.word == Waiting && s.cons == Retract(Stopped)))
    && (s.cons.Retract? ==> s.cons.restore == Stopped)
    && forall i :: 0 <= i < |s.prods| ==> s.prods[i] == Off || s.prods[i] == Copy(true) || s.prods[i].Invoke?
  }

  predicate NoRelease(turns: seq<Turn>) {
    forall i :: 0 <= i < |turns| && turns[i].Produce? ==> turns[i].op != Release
  }

  lemma QuietStep(s: State, t: Turn)
    requires Quiet(s) && (t.Produce? ==> t.op != Release)
    ensures Quiet(Step(s, t))
    ensures Step(s, t).results == s.results + if t.Consume? && s.cons == Resume then [false] else []
  {}

  /** As long as nothing is released after a stop, no await succeeds. */
  lemma {:induction false} StoppedForGood(s: State, turns: seq<Turn>)
    requires Quiet(s) && NoRelease(turns)
    ensures var e := From(s, turns);
            && Quiet(e) && |s.results| <= |e.results| && e.results[..|s.results|] == s.results
            && forall j :: |s.results| <= j < |e.results| ==> !e.results[j]
    decreases turns
  {
    if turns != [] {
      QuietStep(s, turns[0]);
      hide Quiet, Step;
      StoppedForGood(Step(s, turns[0]), turns[1..]);
    }
  }

  function Consumptions(turns: seq<Turn>): nat {
    if turns == [] then 0 else Consumptions(turns[1..]) + if turns[0].Consume? then 1 else 0
  }

  /** How far the consumer is on the way through an await that finds the signal stopped. */
  function Through(c: Consumer): nat {
    match c case ReadyStopped => 1 case Resume => 2 case _ => 0
  }

  lemma AtOnceStep(s: State, t: Turn)
    requires Quiet(s) && (s.cons == ReadyLoad || s.cons == ReadyStopped || s.cons == Resume) && (t.Produce? ==> t.op != Release)
    ensures var s' := Step(s, t);
            && (s'.cons == ReadyLoad || s'.cons == ReadyStopped || s'.cons == Resume)
            && 3 * |s'.results| + Through(s'.cons) == 3 * |s.results| + Through(s.cons) + if t.Consume? then 1 else 0
  {}

  /**
   * While the signal is stopped and nothing is released, an await never suspends: every
   * three turns of the consumer are an await that reports false.
   */
  lemma {:induction false} StoppedAtOnce(s: State, turns: seq<Turn>)
    requires Quiet(s) && (s.cons == ReadyLoad || s.cons == ReadyStopped || s.cons == Resume) && NoRelease(turns)
    ensures var e := From(s, turns);
            && 3 * |e.results| + Through(e.cons) == 3 * |s.results| + Through(s.cons) + Consumptions(turns)
            && (e.cons == ReadyLoad || e.cons == ReadyStopped || e.cons == Resume)
            && |s.results| <= |e.results| && e.results[..|s.results|] == s.results
            && forall j :: |s.results| <= j < |e.results| ==> e.results[j] == false
    decreases turns
  {
    StoppedForGood(s, turns);
    if turns != [] {
      QuietStep(s, turns[0]);
      AtOnceStep(s, turns[0]);
      hide Quiet, Step, Through;
      StoppedAtOnce(Step(s, turns[0]), turns[1..]);
    }
  }

  // ---- A consumer that is being resumed ----

  function TurnsOf(i: nat, turns: seq<Turn>): nat {
    if turns == [] then 0 else TurnsOf(i, turns[1..]) + if turns[0].Produce? && turns[0].i == i then 1 else 0
  }

  /** The consumer is suspended, and its wake-up has come or is with producer `i`. */
  ghost predicate Waking(s: State, i: nat) {
    s.cons.Suspended? && (s.wake || (i < |s.prods| && Owning(s.prods[i])))
  }

  function StepsToWake(s: State, i: nat): nat {
    if s.wake || i >= |s.prods| then 0
    else match s.prods[i] case Copy(stopping) => (if stopping then 2 else 3) case StoreIdle(_) => 2 case Invoke(_) => 1 case _ => 0
  }

  lemma WakingStep(s: State, t: Turn, i: nat)
    requires Waking(s, i)
    ensures var s' := Step(s, t);
            if t.Consume? && s.wake then s'.cons == Resume
            else
              && Waking(s', i) && StepsToWake(s', i) <= StepsToWake(s, i)
              && (t.Produce? && t.i == i && !s.wake ==> StepsToWake(s', i) < StepsToWake(s, i))
  {}

  /** Whatever comes between, three turns of that producer and one of its own resume it. */
  lemma {:induction false} WakingResumes(s: State, i: nat, before: seq<Turn>) returns (k: nat)
    requires Waking(s, i) && TurnsOf(i, before) >= StepsToWake(s, i)
    ensures k <= |before| + 1 && From(s, (before + [Consume])[..k]).cons == Resume
    decreases before
  {
    var all := before + [Consume];
    assert StepsToWake(s, i) == 0 ==> s.wake;
    WakingStep(s, all[0], i);
    var s' := Step(s, all[0]);
    if s'.cons == Resume {
      k := 1;
      assert all[..1] == [all[0]] && [all[0]][1..] == [];
      assert From(s, [all[0]]) == From(s', []);
    } else {
      assert before != [];
      hide Step, StepsToWake, Waking;
      k := WakingResumes(s', i, before[1..]);
      assert all[..k + 1] == [all[0]] + (before[1..] + [Consume])[..k];
      assert ([all[0]] + (before[1..] + [Consume])[..k])[1..] == (before[1..] + [Consume])[..k];
      k := k + 1;
    }
  }

  /**
   * A consumer that is suspended when a stop takes its callback is resumed, and its
   * await reports false, if nothing is released after that.
   */
  lemma StopWakes(s: State, i: nat, before: seq<Turn>) returns (k: nat)
    requires Quiet(s) && s.cons.Suspended? && i < |s.prods| && s.prods[i] == Copy(true)
    requires NoRelease(before) && TurnsOf(i, before) >= 2
    ensures k <= |before| + 1
    ensures var e := From(s, (before + [Consume])[..k]);
            e.cons == Resume && Step(e, Consume).results == e.results + [false] && Step(e, Consume).cons == ReadyLoad
  {
    k := WakingResumes(s, i, before);
    var turns := (before + [Consume])[..k];
    assert NoRelease(turns);
    StoppedForGood(s, turns);
    hide From;
    QuietStep(From(s, turns), Consume);
  }

  /** The stop that does so: it finds the consumer registered, and leaves the signal stopped. */
  lemma StopTakes(n: nat, turns: seq<Turn>, i: nat)
    requires var s := Run(n, turns); s.word == Waiting && s.cons.Suspended? && i < |s.prods| && s.prods[i] == Off
    requires var s := Run(n, turns);
             forall j :: 0 <= j < |s.prods| ==> s.prods[j] == Off || s.prods[j] == Copy(true) || s.prods[j].Invoke?
    ensures var e := Step(Run(n, turns), Produce(i, Stop));
            Quiet(e) && e.cons.Suspended? && i < |e.prods| && e.prods[i] == Copy(true)
  {
    hide Run, From;
  }

  /** In a run of releases only, a release that takes the callback of a suspended consumer makes its await report true. */
  lemma ReleaseWakes(n: nat, turns: seq<Turn>, i: nat, before: seq<Turn>) returns (k: nat)
    requires Releases(turns) && Releases(before) && TurnsOf(i, before) >= 3
    requires var s := Run(n, turns); s.cons.Suspended? && i < |s.prods| && s.prods[i] == Copy(false)
    ensures k <= |before| + 1
    ensures var e := From(Run(n, turns), (before + [Consume])[..k]);
            e.cons == Resume && Step(e, Consume).results == e.results + [true]
  {
    var s := Run(n, turns);
    k := WakingResumes(s, i, before);
    var more := (before + [Consume])[..k];
    InitInv(n);
    FromReleases(Init(n), turns);
    assert Releases(more);
    FromReleases(s, more);
    hide From, Run, Inv, Paid;
  }
}
