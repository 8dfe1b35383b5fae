/**
 * `ServiceBuilder` and the lookup in `HttpService`: registrations hand out ids to
 * the router's entries, handlers are kept by id and method, and a request finds the
 * handler of the entry its path is routed to.
 */
module Service {
  import opened Basics
  import opened Router

  /** A request method; handlers for `Unknown` serve every method. */
  datatype Method = Unknown | Known(code: nat)

  /** What a registration is for. */
  datatype Key = Exact(segs: seq<Segment>) | Prefix(segs: seq<Segment>)

  datatype Registration<+H> = Registration(key: Key, verb: Method, handler: H)

  // ---- What the registrations mean ----

  predicate Registered<H>(log: seq<Registration<H>>, key: Key) {
    exists i :: 0 <= i < |log| && log[i].key == key
  }

  /** The first handler registered for a key and a method. */
  function First<H>(log: seq<Registration<H>>, key: Key, verb: Method): Option<H> {
    if log == [] then None
    else
      var r := log[|log| - 1];
      var before := First(log[..|log| - 1], key, verb);
      if before.Some? then before
      else if r.key == key && r.verb == verb then Some(r.handler) else None
  }

  /** The longest of the first `d` prefixes that is registered. */
  function LongestRegistered<H>(log: seq<Registration<H>>, segs: seq<Segment>, d: nat): (k: Option<nat>)
    requires d <= |segs|
    ensures k.Some? ==> k.value <= d
  {
    if Registered(log, Prefix(segs[..d])) then Some(d)
    else if d == 0 then None else LongestRegistered(log, segs, d - 1)
  }

  /** What a request comes to: nothing, a handler and the rest of the path, or a failed assertion. */
  datatype Outcome<+H> = NotFound | Handled(handler: H, rest: Path) | NoHandler

  /** The handler for the method, or else the one for every method. */
  function Pick<H>(log: seq<Registration<H>>, key: Key, verb: Method, rest: Path): Outcome<H> {
    match First(log, key, verb)
    case Some(h) => Handled(h, rest)
    case None =>
      match First(log, key, Unknown)
      case Some(h) => Handled(h, rest)
      case None => NoHandler
  }

  /** The registered entry a path goes to, and how many segments lead to the node that has it. */
  datatype Target = Target(key: Key, depth: nat)

  /** A path that is registered as a whole goes there; any other to its longest registered prefix. */
  function RoutedTo<H>(log: seq<Registration<H>>, segs: seq<Segment>): (t: Option<Target>)
    requires segs != []
    ensures t.Some? ==> t.value.depth < |segs|
  {
    if Registered(log, Exact(segs)) then Some(Target(Exact(segs), |segs| - 1))
    else match LongestRegistered(log, segs, |segs| - 1)
         case Some(d) => Some(Target(Prefix(segs[..d]), d))
         case None => None
  }

  function Dispatched<H>(log: seq<Registration<H>>, verb: Method, path: Path): Outcome<H> {
    if !Rooted(path) then NotFound
    else
      var segs := Segments(path);
      match RoutedTo(log, segs)
      case Some(t) => Pick(log, t.key, verb, Join(segs[t.depth..]))
      case None => NotFound
  }

  /** `log[i]` is the first registration for its key and its method. */
  ghost predicate IsFirst<H>(log: seq<Registration<H>>, key: Key, verb: Method, i: nat) {
    && i < |log| && log[i].key == key && log[i].verb == verb
    && forall j :: 0 <= j < i ==> log[j].key != key || log[j].verb != verb
  }

  /** The handler that counts is that of the first registration, and there is none only if there was none. */
  lemma {:induction false} FirstIsFirst<H>(log: seq<Registration<H>>, key: Key, verb: Method) returns (i: nat)
    ensures First(log, key, verb).Some? ==> IsFirst(log, key, verb, i) && First(log, key, verb) == Some(log[i].handler)
    ensures First(log, key, verb).None? ==> forall j :: 0 <= j < |log| ==> log[j].key != key || log[j].verb != verb
  {
    i := 0;
    if log != [] {
      var n := |log| - 1;
      var before := log[..n];
      i := FirstIsFirst(before, key, verb);
      assert forall j :: 0 <= j < n ==> before[j] == log[j];
      if First(before, key, verb).None? {
        i := n;
      }
    }
  }

  /** The first registration of a pattern and a method is the one that counts. */
  lemma FirstWins<H>(log: seq<Registration<H>>, r: Registration<H>, key: Key, verb: Method)
    ensures First(log + [r], key, verb) ==
              if First(log, key, verb).Some? then First(log, key, verb)
              else if r.key == key && r.verb == verb then Some(r.handler) else None
    ensures Registered(log + [r], key) <==> Registered(log, key) || r.key == key
  {
    assert (log + [r])[..|log|] == log && (log + [r])[|log|] == r;
    assert forall i :: 0 <= i < |log| ==> (log + [r])[i] == log[i];
  }

  lemma OneMorePattern<H>(log: seq<Registration<H>>, r: Registration<H>, verb: Method, path: Path)
    requires Rooted(path) && Registered(log, Exact(Segments(path))) && r.key != Exact(Segments(path))
    ensures Registered(log + [r], Exact(Segments(path)))
    ensures Dispatched(log + [r], verb, path) == Dispatched(log, verb, path)
  {
    hide Segments, Registered, First, Join, LongestRegistered;
    FirstWins(log, r, Exact(Segments(path)), verb);
    FirstWins(log, r, Exact(Segments(path)), Unknown);
  }

  /** Other patterns, however many, change nothing for a path that is registered as a whole. */
  lemma {:induction false} NoInterference<H>(log: seq<Registration<H>>, more: seq<Registration<H>>, verb: Method, path: Path)
    requires Rooted(path) && Registered(log, Exact(Segments(path)))
    requires forall i :: 0 <= i < |more| ==> more[i].key != Exact(Segments(path))
    ensures Registered(log + more, Exact(Segments(path)))
    ensures Dispatched(log + more, verb, path) == Dispatched(log, verb, path)
    decreases more
  {
    if more == [] {
      assert log + more == log;
    } else {
      hide Segments, Registered, First, Join, Dispatched;
      OneMorePattern(log, more[0], verb, path);
      assert log + more == log + [more[0]] + more[1..];
      NoInterference(log + [more[0]], more[1..], verb, path);
    }
  }

  /** Nothing in `r` is the path or one of the prefixes it can fall back to. */
  predicate Foreign<H>(r: Registration<H>, segs: seq<Segment>) {
    r.key != Exact(segs) && forall j :: 0 <= j < |segs| ==> r.key != Prefix(segs[..j])
  }

  lemma {:induction false} OtherPrefix<H>(log: seq<Registration<H>>, r: Registration<H>, segs: seq<Segment>, d: nat)
    requires d < |segs| && Foreign(r, segs)
    ensures LongestRegistered(log + [r], segs, d) == LongestRegistered(log, segs, d)
  {
    FirstWins(log, r, Prefix(segs[..d]), Unknown);
    if d > 0 {
      OtherPrefix(log, r, segs, d - 1);
    }
  }

  lemma OneMoreForeign<H>(log: seq<Registration<H>>, r: Registration<H>, verb: Method, path: Path)
    requires Rooted(path) && Foreign(r, Segments(path))
    ensures Dispatched(log + [r], verb, path) == Dispatched(log, verb, path)
  {
    hide Segments, Registered, First, Join;
    var segs := Segments(path);
    FirstWins(log, r, Exact(segs), Unknown);
    OtherPrefix(log, r, segs, |segs| - 1);
    hide LongestRegistered;
    if RoutedTo(log, segs).Some? {
      var key := RoutedTo(log, segs).value.key;
      FirstWins(log, r, key, verb);
      FirstWins(log, r, key, Unknown);
    }
  }

  /** Whatever a path is dispatched to, registrations of neither it nor one of its prefixes change that. */
  lemma {:induction false} ForeignChangesNothing<H>(log: seq<Registration<H>>, more: seq<Registration<H>>, verb: Method, path: Path)
    requires Rooted(path) && forall i :: 0 <= i < |more| ==> Foreign(more[i], Segments(path))
    ensures Dispatched(log + more, verb, path) == Dispatched(log, verb, path)
    decreases more
  {
    if more == [] {
      assert log + more == log;
    } else {
      hide Segments, Dispatched, Foreign;
      assert Foreign(more[0], Segments(path));
      OneMoreForeign(log, more[0], verb, path);
      assert log + more == log + [more[0]] + more[1..];
      ForeignChangesNothing(log + [more[0]], more[1..], verb, path);
    }
  }

  /** The lookup fails exactly when the entry the path is routed to serves neither the method nor all of them. */
  lemma FailsExactly<H>(log: seq<Registration<H>>, verb: Method, path: Path)
    requires Rooted(path) && forall i :: 0 <= i < |log| && log[i].key.Prefix? ==> log[i].verb == Unknown
    ensures Dispatched(log, verb, path) == NoHandler <==>
              && Registered(log, Exact(Segments(path)))
              && First(log, Exact(Segments(path)), verb).None? && First(log, Exact(Segments(path)), Unknown).None?
  {
    var segs := Segments(path);
    var d := LongestRegistered(log, segs, |segs| - 1);
    if d.Some? {
      LongestIsRegistered(log, segs, |segs| - 1);
      PrefixesServeAll(log, Prefix(segs[..d.value]));
    }
  }

  /** The prefix chosen is registered and no longer one is; none is chosen only if none is registered. */
  lemma {:induction false} LongestIsLongest<H>(log: seq<Registration<H>>, segs: seq<Segment>, d: nat)
    requires d <= |segs|
    ensures match LongestRegistered(log, segs, d)
            case Some(k) => Registered(log, Prefix(segs[..k])) && forall j :: k < j <= d ==> !Registered(log, Prefix(segs[..j]))
            case None => forall j :: 0 <= j <= d ==> !Registered(log, Prefix(segs[..j]))
  {
    if d > 0 {
      LongestIsLongest(log, segs, d - 1);
    }
  }

  /** The path goes to its prefix of `d` segments: that one is registered and no longer one is. */
  ghost predicate FallsTo<H>(log: seq<Registration<H>>, segs: seq<Segment>, d: nat)
    requires d < |segs|
  {
    Registered(log, Prefix(segs[..d])) && forall j :: d < j < |segs| ==> !Registered(log, Prefix(segs[..j]))
  }

  /**
   * A path that is not registered as a whole goes to the prefix of `d` segments if
   * and only if that is the longest one registered, and hands on what follows it.
   */
  lemma FallsBackExactly<H>(log: seq<Registration<H>>, segs: seq<Segment>, d: nat)
    requires d < |segs| && !Registered(log, Exact(segs))
    ensures RoutedTo(log, segs) == Some(Target(Prefix(segs[..d]), d)) <==> FallsTo(log, segs, d)
  {
    LongestIsLongest(log, segs, |segs| - 1);
  }

  /** The entry a path goes to: the one for the whole path, or else the one for its longest registered prefix. */
  ghost predicate GoesTo<H>(log: seq<Registration<H>>, segs: seq<Segment>, key: Key, depth: nat)
    requires segs != []
  {
    if Registered(log, Exact(segs)) then key == Exact(segs) && depth == |segs| - 1
    else depth < |segs| && key == Prefix(segs[..depth]) && FallsTo(log, segs, depth)
  }

  /** No registration for that key and that method. */
  ghost predicate NoneFor<H>(log: seq<Registration<H>>, key: Key, verb: Method) {
    forall j :: 0 <= j < |log| ==> log[j].key != key || log[j].verb != verb
  }

  lemma FirstAt<H>(log: seq<Registration<H>>, key: Key, verb: Method, i: nat)
    ensures IsFirst(log, key, verb, i) ==> First(log, key, verb) == Some(log[i].handler)
    ensures NoneFor(log, key, verb) ==> First(log, key, verb) == None
  {
    var k := FirstIsFirst(log, key, verb);
    hide First;
    if IsFirst(log, key, verb, i) && First(log, key, verb).Some? {
      assert !(k < i) && !(i < k);
    }
  }

  /**
   * A request goes to the first registration of its entry for its own method,
   * whatever is registered for every method; only without one to the first for every
   * method; and with neither the lookup fails. The handler gets the path behind the
   * node of that entry.
   */
  lemma DispatchedExactly<H>(log: seq<Registration<H>>, verb: Method, path: Path, key: Key, depth: nat, i: nat)
    requires Rooted(path) && GoesTo(log, Segments(path), key, depth)
    ensures var segs := Segments(path);
            && depth < |segs|
            && (IsFirst(log, key, verb, i) ==>
                  Dispatched(log, verb, path) == Handled(log[i].handler, Join(segs[depth..])))
            && (NoneFor(log, key, verb) && IsFirst(log, key, Unknown, i) ==>
                  Dispatched(log, verb, path) == Handled(log[i].handler, Join(segs[depth..])))
            && (NoneFor(log, key, verb) && NoneFor(log, key, Unknown) ==> Dispatched(log, verb, path) == NoHandler)
  {
    var segs := Segments(path);
    if !Registered(log, Exact(segs)) {
      FallsBackExactly(log, segs, depth);
    }
    FirstAt(log, key, verb, i);
    FirstAt(log, key, Unknown, i);
    hide Segments, Join, First, Registered, LongestRegistered, IsFirst, NoneFor, FallsTo;
  }

  lemma NowhereExactly<H>(log: seq<Registration<H>>, segs: seq<Segment>)
    requires segs != []
    ensures RoutedTo(log, segs) == None <==>
              !Registered(log, Exact(segs)) && forall d :: 0 <= d < |segs| ==> !Registered(log, Prefix(segs[..d]))
  {
    LongestIsLongest(log, segs, |segs| - 1);
    hide Registered, LongestRegistered;
  }

  /** No registration is for the path or one of its prefixes. */
  lemma AllForeign<H>(log: seq<Registration<H>>, segs: seq<Segment>)
    ensures !Registered(log, Exact(segs)) && (forall d :: 0 <= d < |segs| ==> !Registered(log, Prefix(segs[..d])))
            <==> forall i :: 0 <= i < |log| ==> Foreign(log[i], segs)
  {
    if forall i :: 0 <= i < |log| ==> Foreign(log[i], segs) {
      forall d | 0 <= d < |segs| ensures !Registered(log, Prefix(segs[..d])) {}
    }
    if !Registered(log, Exact(segs)) && forall d :: 0 <= d < |segs| ==> !Registered(log, Prefix(segs[..d])) {
      forall i, d | 0 <= i < |log| && 0 <= d < |segs| ensures log[i].key != Prefix(segs[..d]) {
        assert !Registered(log, Prefix(segs[..d]));
      }
    }
  }

  /** Nothing is found exactly for a path that does not begin with a slash, such as "*", or when neither it nor a prefix of it is registered. */
  lemma NotFoundExactly<H>(log: seq<Registration<H>>, verb: Method, path: Path)
    ensures Dispatched(log, verb, path) == NotFound <==>
              path == "" || path[0] != '/' || forall i :: 0 <= i < |log| ==> Foreign(log[i], Segments(path))
  {
    if !Rooted(path) {
      return;
    }
    NowhereExactly(log, Segments(path));
    AllForeign(log, Segments(path));
    hide Segments, Join, First, RoutedTo, Registered, Foreign;
  }

  /** The path goes to a prefix of fewer than `own` segments. */
  ghost predicate GoesShort<H>(log: seq<Registration<H>>, segs: seq<Segment>, own: nat)
    requires own < |segs|
  {
    exists d :: 0 <= d < own && RoutedTo(log, segs) == Some(Target(Prefix(segs[..d]), d))
  }

  /** Some prefix of fewer than `own` segments is registered. */
  ghost predicate HasShorter<H>(log: seq<Registration<H>>, segs: seq<Segment>, own: nat)
    requires own < |segs|
  {
    exists d :: 0 <= d < own && Registered(log, Prefix(segs[..d]))
  }

  lemma GoesShortExactly<H>(log: seq<Registration<H>>, segs: seq<Segment>)
    requires segs != [] && !Registered(log, Exact(segs))
    ensures GoesShort(log, segs, |segs| - 1) <==>
              !Registered(log, Prefix(segs[..|segs| - 1])) && HasShorter(log, segs, |segs| - 1)
  {
    hide Registered;
    var own := |segs| - 1;
    LongestIsLongest(log, segs, own);
    var k := LongestRegistered(log, segs, own);
    hide LongestRegistered;
    if k.Some? {
      assert RoutedTo(log, segs) == Some(Target(Prefix(segs[..k.value]), k.value));
    }
  }

  /**
   * A path with a final slash that is not registered as a whole goes to a prefix
   * shorter than its own if and only if its own is not registered and some shorter
   * one is. The handler of that prefix then gets everything behind it.
   */
  lemma TrailingSlash<H>(log: seq<Registration<H>>, verb: Method, path: Path)
    requires Rooted(path) && path[|path| - 1] == '/' && !Registered(log, Exact(Segments(path)))
    ensures PrefixSegments(path) == Segments(path)[..|Segments(path)| - 1]
    ensures var segs := Segments(path);
            GoesShort(log, segs, |segs| - 1) <==>
              !Registered(log, Prefix(PrefixSegments(path))) && HasShorter(log, segs, |segs| - 1)
    ensures var segs := Segments(path);
            forall d :: 0 <= d < |segs| && FallsTo(log, segs, d) ==>
              Dispatched(log, verb, path) == Pick(log, Prefix(segs[..d]), verb, Join(segs[d..]))
  {
    LastSegment(path);
    hide Segments, Registered, First, Join, Pick, GoesShort, HasShorter, LongestRegistered, FallsTo;
    var segs := Segments(path);
    GoesShortExactly(log, segs);
    forall d | 0 <= d < |segs| && FallsTo(log, segs, d)
      ensures Dispatched(log, verb, path) == Pick(log, Prefix(segs[..d]), verb, Join(segs[d..]))
    {
      FallsBackExactly(log, segs, d);
    }
  }

  lemma OnlyRegistered<H>(r: Registration<H>, key: Key, verb: Method)
    ensures Registered([r], key) <==> key == r.key
    ensures First([r], key, verb) == if key == r.key && verb == r.verb then Some(r.handler) else None
  {
    assert [r][..0] == [] && [r][0] == r;
  }

  /**
   * With a handler for "/" alone, it gets every path, "/foo/bar/" included, against
   * the documented order, in which that one is matched by nothing but itself.
   */
  lemma RootServesAll<H>(h: H, verb: Method, path: Path)
    requires Rooted(path)
    ensures Dispatched([Registration(Prefix([]), Unknown, h)], verb, path) == Handled(h, path)
  {
    var r, segs := Registration(Prefix([]), Unknown, h), Segments(path);
    JoinSegments(path);
    assert segs[0..] == segs && segs[..0] == [];
    hide Segments, Registered, First, Join;
    OnlyRegistered(r, Exact(segs), verb);
    OnlyRegistered(r, Prefix([]), verb);
    OnlyRegistered(r, Prefix([]), Unknown);
    forall j | 0 < j < |segs| ensures !Registered([r], Prefix(segs[..j])) {
      OnlyRegistered(r, Prefix(segs[..j]), verb);
      assert |segs[..j]| == j;
    }
    FallsBackExactly([r], segs, 0);
  }

  lemma {:induction false} LongestIsRegistered<H>(log: seq<Registration<H>>, segs: seq<Segment>, d: nat)
    requires d <= |segs| && LongestRegistered(log, segs, d).Some?
    ensures Registered(log, Prefix(segs[..LongestRegistered(log, segs, d).value]))
  {
    if !Registered(log, Prefix(segs[..d])) {
      LongestIsRegistered(log, segs, d - 1);
    }
  }

  lemma {:induction false} PrefixesServeAll<H>(log: seq<Registration<H>>, key: Key)
    requires Registered(log, key) && key.Prefix?
    requires forall i :: 0 <= i < |log| && log[i].key.Prefix? ==> log[i].verb == Unknown
    ensures First(log, key, Unknown).Some?
  {
    var before, r := log[..|log| - 1], log[|log| - 1];
    if r.key != key {
      var i :| 0 <= i < |log| && log[i].key == key;
      assert before[i].key == key;
      PrefixesServeAll(before, key);
    }
  }

  // ---- What the builder keeps ----

  function IdOf(n: Node, key: Key): nat {
    match key
    case Exact(segs) => IdAt(n, segs)
    case Prefix(segs) => PrefixAt(n, segs)
  }

  /** Registered entries have ids, different ones different ids, below the next one. */
  ghost predicate Numbered<H>(n: Node, next: nat, log: seq<Registration<H>>) {
    && next > 0
    && (forall segs :: ExactAt(n, segs) != Some(0))
    && (forall key: Key {:trigger IdOf(n, key)} :: (IdOf(n, key) != 0 <==> Registered(log, key)) && IdOf(n, key) < next)
    && forall key: Key, key': Key {:trigger IdOf(n, key), IdOf(n, key')} ::
         IdOf(n, key) == IdOf(n, key') != 0 ==> key == key'
  }

  /** The handlers are the first ones registered. */
  ghost predicate Stored<H>(n: Node, next: nat, handlers: map<(nat, Method), H>, log: seq<Registration<H>>) {
    && (forall e :: e in handlers ==> e.0 < next)
    && forall key: Key, verb {:trigger First(log, key, verb)} :: Registered(log, key) ==>
         First(log, key, verb) == if (IdOf(n, key), verb) in handlers then Some(handlers[(IdOf(n, key), verb)]) else None
  }

  /** Two tries that read the same but for the id of one key. */
  ghost predicate Renumbered(n: Node, n': Node, key: Key, id: nat) {
    forall k: Key {:trigger IdOf(n', k)} :: IdOf(n', k) == if k == key then id else IdOf(n, k)
  }

  /** Reading the trie flat is reading the registrations. */
  lemma {:induction false} LongestAgrees<H>(n: Node, next: nat, log: seq<Registration<H>>, segs: seq<Segment>, d: nat)
    requires Numbered(n, next, log) && d <= |segs|
    ensures LongestPrefix(n, segs, d) == LongestRegistered(log, segs, d)
  {
    assert IdOf(n, Prefix(segs[..d])) == PrefixAt(n, segs[..d]);
    if d > 0 {
      LongestAgrees(n, next, log, segs, d - 1);
    }
  }

  lemma FlatAgrees<H>(n: Node, next: nat, log: seq<Registration<H>>, segs: seq<Segment>)
    requires Numbered(n, next, log) && segs != []
    ensures Flat(n, segs) ==
              if Registered(log, Exact(segs)) then Some(Match(IdOf(n, Exact(segs)), |segs| - 1, true))
              else match LongestRegistered(log, segs, |segs| - 1)
                   case Some(d) => Some(Match(IdOf(n, Prefix(segs[..d])), d, false))
                   case None => None
    ensures !Registered(log, Exact(segs)) && LongestRegistered(log, segs, |segs| - 1).Some? ==>
              Registered(log, Prefix(segs[..LongestRegistered(log, segs, |segs| - 1).value]))
  {
    assert IdOf(n, Exact(segs)) == IdAt(n, segs);
    LongestAgrees(n, next, log, segs, |segs| - 1);
    if LongestRegistered(log, segs, |segs| - 1).Some? {
      LongestIsRegistered(log, segs, |segs| - 1);
    }
  }

  lemma NumberedStep<H>(n: Node, n': Node, next: nat, next': nat, log: seq<Registration<H>>, r: Registration<H>, id: nat)
    requires Numbered(n, next, log) && Renumbered(n, n', r.key, id)
    requires if IdOf(n, r.key) != 0 then id == IdOf(n, r.key) && next' == next else id == next && next' == next + 1
    requires forall segs :: ExactAt(n', segs) != Some(0)
    ensures Numbered(n', next', log + [r])
  {
    forall key: Key ensures (IdOf(n', key) != 0 <==> Registered(log + [r], key)) && IdOf(n', key) < next' {
      FirstWins(log, r, key, Unknown);
      assert IdOf(n, key) < next;
    }
  }

  lemma StoredStep<H>(n: Node, n': Node, next: nat, next': nat, handlers: map<(nat, Method), H>,
                      log: seq<Registration<H>>, r: Registration<H>, id: nat)
    requires Numbered(n, next, log) && Stored(n, next, handlers, log) && Renumbered(n, n', r.key, id)
    requires if IdOf(n, r.key) != 0 then id == IdOf(n, r.key) && next' == next else id == next && next' == next + 1
    ensures var handlers' := if (id, r.verb) in handlers then handlers else handlers[(id, r.verb) := r.handler];
            Stored(n', next', handlers', log + [r])
  {
    var handlers' := if (id, r.verb) in handlers then handlers else handlers[(id, r.verb) := r.handler];
    forall key: Key, verb | Registered(log + [r], key)
      ensures First(log + [r], key, verb) ==
                if (IdOf(n', key), verb) in handlers' then Some(handlers'[(IdOf(n', key), verb)]) else None
    {
      FirstWins(log, r, key, verb);
      if !Registered(log, key) {
        NeverFirst(log, key, verb);
      }
      assert IdOf(n, key) == IdOf(n, r.key) != 0 ==> key == r.key;
    }
  }

  /** The lookup by id and method. */
  function LookUp<H>(handlers: map<(nat, Method), H>, id: nat, verb: Method, rest: Path): Outcome<H> {
    if (id, verb) in handlers then Handled(handlers[(id, verb)], rest)
    else if (id, Unknown) in handlers then Handled(handlers[(id, Unknown)], rest)
    else NoHandler
  }

  lemma PickAgrees<H>(n: Node, next: nat, handlers: map<(nat, Method), H>, log: seq<Registration<H>>,
                      key: Key, verb: Method, rest: Path)
    requires Stored(n, next, handlers, log) && Registered(log, key)
    ensures Pick(log, key, verb, rest) == LookUp(handlers, IdOf(n, key), verb, rest)
  {
    hide Registered, First;
    assert First(log, key, verb) == if (IdOf(n, key), verb) in handlers then Some(handlers[(IdOf(n, key), verb)]) else None;
    assert First(log, key, Unknown) == if (IdOf(n, key), Unknown) in handlers then Some(handlers[(IdOf(n, key), Unknown)]) else None;
  }

  /** Routing and looking up is dispatching by the registrations. */
  lemma LookUpAgrees<H>(n: Node, next: nat, handlers: map<(nat, Method), H>, log: seq<Registration<H>>, verb: Method, path: Path)
    requires Numbered(n, next, log) && Stored(n, next, handlers, log) && Rooted(path)
    ensures var segs := Segments(path);
            Dispatched(log, verb, path) ==
              match Flat(n, segs)
              case None => NotFound
              case Some(m) => if m.depth < |segs| then LookUp(handlers, m.id, verb, Join(segs[m.depth..])) else NotFound
  {
    hide Registered, First, Segments, Join, Flat, LongestRegistered, Numbered, Stored, Pick, LookUp, IdOf;
    var segs := Segments(path);
    FlatAgrees(n, next, log, segs);
    if Registered(log, Exact(segs)) {
      PickAgrees(n, next, handlers, log, Exact(segs), verb, Join(segs[|segs| - 1..]));
    } else if LongestRegistered(log, segs, |segs| - 1).Some? {
      var d := LongestRegistered(log, segs, |segs| - 1).value;
      PickAgrees(n, next, handlers, log, Prefix(segs[..d]), verb, Join(segs[d..]));
    }
  }

  lemma {:induction false} NeverFirst<H>(log: seq<Registration<H>>, key: Key, verb: Method)
    requires !Registered(log, key)
    ensures First(log, key, verb) == None
  {
    if log != [] {
      var before := log[..|log| - 1];
      assert forall i :: 0 <= i < |before| ==> before[i] == log[i];
      NeverFirst(before, key, verb);
    }
  }

  class ServiceBuilder<H> {
    var root: Node
    var handlers: map<(nat, Method), H>
    var nextId: nat
    /** Every registration so far. */
    ghost var log: seq<Registration<H>>

    ghost predicate Valid()
      reads this
    {
      && Numbered(root, nextId, log) && Stored(root, nextId, handlers, log)
      && forall i :: 0 <= i < |log| && log[i].key.Prefix? ==> log[i].verb == Unknown
    }

    constructor ()
      ensures Valid() && log == []
    {
      root, handlers, nextId := EMPTY, map[], 1;
      log := [];
      new;
      forall segs ensures ExactAt(root, segs) == None && PrefixAt(root, segs) == 0 {
        EmptyLookups(segs);
      }
    }

    /** `add_handler`: an id for the entry if it has none; a handler that is there stays. */
    method AddHandler(id: nat, verb: Method, handler: H)
      modifies this`handlers
      ensures handlers == if (id, verb) in old(handlers) then old(handlers) else old(handlers)[(id, verb) := handler]
    {
      if (id, verb) !in handlers {
        handlers := handlers[(id, verb) := handler];
      }
    }

    /** `add_route`, and `redirect`. */
    method AddRoute(verb: Method, path: Path, handler: H)
      requires Valid() && Rooted(path)
      modifies this
      ensures Valid() && log == old(log) + [Registration(Exact(Segments(path)), verb, handler)]
    {
      hide ExactAt, PrefixAt, Registered, First;
      ghost var r, n, next := Registration(Exact(Segments(path)), verb, handler), root, nextId;
      root := AddExact(root, path);
      var id := IdAt(root, Segments(path));
      if id == 0 {
        id := nextId;
        nextId := nextId + 1;
        root := WriteExact(root, Segments(path), id);
      }
      assert Renumbered(n, root, r.key, id);
      NumberedStep(n, root, next, nextId, log, r, id);
      StoredStep(n, root, next, nextId, handlers, log, r, id);
      AddHandler(id, verb, handler);
      log := log + [r];
    }

    /** `add_prefix`, and `add_static`. */
    method AddPrefix(path: Path, handler: H)
      requires Valid() && Rooted(path)
      modifies this
      ensures Valid() && log == old(log) + [Registration(Prefix(PrefixSegments(path)), Unknown, handler)]
    {
      hide ExactAt, PrefixAt, Registered, First;
      ghost var r, n, next := Registration(Prefix(PrefixSegments(path)), Unknown, handler), root, nextId;
      root := Router.AddPrefix(root, path);
      var id := PrefixAt(root, PrefixSegments(path));
      if id == 0 {
        id := nextId;
        nextId := nextId + 1;
        root := WritePrefix(root, PrefixSegments(path), id);
      }
      assert Renumbered(n, root, r.key, id);
      NumberedStep(n, root, next, nextId, log, r, id);
      StoredStep(n, root, next, nextId, handlers, log, r, id);
      AddHandler(id, Unknown, handler);
      log := log + [r];
    }

    /** The lookup of a request: the handler its path and method were registered with. */
    method Handle(verb: Method, path: Path) returns (o: Outcome<H>)
      requires Valid() && path != ""
      ensures o == Dispatched(log, verb, path)
    {
      var ctx := new RouteContext(path);
      if Rooted(path) {
        LookUpAgrees(root, nextId, handlers, log, verb, path);
      }
      hide Segments, Join, Flat, Numbered, Stored;
      var id := Route(root, ctx);
      if id.None? {
        return NotFound;
      }
      if (id.value, verb) in handlers {
        return Handled(handlers[(id.value, verb)], ctx.currentPath);
      } else if (id.value, Unknown) in handlers {
        return Handled(handlers[(id.value, Unknown)], ctx.currentPath);
      }
      o := NoHandler;
    }
  }
}
