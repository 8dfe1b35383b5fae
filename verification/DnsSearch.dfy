/**
 * The search of `prepare`: every stored name is read, from the first stored name, by
 * `get_offs` and compared with the text by `match`.
 */
module DnsSearch {
  import opened Basics
  import opened DnsWire
  import opened DnsText
  import opened DnsChain

  // ---- How stored names read ----

  /** Stored name `i` the way `prepare` reads it: its pointers count from the first stored name. */
  function Reading(m: seq<byte>, ptrs: seq<nat>, i: nat): Walked
    requires i < |ptrs|
  {
    Chased(m, ptrs[0], ptrs[i])
  }

  predicate Readable(m: seq<byte>, ptrs: seq<nat>, i: nat)
    requires i < |ptrs|
  {
    Reading(m, ptrs, i).end == Root && Reading(m, ptrs, i).offs != []
  }

  /** How many octets of the text made of `a` stored name `i`, as it is read, also ends with. */
  function MatchedLen(m: seq<byte>, ptrs: seq<nat>, a: seq<Label>, i: nat): nat
    requires i < |ptrs|
  {
    SuffixLen(a, Common(a, Reading(m, ptrs, i).labels))
  }

  /** Stored name `j` ends with the whole text, and the search stops at it. */
  predicate Whole(m: seq<byte>, ptrs: seq<nat>, a: seq<Label>, len0: nat, j: nat)
    requires j < |ptrs|
  {
    len0 < SuffixLen(a, |a|) == MatchedLen(m, ptrs, a, j)
  }

  /** A search that starts with a suffix of `len0` octets comes to stored name `i`. */
  ghost predicate Meets(m: seq<byte>, ptrs: seq<nat>, a: seq<Label>, len0: nat, i: nat) {
    i < |ptrs| && forall j :: 0 <= j < i ==> Readable(m, ptrs, j) && !Whole(m, ptrs, a, len0, j)
  }

  /** It comes to stored name `i`, and that is refused. */
  ghost predicate Blocks(m: seq<byte>, ptrs: seq<nat>, a: seq<Label>, len0: nat, i: nat) {
    Meets(m, ptrs, a, len0, i) && Reading(m, ptrs, i).end != Wild && !Readable(m, ptrs, i)
  }

  /** Reading comes to an end for every stored name the search comes to. */
  ghost predicate ComesBack(m: seq<byte>, ptrs: seq<nat>, a: seq<Label>, len0: nat) {
    forall i: nat :: Meets(m, ptrs, a, len0, i) ==> Returns(m, ptrs[0], ptrs[i])
  }

  /** The labels fit the array they are collected in, at the distances that are asserted. */
  ghost predicate InReach(w: Walked, origin: nat) {
    |w.offs| <= 128 && Within(w.offs, origin, origin + POINTER_LIMIT)
  }

  ghost predicate AllInReach(m: seq<byte>, ptrs: seq<nat>, a: seq<Label>, len0: nat) {
    forall i: nat :: Meets(m, ptrs, a, len0, i) ==> InReach(Reading(m, ptrs, i), ptrs[0])
  }

  // ---- The search, step by step ----

  /** Where the search is: in name `i` at `p`, with what it has collected there and chosen before; or through. */
  datatype Look =
    | At(i: nat, p: nat, offs: seq<nat>, labels: seq<Label>, len: nat, off: int)
    | Over(ok: bool, len: nat, off: int)
    | Lost

  function Begin(ptrs: seq<nat>, i: nat, len: nat, off: int): Look {
    if i < |ptrs| then At(i, ptrs[i], [], [], len, off) else Over(true, len, off)
  }

  /** Name `i` has been read: refuse it, or match the text with it. */
  function Matched(base: nat, ptrs: seq<nat>, a: seq<Label>, i: nat, w: Walked, len: nat, off: int): Look
    requires |w.offs| == |w.labels|
  {
    var c := Common(a, w.labels);
    if w.end != Root || w.offs == [] then Over(false, len, off)
    else if SuffixLen(a, c) <= len then Begin(ptrs, i + 1, len, off)
    else
      var off' := if c > 0 then w.offs[|w.offs| - c] - base else 0;
      if SuffixLen(a, c) == SuffixLen(a, |a|) then Over(true, SuffixLen(a, c), off')
      else Begin(ptrs, i + 1, SuffixLen(a, c), off')
  }

  /** One octet more of the name that is being read, and at its end what follows. */
  function LookOn(m: seq<byte>, base: nat, ptrs: seq<nat>, a: seq<Label>, l: Look): Look {
    match l
    case At(i, p, offs, labels, len, off) =>
      if i >= |ptrs| || |offs| != |labels| then Lost
      else (
        match HopAt(m, ptrs[0], p)
        case Outside => Lost
        case Refused => Matched(base, ptrs, a, i, Walked(offs, labels, Illegal), len, off)
        case Closed => Matched(base, ptrs, a, i, Walked(offs, labels, Root), len, off)
        case To(q) =>
          if m[p] < 64 then At(i, q, offs + [p], labels + [LabelAt(m, p)], len, off)
          else At(i, q, offs, labels, len, off))
    case _ => l
  }

  function LookAfter(m: seq<byte>, base: nat, ptrs: seq<nat>, a: seq<Label>, l: Look, n: nat): Look
    decreases n
  {
    if n == 0 then l else LookAfter(m, base, ptrs, a, LookOn(m, base, ptrs, a, l), n - 1)
  }

  /** The search, from any suffix, is through after some steps, with this outcome. */
  ghost predicate Finds(m: seq<byte>, base: nat, ptrs: seq<nat>, a: seq<Label>, len0: nat, off0: int, l: Look) {
    l.Over? && exists n: nat :: LookAfter(m, base, ptrs, a, Begin(ptrs, 0, len0, off0), n) == l
  }

  lemma {:induction false} LookTwice(m: seq<byte>, base: nat, ptrs: seq<nat>, a: seq<Label>, l: Look, j: nat, k: nat)
    ensures LookAfter(m, base, ptrs, a, LookAfter(m, base, ptrs, a, l, j), k) == LookAfter(m, base, ptrs, a, l, j + k)
    decreases j
  {
    hide LookOn;
    if j > 0 {
      LookTwice(m, base, ptrs, a, LookOn(m, base, ptrs, a, l), j - 1, k);
    }
  }

  lemma {:induction false} StaysOver(m: seq<byte>, base: nat, ptrs: seq<nat>, a: seq<Label>, l: Look, n: nat)
    requires l.Over?
    ensures LookAfter(m, base, ptrs, a, l, n) == l
    decreases n
  {
    if n > 0 {
      StaysOver(m, base, ptrs, a, l, n - 1);
    }
  }

  /** A search has one outcome. */
  lemma FindsOnce(m: seq<byte>, base: nat, ptrs: seq<nat>, a: seq<Label>, len0: nat, off0: int, l: Look, l': Look)
    requires Finds(m, base, ptrs, a, len0, off0, l) && Finds(m, base, ptrs, a, len0, off0, l')
    ensures l == l'
  {
    hide LookAfter, Begin;
    var start := Begin(ptrs, 0, len0, off0);
    var j: nat :| LookAfter(m, base, ptrs, a, start, j) == l;
    var k: nat :| LookAfter(m, base, ptrs, a, start, k) == l';
    LookTwice(m, base, ptrs, a, start, j, k);
    LookTwice(m, base, ptrs, a, start, k, j);
    StaysOver(m, base, ptrs, a, l, k);
    StaysOver(m, base, ptrs, a, l', j);
  }

  /** A name whose way ends is read, and matched. */
  lemma {:induction false} LookThrough(m: seq<byte>, base: nat, ptrs: seq<nat>, a: seq<Label>, i: nat, p: nat,
                                       offs: seq<nat>, labels: seq<Label>, len: nat, off: int, k: nat)
    requires i < |ptrs| && |offs| == |labels| && StopsIn(m, ptrs[0], p, k)
    ensures var w := Chase(m, ptrs[0], p, k);
            LookAfter(m, base, ptrs, a, At(i, p, offs, labels, len, off), k + 1)
            == Matched(base, ptrs, a, i, Walked(offs + w.offs, labels + w.labels, w.end), len, off)
    decreases k
  {
    var l, w := At(i, p, offs, labels, len, off), Chase(m, ptrs[0], p, k);
    var l' := LookOn(m, base, ptrs, a, l);
    hide Matched;
    match HopAt(m, ptrs[0], p)
    case To(q) =>
      LookThrough(m, base, ptrs, a, i, q, l'.offs, l'.labels, len, off, k - 1);
      var v := Chase(m, ptrs[0], q, k - 1);
      assert l'.offs + v.offs == offs + w.offs && l'.labels + v.labels == labels + w.labels;
    case Closed =>
      assert offs + [] == offs && labels + [] == labels;
      assert LookAfter(m, base, ptrs, a, l', 0) == l';
    case Refused =>
      assert offs + [] == offs && labels + [] == labels;
      assert LookAfter(m, base, ptrs, a, l', 0) == l';
  }

  lemma AtName(m: seq<byte>, ptrs: seq<nat>, i: nat, len: nat, off: int)
    requires i < |ptrs|
    ensures Begin(ptrs, i, len, off) == At(i, ptrs[i], [], [], len, off)
    ensures Reading(m, ptrs, i) == Chased(m, ptrs[0], ptrs[i])
  {
    hide Chased;
  }

  lemma NothingBefore(w: Walked)
    ensures Walked([] + w.offs, [] + w.labels, w.end) == w
  {
    assert [] + w.offs == w.offs && [] + w.labels == w.labels;
  }

  /** From a name whose way ends the search comes to the match with it. */
  lemma LookAtName(m: seq<byte>, base: nat, ptrs: seq<nat>, a: seq<Label>, i: nat, len: nat, off: int) returns (n: nat)
    requires i < |ptrs| && Returns(m, ptrs[0], ptrs[i])
    ensures LookAfter(m, base, ptrs, a, Begin(ptrs, i, len, off), n) == Matched(base, ptrs, a, i, Reading(m, ptrs, i), len, off)
  {
    hide Matched, LookAfter, Chase, Chased, StopsIn, Begin, Reading;
    var k: nat :| StopsIn(m, ptrs[0], ptrs[i], k);
    ChasedIn(m, ptrs[0], ptrs[i], k);
    AtName(m, ptrs, i, len, off);
    LookThrough(m, base, ptrs, a, i, ptrs[i], [], [], len, off, k);
    NothingBefore(Chase(m, ptrs[0], ptrs[i], k));
    n := k + 1;
  }

  /** From a name whose way has no end the search never gets on. */
  lemma {:induction false} LooksForever(m: seq<byte>, base: nat, ptrs: seq<nat>, a: seq<Label>, i: nat, p: nat,
                                        offs: seq<nat>, labels: seq<Label>, len: nat, off: int, n: nat)
    requires i < |ptrs| && |offs| == |labels| && !Returns(m, ptrs[0], p)
    ensures !LookAfter(m, base, ptrs, a, At(i, p, offs, labels, len, off), n).Over?
    decreases n
  {
    if n > 0 {
      var l' := LookOn(m, base, ptrs, a, At(i, p, offs, labels, len, off));
      assert !StopsIn(m, ptrs[0], p, 0);
      hide Matched, LookAfter;
      if HopAt(m, ptrs[0], p).To? {
        var q := HopAt(m, ptrs[0], p).q;
        forall k: nat ensures !StopsIn(m, ptrs[0], q, k) {
          assert !StopsIn(m, ptrs[0], p, k + 1);
        }
        LooksForever(m, base, ptrs, a, i, q, l'.offs, l'.labels, len, off, n - 1);
        LookOnce(m, base, ptrs, a, At(i, p, offs, labels, len, off), n);
      } else {
        LostForGood(m, base, ptrs, a, n - 1);
        LookOnce(m, base, ptrs, a, At(i, p, offs, labels, len, off), n);
      }
    }
  }

  lemma LookOnce(m: seq<byte>, base: nat, ptrs: seq<nat>, a: seq<Label>, l: Look, n: nat)
    requires n > 0
    ensures LookAfter(m, base, ptrs, a, l, n) == LookAfter(m, base, ptrs, a, LookOn(m, base, ptrs, a, l), n - 1)
  {}

  lemma {:induction false} LostForGood(m: seq<byte>, base: nat, ptrs: seq<nat>, a: seq<Label>, n: nat)
    ensures LookAfter(m, base, ptrs, a, Lost, n) == Lost
    decreases n
  {
    if n > 0 {
      LostForGood(m, base, ptrs, a, n - 1);
    }
  }

  /** What the search has chosen before it comes to name `i`: no whole match, unless it started with as much. */
  predicate Choosing(a: seq<Label>, len0: nat, len: nat) {
    len0 <= len && (len0 < SuffixLen(a, |a|) ==> len < SuffixLen(a, |a|))
  }

  /** A readable name that is no whole match is passed. */
  lemma Passes(m: seq<byte>, base: nat, ptrs: seq<nat>, a: seq<Label>, len0: nat, i: nat, len: nat, off: int)
    returns (len': nat, off': int)
    requires i < |ptrs| && Readable(m, ptrs, i) && !Whole(m, ptrs, a, len0, i) && Choosing(a, len0, len)
    ensures Choosing(a, len0, len')
    ensures Matched(base, ptrs, a, i, Reading(m, ptrs, i), len, off) == Begin(ptrs, i + 1, len', off')
  {
    var w := Reading(m, ptrs, i);
    var c := Common(a, w.labels);
    SuffixLenMonotone(a, c, |a|);
    hide SuffixLen, Common, Begin, Reading;
    if SuffixLen(a, c) <= len {
      len', off' := len, off;
    } else {
      len', off' := SuffixLen(a, c), if c > 0 then w.offs[|w.offs| - c] - base else 0;
    }
  }

  lemma SuffixLenMonotone(a: seq<Label>, c: nat, d: nat)
    requires c <= d <= |a|
    ensures SuffixLen(a, c) <= SuffixLen(a, d)
  {
    StartMonotone(a, |a| - d, |a| - c);
    StartMonotone(a, |a| - c, |a|);
    StartMonotone(a, 0, |a| - c);
    if c < |a| {
      StartMonotone(a, 0, 1);
      StartMonotone(a, 1, |a| - c);
    }
  }

  /** The search comes to every name it meets. */
  lemma {:induction false} LookReaches(m: seq<byte>, base: nat, ptrs: seq<nat>, a: seq<Label>, len0: nat, off0: int, i: nat)
    returns (n: nat, len: nat, off: int)
    requires Meets(m, ptrs, a, len0, i)
    ensures Choosing(a, len0, len)
    ensures LookAfter(m, base, ptrs, a, Begin(ptrs, 0, len0, off0), n) == Begin(ptrs, i, len, off)
  {
    hide Begin, LookAfter, Matched, Choosing, Whole;
    if i == 0 {
      assert Choosing(a, len0, len0) by { StartsChoosing(a, len0); }
      n, len, off := 0, len0, off0;
      NoLook(m, base, ptrs, a, Begin(ptrs, 0, len0, off0));
    } else {
      assert Readable(m, ptrs, i - 1) && !Whole(m, ptrs, a, len0, i - 1);
      assert Meets(m, ptrs, a, len0, i - 1);
      var j, len1, off1 := LookReaches(m, base, ptrs, a, len0, off0, i - 1);
      ChasedExactly(m, ptrs[0], ptrs[i - 1]);
      var k := LookAtName(m, base, ptrs, a, i - 1, len1, off1);
      len, off := Passes(m, base, ptrs, a, len0, i - 1, len1, off1);
      n := j + k;
      LookTwice(m, base, ptrs, a, Begin(ptrs, 0, len0, off0), j, k);
    }
  }

  lemma StartsChoosing(a: seq<Label>, len0: nat)
    ensures Choosing(a, len0, len0)
  {}

  lemma NoLook(m: seq<byte>, base: nat, ptrs: seq<nat>, a: seq<Label>, l: Look)
    ensures LookAfter(m, base, ptrs, a, l, 0) == l
  {}

  /** The search comes to an end from every name it meets when reading does. */
  lemma {:induction false} LookEnds(m: seq<byte>, base: nat, ptrs: seq<nat>, a: seq<Label>, len0: nat, i: nat, len: nat, off: int)
    returns (n: nat)
    requires ComesBack(m, ptrs, a, len0) && Choosing(a, len0, len)
    requires i == |ptrs| || Meets(m, ptrs, a, len0, i)
    ensures LookAfter(m, base, ptrs, a, Begin(ptrs, i, len, off), n).Over?
    decreases |ptrs| - i
  {
    if i == |ptrs| {
      NoLook(m, base, ptrs, a, Begin(ptrs, i, len, off));
      n := 0;
      return;
    }
    hide LookAfter, Whole, Choosing, Returns, Reading;
    var j := LookAtName(m, base, ptrs, a, i, len, off);
    if Readable(m, ptrs, i) && !Whole(m, ptrs, a, len0, i) {
      var len', off' := Passes(m, base, ptrs, a, len0, i, len, off);
      hide Begin, Matched, Readable;
      var k := LookEnds(m, base, ptrs, a, len0, i + 1, len', off');
      LookTwice(m, base, ptrs, a, Begin(ptrs, i, len, off), j, k);
      n := j + k;
    } else {
      MatchEnds(m, base, ptrs, a, len0, i, len, off);
      n := j;
    }
  }

  lemma MatchEnds(m: seq<byte>, base: nat, ptrs: seq<nat>, a: seq<Label>, len0: nat, i: nat, len: nat, off: int)
    requires i < |ptrs| && Choosing(a, len0, len)
    requires !(Readable(m, ptrs, i) && !Whole(m, ptrs, a, len0, i))
    ensures Matched(base, ptrs, a, i, Reading(m, ptrs, i), len, off).Over?
  {
    hide SuffixLen, Reading, Common, Begin;
  }

  /**
   * The search comes to an end exactly when reading does for every stored name it
   * comes to: those up to the first that is refused or ends with the whole text.
   */
  lemma SearchReturnsExactly(m: seq<byte>, base: nat, ptrs: seq<nat>, a: seq<Label>, len0: nat, off0: int)
    ensures (exists l :: Finds(m, base, ptrs, a, len0, off0, l)) <==> ComesBack(m, ptrs, a, len0)
  {
    hide LookAfter, Begin, Whole, Readable, Returns;
    if ComesBack(m, ptrs, a, len0) {
      StartsChoosing(a, len0);
      var n := LookEnds(m, base, ptrs, a, len0, 0, len0, off0);
      assert Finds(m, base, ptrs, a, len0, off0, LookAfter(m, base, ptrs, a, Begin(ptrs, 0, len0, off0), n));
    } else {
      var i: nat :| Meets(m, ptrs, a, len0, i) && !Returns(m, ptrs[0], ptrs[i]);
      forall n: nat ensures !LookAfter(m, base, ptrs, a, Begin(ptrs, 0, len0, off0), n).Over? {
        NeverOver(m, base, ptrs, a, len0, off0, i, n);
      }
    }
  }

  /** A search that comes to a name whose way has no end is never over. */
  lemma NeverOver(m: seq<byte>, base: nat, ptrs: seq<nat>, a: seq<Label>, len0: nat, off0: int, i: nat, n: nat)
    requires Meets(m, ptrs, a, len0, i) && !Returns(m, ptrs[0], ptrs[i])
    ensures !LookAfter(m, base, ptrs, a, Begin(ptrs, 0, len0, off0), n).Over?
  {
    var j, len, off := LookReaches(m, base, ptrs, a, len0, off0, i);
    var start := Begin(ptrs, 0, len0, off0);
    hide LookAfter, Meets, Returns;
    var l := LookAfter(m, base, ptrs, a, start, n);
    if l.Over? {
      StaysOver(m, base, ptrs, a, l, j);
      LookTwice(m, base, ptrs, a, start, n, j);
      LooksForever(m, base, ptrs, a, i, ptrs[i], [], [], len, off, n);
      LookTwice(m, base, ptrs, a, start, j, n);
    }
  }

  // ---- get_offs and match ----

  /** From `p` on, what is met is what is still missing behind the first `noff` offsets of `w`. */
  ghost predicate Missing(m: seq<byte>, origin: nat, p: nat, k: nat, w: Walked, noff: nat) {
    && noff <= |w.offs| && StopsIn(m, origin, p, k)
    && Chase(m, origin, p, k).offs == w.offs[noff..] && Chase(m, origin, p, k).end == w.end
  }

  lemma MissingStep(m: seq<byte>, origin: nat, p: nat, k: nat, w: Walked, noff: nat)
    requires Missing(m, origin, p, k, w, noff)
    ensures p < |m|
    ensures m[p] == 0 ==> w.end == Root && noff == |w.offs|
    ensures 64 <= m[p] < 192 ==> w.end == Illegal
    ensures m[p] >= 192 ==> p + 1 < |m| && k > 0 && Missing(m, origin, Target(m, origin, p), k - 1, w, noff)
    ensures 0 < m[p] < 64 ==>
              k > 0 && noff < |w.offs| && w.offs[noff] == p && Missing(m, origin, p + 1 + m[p], k - 1, w, noff + 1)
  {
    ChaseStep(m, origin, p, k);
    hide Chase, StopsIn, LabelAt, Target;
    if 0 < m[p] < 64 {
      assert w.offs[noff..][0] == p && w.offs[noff..][1..] == w.offs[noff + 1..];
    }
  }

  lemma AllMissing(m: seq<byte>, origin: nat, p: nat) returns (k: nat)
    requires Returns(m, origin, p)
    ensures Missing(m, origin, p, k, Chased(m, origin, p), 0) && Chased(m, origin, p).end != Wild
  {
    k :| StopsIn(m, origin, p, k);
    ChasedIn(m, origin, p, k);
  }

  /** Collect the label offsets of a stored name, relative to `origin`; the loop ends when the way does. */
  method GetOffs(offs: array<int>, m: seq<byte>, origin: nat, dn: nat) returns (noff: nat)
    requires offs.Length == 128
    requires Returns(m, origin, dn) && InReach(Chased(m, origin, dn), origin)
    modifies offs
    ensures Chased(m, origin, dn).end == Illegal ==> noff == 0
    ensures Chased(m, origin, dn).end == Root ==>
              && noff == |Chased(m, origin, dn).offs|
              && forall i :: 0 <= i < noff ==> offs[i] == Chased(m, origin, dn).offs[i] - origin
  {
    hide TopBits, Follow, Target, Chased, Missing, Returns;
    noff := 0;
    var p: nat := dn;
    ghost var k := AllMissing(m, origin, dn);
    ghost var w := Chased(m, origin, dn);
    while true
      invariant noff <= |w.offs| && Missing(m, origin, p, k, w, noff)
      invariant forall i :: 0 <= i < noff ==> offs[i] == w.offs[i] - origin
      decreases k
    {
      ghost var k0 := k;
      MissingStep(m, origin, p, k, w, noff);
      while TopBits(m[p]) != 0
        invariant k <= k0 && p < |m| && noff <= |w.offs| && Missing(m, origin, p, k, w, noff)
        invariant forall i :: 0 <= i < noff ==> offs[i] == w.offs[i] - origin
        decreases k
      {
        MissingStep(m, origin, p, k, w, noff);
        if TopBits(m[p]) != 0xc0 {
          return 0;
        }
        p, k := Follow(m, origin, p), k - 1;
        MissingStep(m, origin, p, k, w, noff);
      }
      MissingStep(m, origin, p, k, w, noff);
      if m[p] == 0 {
        return;
      }
      offs[noff] := p - origin;
      noff := noff + 1;
      p, k := p + 1 + m[p], k - 1;
    }
  }

  /** The relative offset `offs[j]` carries the label `b[j]`. */
  ghost predicate CarriesAt(m: seq<byte>, origin: nat, offs: seq<int>, b: seq<Label>, j: nat)
    requires |offs| == |b| && j < |b|
  {
    0 <= offs[j] && Locates(m, origin + offs[j], b[j])
  }

  /** What `Match` is told about a stored name. */
  ghost predicate Carries(m: seq<byte>, origin: nat, offs: seq<int>, b: seq<Label>) {
    |offs| == |b| && forall j :: 0 <= j < |b| ==> CarriesAt(m, origin, offs, b, j)
  }

  /** Compare label `n` of the text, at `end`, with label `o` of a stored name: first the length octets. */
  method SameLabel(m: seq<byte>, origin: nat, off: int, src: seq<byte>, end: int, len: nat,
                   ghost offs: seq<int>, ghost a: seq<Label>, ghost n: nat, ghost b: seq<Label>, ghost o: nat)
    returns (same: bool)
    requires Spells(src, a) && n < |a| && len == |a[n]| && end == Start(a, n)
    requires Carries(m, origin, offs, b) && o < |b| && off == offs[o]
    ensures same <==> a[n] == b[o]
  {
    assert Placed(src, a, n) && CarriesAt(m, origin, offs, b, o);
    same := len == m[origin + off] && m[origin + off + 1..origin + off + 1 + len] == src[end..end + len];
  }

  /** The text octets shared with a stored name, and the offset of the first shared label. */
  method Match(offs: seq<int>, m: seq<byte>, origin: nat, src: seq<byte>, lens: seq<byte>,
               ghost a: seq<Label>, ghost b: seq<Label>)
    returns (matched: nat, offset: int)
    requires Spells(src, a) && |lens| == |a| && forall j :: 0 <= j < |lens| ==> lens[j] == |a[j]|
    requires Carries(m, origin, offs, b) && b != []
    ensures matched == SuffixLen(a, Common(a, b))
    ensures Common(a, b) == 0 ==> offset == 0
    ensures Common(a, b) > 0 ==> offset == offs[|offs| - Common(a, b)]
  {
    var n, o, end := |lens|, |offs|, |src|;
    matched, offset := 0, 0;
    ghost var c := 0;
    while true
      invariant 0 < n <= |lens| && 0 < o <= |offs| && |lens| - n == |offs| - o == c
      invariant end + 1 == Start(a, n)
      invariant Common(a, b) == c + CommonUpTo(a, n, b, o)
      invariant matched == SuffixLen(a, c)
      invariant offset == (if c == 0 then 0 else offs[o])
      decreases n
    {
      n, o := n - 1, o - 1;
      var len, off := lens[n], offs[o];
      SuffixLenStep(a, c);
      end := end - len;
      var same := SameLabel(m, origin, off, src, end, len, offs, a, n, b, o);
      if !same {
        assert Common(a, b) == c;
        return;
      }
      offset, c := off, c + 1;
      matched := matched + len;
      if n > 0 {
        matched := matched + 1;
      }
      if n == 0 || o == 0 {
        assert Common(a, b) == c;
        return;
      }
      end := end - 1;
    }
  }

  /** The labels shared with a stored name are not empty. */
  lemma SharedNonEmpty(a: seq<Label>, b: seq<Label>, c: nat)
    requires NoEmpty(b) && 0 < c <= Common(a, b)
    ensures a[|a| - c] != []
  {
    CommonIsLongest(a, b, c);
    assert a[|a| - c..][0] == b[|b| - c..][0];
  }

  lemma SuffixLenBound(s: seq<byte>, a: seq<Label>, c: nat)
    requires Spells(s, a) && c <= |a|
    ensures SuffixLen(a, c) <= |s|
    ensures c > 0 && a[|a| - 1] != [] ==> 0 < SuffixLen(a, c)
  {
    StartMonotone(a, |a| - c, |a|);
    StartMonotone(a, 0, |a| - c);
    StartMonotone(a, 0, |a|);
  }

  /** The offsets collected on the way locate its labels. */
  lemma OffsetsCarry(m: seq<byte>, origin: nat, p: nat, offs: seq<int>)
    requires var w := Chased(m, origin, p);
             && w.end == Root && |offs| == |w.offs|
             && forall i :: 0 <= i < |offs| ==> origin <= w.offs[i] && offs[i] == w.offs[i] - origin
    ensures Carries(m, origin, offs, Chased(m, origin, p).labels)
  {
    ChaseLocates(m, origin, p, |m|);
    var w := Chased(m, origin, p);
    hide Chased;
    forall j | 0 <= j < |w.offs| ensures CarriesAt(m, origin, offs, w.labels, j) {
      assert Locates(m, w.offs[j], w.labels[j]);
    }
  }

  /** Read one stored name and match the text `s` with it; not `ok` when it is refused. */
  method ReadAndMatch(m: seq<byte>, origin: nat, p: nat, s: seq<byte>, lens: seq<byte>, ghost a: seq<Label>)
    returns (ok: bool, matched: nat, offset: int)
    requires Returns(m, origin, p) && InReach(Chased(m, origin, p), origin)
    requires Spells(s, a) && |lens| == |a| && forall j :: 0 <= j < |lens| ==> lens[j] == |a[j]|
    ensures Chased(m, origin, p).end != Wild
    ensures ok <==> Chased(m, origin, p).end == Root && Chased(m, origin, p).offs != []
    ensures ok ==>
              var w := Chased(m, origin, p);
              var c := Common(a, w.labels);
              && matched == SuffixLen(a, c)
              && offset == if c == 0 then 0 else w.offs[|w.offs| - c] - origin
  {
    ChasedExactly(m, origin, p);
    hide Chased, Returns, Spells, Common, SuffixLen;
    var offs := new int[128];
    var noff := GetOffs(offs, m, origin, p);
    if noff == 0 {
      return false, 0, 0;
    }
    ghost var w := Chased(m, origin, p);
    OffsetsCarry(m, origin, p, offs[..noff]);
    matched, offset := Match(offs[..noff], m, origin, s, lens, a, w.labels);
    ok := true;
  }

  // ---- The loop ----

  /** A number of octets and an offset that say which labels of `a` are not written out. */
  ghost predicate Cut(a: seq<Label>, shared: nat, suffixLen: nat, suffixOff: nat) {
    && shared <= |a|
    && suffixLen == SuffixLen(a, shared)
    && (if shared > 0 then a[|a| - shared] != [] else suffixOff == 0)
  }

  /** What the search leaves: what it started with, or the longer suffix shared with stored name `best`. */
  ghost predicate Taken(m: seq<byte>, base: nat, ptrs: seq<nat>, a: seq<Label>, len0: nat, off0: nat, best: int,
                        suffixLen: nat, suffixOff: nat)
  {
    if best < 0 then suffixLen == len0 && suffixOff == off0
    else
      && best < |ptrs| && Readable(m, ptrs, best) && len0 < suffixLen == MatchedLen(m, ptrs, a, best)
      && var w := Reading(m, ptrs, best);
      && var c := Common(a, w.labels);
      && 0 < c <= |w.offs| && suffixOff == w.offs[|w.offs| - c] - base
  }

  /** The search has been through the first `met` names. */
  ghost predicate Searched(m: seq<byte>, ptrs: seq<nat>, a: seq<Label>, suffixLen: nat, met: nat) {
    met <= |ptrs| && forall j :: 0 <= j < met ==> MatchedLen(m, ptrs, a, j) <= suffixLen
  }

  /** A round of the loop that read name `i`: whether there is to be another one, and what is chosen now. */
  ghost predicate Tried(m: seq<byte>, base: nat, ptrs: seq<nat>, a: seq<Label>, i: nat, len: nat, off: nat,
                        more: bool, ok: bool, len': nat, off': nat)
    requires i < |ptrs|
  {
    && Reading(m, ptrs, i).end != Wild && (more || ok <==> Readable(m, ptrs, i))
    && Matched(base, ptrs, a, i, Reading(m, ptrs, i), len, off)
       == (if more then Begin(ptrs, i + 1, len', off') else Over(ok, len', off'))
    && MatchedLen(m, ptrs, a, i) <= SuffixLen(a, |a|)
    && (!more && ok ==> len < len' == SuffixLen(a, |a|))
    && (more && len < len' ==> len' < SuffixLen(a, |a|))
    && (len < len' ==> len' == MatchedLen(m, ptrs, a, i) && Taken(m, base, ptrs, a, len, off, i, len', off'))
    && (len >= len' ==> len' == len && off' == off && (more || ok ==> MatchedLen(m, ptrs, a, i) <= len))
  }

  /** One round of the loop: read name `i`, and take over the suffix shared with it if it is longer. */
  method TryName(m: seq<byte>, base: nat, ptrs: seq<nat>, i: nat, s: seq<byte>, lens: seq<byte>, len: nat, off: nat,
                 ghost a: seq<Label>)
    returns (more: bool, ok: bool, len': nat, off': nat)
    requires i < |ptrs| && base <= ptrs[0]
    requires Returns(m, ptrs[0], ptrs[i]) && InReach(Reading(m, ptrs, i), ptrs[0])
    requires Spells(s, a) && |lens| == |a| && forall j :: 0 <= j < |lens| ==> lens[j] == |a[j]|
    ensures Tried(m, base, ptrs, a, i, len, off, more, ok, len', off')
  {
    hide Returns, Chased, Spells, Begin, SuffixLen, Common;
    ghost var w := Reading(m, ptrs, i);
    SuffixLenBound(s, a, Common(a, w.labels));
    WholeLength(s, a);
    NothingShared(a);
    var readable, matched, offset := ReadAndMatch(m, ptrs[0], ptrs[i], s, lens, a);
    more, ok, len', off' := true, true, len, off;
    if !readable {
      return false, false, len, off;
    }
    if matched > len {
      len', off' := matched, offset + (ptrs[0] - base);
      more := matched != |s|;
    }
  }

  lemma WholeLength(s: seq<byte>, a: seq<Label>)
    requires Spells(s, a)
    ensures SuffixLen(a, |a|) == |s|
  {}

  lemma NothingShared(a: seq<Label>)
    ensures SuffixLen(a, 0) == 0
  {}

  /** The search, step by step, comes to `l`. */
  ghost predicate Comes(m: seq<byte>, base: nat, ptrs: seq<nat>, a: seq<Label>, len0: nat, off0: int, l: Look) {
    exists n: nat :: LookAfter(m, base, ptrs, a, Begin(ptrs, 0, len0, off0), n) == l
  }

  /** The search has been through the first `i` names, none of which stopped it. */
  ghost predicate SoFar(m: seq<byte>, base: nat, ptrs: seq<nat>, a: seq<Label>, len0: nat, off0: nat,
                        i: nat, best: int, len: nat, off: nat)
  {
    && i <= |ptrs| && best < i && Choosing(a, len0, len)
    && (best >= 0 || len0 == 0 ==> len <= SuffixLen(a, |a|))
    && (forall j :: 0 <= j < i ==> Readable(m, ptrs, j) && !Whole(m, ptrs, a, len0, j))
    && Searched(m, ptrs, a, len, i)
    && Taken(m, base, ptrs, a, len0, off0, best, len, off)
    && Comes(m, base, ptrs, a, len0, off0, Begin(ptrs, i, len, off))
  }

  lemma SoFarNothing(m: seq<byte>, base: nat, ptrs: seq<nat>, a: seq<Label>, len0: nat, off0: nat)
    ensures SoFar(m, base, ptrs, a, len0, off0, 0, -1, len0, off0)
  {
    hide SuffixLen, LookAfter, Begin;
    NoLook(m, base, ptrs, a, Begin(ptrs, 0, len0, off0));
  }

  lemma ComesTo(m: seq<byte>, base: nat, ptrs: seq<nat>, a: seq<Label>, len0: nat, off0: int, i: nat, len: nat, off: int)
    requires i < |ptrs| && Returns(m, ptrs[0], ptrs[i])
    requires Comes(m, base, ptrs, a, len0, off0, Begin(ptrs, i, len, off))
    ensures Comes(m, base, ptrs, a, len0, off0, Matched(base, ptrs, a, i, Reading(m, ptrs, i), len, off))
  {
    hide LookAfter, Begin, Matched, Reading, Returns;
    var start := Begin(ptrs, 0, len0, off0);
    var n: nat :| LookAfter(m, base, ptrs, a, start, n) == Begin(ptrs, i, len, off);
    var k := LookAtName(m, base, ptrs, a, i, len, off);
    LookTwice(m, base, ptrs, a, start, n, k);
  }

  /** What a longer suffix replaces is forgotten. */
  lemma TakenOver(m: seq<byte>, base: nat, ptrs: seq<nat>, a: seq<Label>, len0: nat, off0: nat, best: int, len: nat, off: nat,
                  i: nat, len': nat, off': nat)
    requires Taken(m, base, ptrs, a, len0, off0, best, len, off) && len < len'
    requires Taken(m, base, ptrs, a, len, off, i, len', off')
    ensures Taken(m, base, ptrs, a, len0, off0, i, len', off')
  {
    hide Reading, Readable, MatchedLen, Common;
  }

  /** After one more round. */
  lemma RoundOn(m: seq<byte>, base: nat, ptrs: seq<nat>, a: seq<Label>, len0: nat, off0: nat, i: nat, best: int,
                len: nat, off: nat, more: bool, ok: bool, len': nat, off': nat)
    requires i < |ptrs| && SoFar(m, base, ptrs, a, len0, off0, i, best, len, off) && Returns(m, ptrs[0], ptrs[i])
    requires Tried(m, base, ptrs, a, i, len, off, more, ok, len', off')
    ensures var best' := if len < len' then i else best;
            && Taken(m, base, ptrs, a, len0, off0, best', len', off')
            && (best' >= 0 || len0 == 0 ==> len' <= SuffixLen(a, |a|))
            && (more ==> SoFar(m, base, ptrs, a, len0, off0, i + 1, best', len', off'))
            && (!more ==> Finds(m, base, ptrs, a, len0, off0, Over(ok, len', off')))
            && (!more && ok ==> Whole(m, ptrs, a, len0, i) && len' == SuffixLen(a, |a|))
            && (!more && !ok ==> Blocks(m, ptrs, a, len0, i) && Searched(m, ptrs, a, len', i))
  {
    ComesTo(m, base, ptrs, a, len0, off0, i, len, off);
    if len < len' {
      TakenOver(m, base, ptrs, a, len0, off0, best, len, off, i, len', off');
    }
    hide Taken, Comes, Begin, Matched, Reading, Readable, MatchedLen, SuffixLen, Returns, LookAfter;
    IsFound(m, base, ptrs, a, len0, off0, Over(ok, len', off'));
  }

  lemma IsFound(m: seq<byte>, base: nat, ptrs: seq<nat>, a: seq<Label>, len0: nat, off0: int, l: Look)
    requires l.Over?
    ensures Comes(m, base, ptrs, a, len0, off0, l) <==> Finds(m, base, ptrs, a, len0, off0, l)
  {
    hide LookAfter, Begin;
  }

  /** When a name stops the search with a whole match nothing matches more, and none blocks. */
  lemma StoppedWhole(m: seq<byte>, ptrs: seq<nat>, a: seq<Label>, len0: nat, i: nat, len: nat)
    requires i < |ptrs| && Whole(m, ptrs, a, len0, i) && Readable(m, ptrs, i) && len == SuffixLen(a, |a|)
    requires forall j :: 0 <= j < i ==> Readable(m, ptrs, j)
    ensures Searched(m, ptrs, a, len, |ptrs|) && forall k :: !Blocks(m, ptrs, a, len0, k)
  {
    hide Reading, Common, SuffixLen;
    forall j | 0 <= j < |ptrs| ensures MatchedLen(m, ptrs, a, j) <= len {
      SuffixLenMonotone(a, Common(a, Reading(m, ptrs, j).labels), |a|);
    }
  }

  /** When every name has been tried none blocks. */
  lemma StoppedNowhere(m: seq<byte>, base: nat, ptrs: seq<nat>, a: seq<Label>, len0: nat, off0: nat, best: int, len: nat, off: nat)
    requires SoFar(m, base, ptrs, a, len0, off0, |ptrs|, best, len, off)
    ensures Finds(m, base, ptrs, a, len0, off0, Over(true, len, off)) && Taken(m, base, ptrs, a, len0, off0, best, len, off)
    ensures Searched(m, ptrs, a, len, |ptrs|) && forall k :: !Blocks(m, ptrs, a, len0, k)
    ensures best >= 0 || len0 == 0 ==> len <= SuffixLen(a, |a|)
  {
    assert Begin(ptrs, |ptrs|, len, off) == Over(true, len, off);
    hide Begin, Reading, MatchedLen, SuffixLen, Whole, Taken, Comes;
    IsFound(m, base, ptrs, a, len0, off0, Over(true, len, off));
  }

  /**
   * The search over the stored names, from a suffix of `len0` octets at `off0`; not
   * `ok` when it meets a name that is refused, the one numbered `met`.
   */
  method Choose(m: seq<byte>, base: nat, ptrs: seq<nat>, s: seq<byte>, lens: seq<byte>, len0: nat, off0: nat,
                ghost a: seq<Label>)
    returns (ok: bool, suffixLen: nat, suffixOff: nat, ghost best: int, ghost met: nat)
    requires ComesBack(m, ptrs, a, len0) && AllInReach(m, ptrs, a, len0) && (ptrs != [] ==> base <= ptrs[0])
    requires Spells(s, a) && |lens| == |a| && forall j :: 0 <= j < |lens| ==> lens[j] == |a[j]|
    ensures Finds(m, base, ptrs, a, len0, off0, Over(ok, suffixLen, suffixOff))
    ensures ok <==> forall i :: !Blocks(m, ptrs, a, len0, i)
    ensures Taken(m, base, ptrs, a, len0, off0, best, suffixLen, suffixOff)
    ensures Searched(m, ptrs, a, suffixLen, met) && best < met
    ensures if ok then met == |ptrs| else Blocks(m, ptrs, a, len0, met)
    ensures best >= 0 || len0 == 0 ==> suffixLen <= |s|
  {
    suffixLen, suffixOff, best, met := len0, off0, -1, 0;
    var i := 0;
    WholeLength(s, a);
    SoFarNothing(m, base, ptrs, a, len0, off0);
    while i < |ptrs|
      invariant 0 <= i <= |ptrs| && SoFar(m, base, ptrs, a, len0, off0, i, best, suffixLen, suffixOff)
    {
      IsMet(m, base, ptrs, a, len0, off0, i, best, suffixLen, suffixOff);
      hide *;
      var more, len, off;
      more, ok, len, off := TryName(m, base, ptrs, i, s, lens, suffixLen, suffixOff, a);
      RoundOn(m, base, ptrs, a, len0, off0, i, best, suffixLen, suffixOff, more, ok, len, off);
      if !more {
        if ok {
          TriedReadable(m, base, ptrs, a, i, suffixLen, suffixOff, more, ok, len, off);
          StoppedWhole(m, ptrs, a, len0, i, len);
        }
        best, met := if suffixLen < len then i else best, if ok then |ptrs| else i;
        suffixLen, suffixOff := len, off;
        return;
      }
      best := if suffixLen < len then i else best;
      suffixLen, suffixOff := len, off;
      i := i + 1;
    }
    hide *;
    ok, met := true, |ptrs|;
    StoppedNowhere(m, base, ptrs, a, len0, off0, best, suffixLen, suffixOff);
  }

  lemma TriedReadable(m: seq<byte>, base: nat, ptrs: seq<nat>, a: seq<Label>, i: nat, len: nat, off: nat,
                      more: bool, ok: bool, len': nat, off': nat)
    requires i < |ptrs| && Tried(m, base, ptrs, a, i, len, off, more, ok, len', off')
    ensures more || ok <==> Readable(m, ptrs, i)
  {
    hide Readable, Reading, Matched, Begin;
  }

  /** The search meets the name it has come to. */
  lemma IsMet(m: seq<byte>, base: nat, ptrs: seq<nat>, a: seq<Label>, len0: nat, off0: nat, i: nat, best: int, len: nat, off: nat)
    requires i < |ptrs| && SoFar(m, base, ptrs, a, len0, off0, i, best, len, off)
    requires ComesBack(m, ptrs, a, len0) && AllInReach(m, ptrs, a, len0)
    ensures Meets(m, ptrs, a, len0, i) && Returns(m, ptrs[0], ptrs[i]) && InReach(Reading(m, ptrs, i), ptrs[0])
    ensures best < i && forall j :: 0 <= j < i ==> Readable(m, ptrs, j)
  {
    hide Readable, Reading, Whole, Taken, Comes, Begin, Searched, InReach, Returns;
  }

  /** The first stored name that cannot be read. */
  lemma {:induction false} FirstUnreadable(m: seq<byte>, ptrs: seq<nat>, i: nat) returns (k: nat)
    requires i < |ptrs| && !Readable(m, ptrs, i)
    ensures k <= i && !Readable(m, ptrs, k) && forall j :: 0 <= j < k ==> Readable(m, ptrs, j)
  {
    k := 0;
    while Readable(m, ptrs, k)
      invariant k <= i && forall j :: 0 <= j < k ==> Readable(m, ptrs, j)
      decreases i - k
    {
      k := k + 1;
    }
  }

  /**
   * A refused search leaves a suffix behind, and with it a stored name that cannot be
   * read. As long as there is one, no search takes over what an earlier one left:
   * it does not come back, is refused as well, or finds a name that ends with the whole text.
   */
  lemma NothingLeftIsUsed(m: seq<byte>, base: nat, ptrs: seq<nat>, a: seq<Label>, len0: nat, off0: nat, i: nat,
                          best: int, suffixLen: nat, suffixOff: nat)
    requires i < |ptrs| && !Readable(m, ptrs, i)
    requires ComesBack(m, ptrs, a, len0) && forall k :: !Blocks(m, ptrs, a, len0, k)
    requires Taken(m, base, ptrs, a, len0, off0, best, suffixLen, suffixOff)
    requires Searched(m, ptrs, a, suffixLen, |ptrs|)
    ensures best >= 0 && suffixLen >= SuffixLen(a, |a|)
  {
    var k := FirstUnreadable(m, ptrs, i);
    ChasedExactly(m, ptrs[0], ptrs[k]);
    assert !Blocks(m, ptrs, a, len0, k);
    hide Returns, Reading, Common, SuffixLen;
    assert !Meets(m, ptrs, a, len0, k);
    var j :| 0 <= j < k && Whole(m, ptrs, a, len0, j);
    assert MatchedLen(m, ptrs, a, j) <= suffixLen;
  }

  // ---- Where the chosen suffix stands ----

  /** From `p` on, pointers followed wherever they lead, exactly these labels are met. */
  predicate Meant(m: seq<byte>, origin: nat, p: nat, labels: seq<Label>) {
    Chased(m, origin, p).end == Root && Chased(m, origin, p).labels == labels
  }

  /** From a label a stored name shares with `a` on, it reads as the last labels of `a`. */
  lemma SharedReads(m: seq<byte>, origin: nat, p: nat, a: seq<Label>)
    requires Chased(m, origin, p).end == Root && 0 < Common(a, Chased(m, origin, p).labels)
    ensures var w := Chased(m, origin, p);
            var c := Common(a, w.labels);
            Meant(m, origin, w.offs[|w.offs| - c], a[|a| - c..]) && a[|a| - c] != []
  {
    var w := Chased(m, origin, p);
    var c := Common(a, w.labels);
    ChasedSuffix(m, origin, p, |w.offs| - c);
    ChasedLabels(m, origin, p);
    SharedNonEmpty(a, w.labels, c);
    CommonIsLongest(a, w.labels, c);
  }

  /** The labels of `a` that are not written out, as the first stored name has them read. */
  ghost predicate ReadBack(m: seq<byte>, base: nat, ptrs: seq<nat>, a: seq<Label>, shared: nat, suffixOff: nat) {
    shared <= |a| && (shared > 0 ==> ptrs != [] && Meant(m, ptrs[0], base + suffixOff, a[|a| - shared..]))
  }

  /** What was taken from a stored name is a suffix of `a`, read from the first stored name. */
  lemma TakenReadsBack(m: seq<byte>, base: nat, ptrs: seq<nat>, a: seq<Label>, len0: nat, off0: nat,
                       best: int, suffixLen: nat, suffixOff: nat)
    requires Taken(m, base, ptrs, a, len0, off0, best, suffixLen, suffixOff)
    requires 0 <= best || (len0 == 0 && off0 == 0)
    ensures var shared := if best < 0 then 0 else Common(a, Reading(m, ptrs, best).labels);
            Cut(a, shared, suffixLen, suffixOff) && ReadBack(m, base, ptrs, a, shared, suffixOff)
  {
    if best >= 0 {
      SharedReads(m, ptrs[0], ptrs[best], a);
    }
  }
}
