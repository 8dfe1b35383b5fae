/**
 * The way from one length octet to the next, pointers followed wherever they lead:
 * what the loops over stored names do, whether they come to an end or not.
 */
module DnsChain {
  import opened Basics
  import opened DnsWire

  /** What stands at a place: the end of a name, an octet that is refused, or the way to the next place. */
  datatype Hop = Closed | Refused | Outside | To(q: nat)

  function HopAt(m: seq<byte>, base: nat, p: nat): Hop {
    if p >= |m| then Outside
    else if m[p] == 0 then Closed
    else if m[p] >= 192 then (if p + 1 < |m| then To(Target(m, base, p)) else Outside)
    else if m[p] >= 64 then Refused
    else To(p + 1 + m[p])
  }

  /** The place reached by `k` hops, if the way goes on so long. */
  function Place(m: seq<byte>, base: nat, p: nat, k: nat): Option<nat>
    decreases k
  {
    if k == 0 then Some(p)
    else match HopAt(m, base, p)
      case To(q) => Place(m, base, q, k - 1)
      case _ => None
  }

  /** The way ends after `k` hops, inside the message. */
  predicate StopsIn(m: seq<byte>, base: nat, p: nat, k: nat)
    decreases k
  {
    match HopAt(m, base, p)
    case To(q) => k > 0 && StopsIn(m, base, q, k - 1)
    case Outside => false
    case _ => k == 0
  }

  ghost predicate Returns(m: seq<byte>, base: nat, p: nat) {
    exists k: nat :: StopsIn(m, base, p, k)
  }

  ghost predicate StaysInside(m: seq<byte>, base: nat, p: nat) {
    forall k: nat :: Place(m, base, p, k).Some? ==> HopAt(m, base, Place(m, base, p, k).value) != Outside
  }

  ghost predicate NeverRepeats(m: seq<byte>, base: nat, p: nat) {
    forall j: nat, k: nat :: j < k && Place(m, base, p, k).Some? ==> Place(m, base, p, j) != Place(m, base, p, k)
  }

  // ---- When the way ends ----

  lemma {:induction false} StopsOnce(m: seq<byte>, base: nat, p: nat, j: nat, k: nat)
    requires StopsIn(m, base, p, j) && StopsIn(m, base, p, k)
    ensures j == k
    decreases j
  {
    if HopAt(m, base, p).To? {
      StopsOnce(m, base, HopAt(m, base, p).q, j - 1, k - 1);
    }
  }

  /** Behind `j` of its hops a way that ends has the others still to go. */
  lemma {:induction false} StopsLater(m: seq<byte>, base: nat, p: nat, j: nat, k: nat)
    requires StopsIn(m, base, p, k)
    ensures Place(m, base, p, j).Some? <==> j <= k
    ensures j <= k ==> StopsIn(m, base, Place(m, base, p, j).value, k - j)
    decreases k
  {
    if j > 0 && HopAt(m, base, p).To? {
      StopsLater(m, base, HopAt(m, base, p).q, j - 1, k - 1);
    }
  }

  lemma EndsWithoutRepeat(m: seq<byte>, base: nat, p: nat, n: nat)
    requires StopsIn(m, base, p, n)
    ensures StaysInside(m, base, p) && NeverRepeats(m, base, p)
  {
    forall k: nat | Place(m, base, p, k).Some? ensures HopAt(m, base, Place(m, base, p, k).value) != Outside {
      StopsLater(m, base, p, k, n);
    }
    forall j: nat, k: nat | j < k && Place(m, base, p, k).Some? ensures Place(m, base, p, j) != Place(m, base, p, k) {
      StopsLater(m, base, p, j, n);
      StopsLater(m, base, p, k, n);
      if Place(m, base, p, j) == Place(m, base, p, k) {
        StopsOnce(m, base, Place(m, base, p, j).value, n - j, n - k);
      }
    }
  }

  /** A way that has not ended within the message yet goes on. */
  lemma {:induction false} GoesOn(m: seq<byte>, base: nat, p: nat, k: nat)
    requires !Returns(m, base, p) && StaysInside(m, base, p)
    ensures Place(m, base, p, k).Some?
    decreases k
  {
    assert Place(m, base, p, 0) == Some(p) && !StopsIn(m, base, p, 0);
    if k > 0 {
      var q := HopAt(m, base, p).q;
      forall j: nat ensures !StopsIn(m, base, q, j) {
        assert !StopsIn(m, base, p, j + 1);
      }
      forall j: nat | Place(m, base, q, j).Some? ensures HopAt(m, base, Place(m, base, q, j).value) != Outside {
        assert Place(m, base, p, j + 1) == Place(m, base, q, j);
      }
      GoesOn(m, base, q, k - 1);
    }
  }

  ghost function Below(n: nat): (s: set<nat>)
    ensures |s| == n && forall x: nat :: x in s <==> x < n
  {
    if n == 0 then {} else Below(n - 1) + {n - 1}
  }

  lemma {:induction false} SubsetSize(s: set<nat>, t: set<nat>)
    requires s <= t
    ensures |s| <= |t|
  {
    if s != {} {
      var x :| x in s;
      SubsetSize(s - {x}, t - {x});
    }
  }

  /** `x` is one of the first `n` places. */
  ghost predicate Met(m: seq<byte>, base: nat, p: nat, n: nat, x: nat) {
    exists k: nat :: k < n && Place(m, base, p, k) == Some(x)
  }

  /** The first `n` places of a way that does not repeat. */
  lemma {:induction false} Visited(m: seq<byte>, base: nat, p: nat, n: nat) returns (v: set<nat>)
    requires StaysInside(m, base, p) && NeverRepeats(m, base, p)
    requires forall k: nat :: k < n ==> Place(m, base, p, k).Some?
    ensures |v| == n && v <= Below(|m|) && forall x :: x in v ==> Met(m, base, p, n, x)
  {
    v := {};
    if n > 0 {
      var v' := Visited(m, base, p, n - 1);
      var x := Place(m, base, p, n - 1).value;
      assert HopAt(m, base, x) != Outside;
      hide Place, HopAt;
      v := v' + {x};
      forall y | y in v ensures Met(m, base, p, n, y) {
        if y in v' {
          var k: nat :| k < n - 1 && Place(m, base, p, k) == Some(y);
        }
      }
      assert x !in v';
    }
  }

  /** No way has more places that differ than the message has octets. */
  lemma AtMostAll(m: seq<byte>, base: nat, p: nat, n: nat)
    requires StaysInside(m, base, p) && NeverRepeats(m, base, p)
    requires forall k: nat :: k < n ==> Place(m, base, p, k).Some?
    ensures n <= |m|
  {
    var v := Visited(m, base, p, n);
    SubsetSize(v, Below(|m|));
  }

  /** The way comes to an end exactly when it does not leave the message and comes to no place twice. */
  lemma ReturnsExactly(m: seq<byte>, base: nat, p: nat)
    ensures Returns(m, base, p) <==> StaysInside(m, base, p) && NeverRepeats(m, base, p)
  {
    if n: nat :| StopsIn(m, base, p, n) {
      EndsWithoutRepeat(m, base, p, n);
    } else if StaysInside(m, base, p) && NeverRepeats(m, base, p) {
      forall k: nat | k < |m| + 1 ensures Place(m, base, p, k).Some? {
        GoesOn(m, base, p, k);
      }
      AtMostAll(m, base, p, |m| + 1);
    }
  }

  lemma StopsSoon(m: seq<byte>, base: nat, p: nat, n: nat)
    requires StopsIn(m, base, p, n)
    ensures n < |m|
  {
    EndsWithoutRepeat(m, base, p, n);
    forall k: nat | k < n + 1 ensures Place(m, base, p, k).Some? {
      StopsLater(m, base, p, k, n);
    }
    AtMostAll(m, base, p, n + 1);
  }

  // ---- What is met on the way ----

  /** The labels met in at most `hops` hops. */
  function Chase(m: seq<byte>, base: nat, p: nat, hops: nat): (w: Walked)
    ensures |w.offs| == |w.labels|
    decreases hops
  {
    match HopAt(m, base, p)
    case Closed => Walked([], [], Root)
    case Refused => Walked([], [], Illegal)
    case Outside => Walked([], [], Wild)
    case To(q) =>
      if hops == 0 then Walked([], [], Wild)
      else
        var w := Chase(m, base, q, hops - 1);
        if m[p] < 64 then Walked([p] + w.offs, [LabelAt(m, p)] + w.labels, w.end) else w
  }

  /** The labels of the name at `p`, pointers followed wherever they lead; none is found when the way has no end. */
  function Chased(m: seq<byte>, base: nat, p: nat): (w: Walked)
    ensures |w.offs| == |w.labels|
  {
    Chase(m, base, p, |m|)
  }

  /** One hop. */
  lemma ChaseStep(m: seq<byte>, base: nat, p: nat, k: nat)
    requires StopsIn(m, base, p, k)
    ensures p < |m|
    ensures m[p] == 0 ==> Chase(m, base, p, k) == Walked([], [], Root)
    ensures 64 <= m[p] < 192 ==> Chase(m, base, p, k) == Walked([], [], Illegal)
    ensures m[p] >= 192 ==>
              && p + 1 < |m| && k > 0 && StopsIn(m, base, Target(m, base, p), k - 1)
              && Chase(m, base, p, k) == Chase(m, base, Target(m, base, p), k - 1)
    ensures 0 < m[p] < 64 ==>
              && k > 0 && StopsIn(m, base, p + 1 + m[p], k - 1)
              && var w := Chase(m, base, p + 1 + m[p], k - 1);
                 Chase(m, base, p, k) == Walked([p] + w.offs, [LabelAt(m, p)] + w.labels, w.end)
  {}

  lemma {:induction false} ChaseEnds(m: seq<byte>, base: nat, p: nat, k: nat, hops: nat)
    requires StopsIn(m, base, p, k) && k <= hops
    ensures Chase(m, base, p, hops) == Chase(m, base, p, k) && Chase(m, base, p, k).end != Wild
    decreases k
  {
    if HopAt(m, base, p).To? {
      ChaseEnds(m, base, HopAt(m, base, p).q, k - 1, hops - 1);
    }
  }

  lemma {:induction false} ChaseStops(m: seq<byte>, base: nat, p: nat, hops: nat) returns (k: nat)
    requires Chase(m, base, p, hops).end != Wild
    ensures k <= hops && StopsIn(m, base, p, k)
    decreases hops
  {
    if HopAt(m, base, p).To? {
      k := ChaseStops(m, base, HopAt(m, base, p).q, hops - 1);
      k := k + 1;
    } else {
      k := 0;
    }
  }

  lemma ChasedIn(m: seq<byte>, base: nat, p: nat, k: nat)
    requires StopsIn(m, base, p, k)
    ensures Chased(m, base, p) == Chase(m, base, p, k) && Chased(m, base, p).end != Wild
  {
    StopsSoon(m, base, p, k);
    ChaseEnds(m, base, p, k, |m|);
  }

  /** What is met is found exactly when the way ends. */
  lemma ChasedExactly(m: seq<byte>, base: nat, p: nat)
    ensures Chased(m, base, p).end != Wild <==> Returns(m, base, p)
  {
    if k: nat :| StopsIn(m, base, p, k) {
      ChasedIn(m, base, p, k);
    } else if Chased(m, base, p).end != Wild {
      var k := ChaseStops(m, base, p, |m|);
    }
  }

  /** A name whose pointers lead backward reads the same. */
  lemma {:induction false} WalkStops(m: seq<byte>, base: nat, seg: nat, p: nat) returns (k: nat)
    requires Walk(m, base, seg, p).end != Wild
    ensures StopsIn(m, base, p, k) && Chase(m, base, p, k) == Walk(m, base, seg, p)
    decreases seg, |m| - p
  {
    k := 0;
    if m[p] >= 192 {
      k := WalkStops(m, base, Target(m, base, p), Target(m, base, p));
      k := k + 1;
    } else if 0 < m[p] < 64 {
      k := WalkStops(m, base, seg, p + 1 + m[p]);
      k := k + 1;
    }
  }

  lemma WalkIsChased(m: seq<byte>, base: nat, seg: nat, p: nat)
    requires Walk(m, base, seg, p).end != Wild
    ensures Chased(m, base, p) == Walk(m, base, seg, p)
  {
    var k := WalkStops(m, base, seg, p);
    ChasedIn(m, base, p, k);
  }

  // ---- Facts about what is met ----

  lemma {:induction false} ChaseLocates(m: seq<byte>, base: nat, p: nat, hops: nat)
    requires Chase(m, base, p, hops).end != Wild
    ensures p < |m|
    ensures var w := Chase(m, base, p, hops);
            forall i :: 0 <= i < |w.offs| ==> Locates(m, w.offs[i], w.labels[i])
    decreases hops
  {
    if HopAt(m, base, p).To? {
      ChaseLocates(m, base, HopAt(m, base, p).q, hops - 1);
      if m[p] < 64 {
        assert Locates(m, p, LabelAt(m, p));
      }
    }
  }

  /** The labels that are met are neither empty nor too long. */
  lemma ChasedLabels(m: seq<byte>, base: nat, p: nat)
    requires Chased(m, base, p).end != Wild
    ensures NoEmpty(Chased(m, base, p).labels) && Short(Chased(m, base, p).labels)
  {
    ChaseLocates(m, base, p, |m|);
    var w := Chased(m, base, p);
    forall i | 0 <= i < |w.labels| ensures 0 < |w.labels[i]| <= MAX_LABEL {
      assert Locates(m, w.offs[i], w.labels[i]);
    }
  }

  lemma {:induction false} ChaseSuffix(m: seq<byte>, base: nat, p: nat, n: nat, k: nat) returns (n': nat)
    requires StopsIn(m, base, p, n) && k < |Chase(m, base, p, n).offs|
    ensures var w := Chase(m, base, p, n);
            StopsIn(m, base, w.offs[k], n') && Chase(m, base, w.offs[k], n') == Walked(w.offs[k..], w.labels[k..], w.end)
    decreases n
  {
    var q := HopAt(m, base, p).q;
    var w, w' := Chase(m, base, p, n), Chase(m, base, q, n - 1);
    if m[p] >= 64 {
      n' := ChaseSuffix(m, base, q, n - 1, k);
    } else if k == 0 {
      n' := n;
    } else {
      n' := ChaseSuffix(m, base, q, n - 1, k - 1);
      assert w.offs[k..] == w'.offs[k - 1..] && w.labels[k..] == w'.labels[k - 1..];
    }
  }

  /** From the k-th label that is met, exactly the labels from k on are. */
  lemma ChasedSuffix(m: seq<byte>, base: nat, p: nat, k: nat)
    requires Chased(m, base, p).end != Wild && k < |Chased(m, base, p).offs|
    ensures var w := Chased(m, base, p);
            Chased(m, base, w.offs[k]) == Walked(w.offs[k..], w.labels[k..], w.end)
  {
    var n := ChaseStops(m, base, p, |m|);
    ChasedIn(m, base, p, n);
    var n' := ChaseSuffix(m, base, p, n, k);
    ChasedIn(m, base, Chased(m, base, p).offs[k], n');
  }
}
