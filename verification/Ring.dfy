/**
 * Ring storage shared by the queue and the channel. Positions are counted without
 * bound; the index of position `c` is its residue modulo the ring size, a power
 * of two, and one slot always stays free.
 */
module Ring {
  import opened Bits

  /** Raw memory, or a constructed item. */
  datatype Slot<+V> = Raw | Item(value: V)

  function At(bits: nat, c: nat): (i: nat)
    ensures i < Pow2(bits)
  {
    c % Pow2(bits)
  }

  /** The index after `i`, as the code computes it. */
  function Next(bits: nat, i: nat): (n: nat)
    ensures n < Pow2(bits)
  {
    MaskIsRemainder(i + 1, bits);
    And(i + 1, Ones(bits))
  }

  lemma NextIsSuccessor(bits: nat, c: nat)
    ensures Next(bits, At(bits, c)) == At(bits, c + 1)
  {
    hide And, Ones, Pow2;
    MaskIsRemainder(At(bits, c) + 1, bits);
    SuccessorRemainder(c, Pow2(bits));
  }

  /** Positions less than a ring apart have different indices; a ring apart, the same. */
  lemma SameIndex(bits: nat, a: nat, b: nat)
    requires a <= b <= a + Pow2(bits)
    ensures At(bits, a) == At(bits, b) <==> b == a || b == a + Pow2(bits)
  {
    var n := Pow2(bits);
    var q, r := a / n, a % n;
    var d := b - a;
    assert a == q * n + r;
    if d == n {
      assert b == (q + 1) * n + r;
      RemainderUnique(q + 1, n, r);
    } else if r + d < n {
      RemainderUnique(q, n, r + d);
    } else {
      assert b == (q + 1) * n + (r + d - n);
      RemainderUnique(q + 1, n, r + d - n);
    }
  }

  /**
   * The slots hold exactly `content[done..]`: from position `done` on, one ring
   * long, every item of the content is in its slot and every other slot is raw.
   */
  ghost predicate Live<V>(slots: seq<Slot<V>>, bits: nat, done: nat, content: seq<V>) {
    && |slots| == Pow2(bits)
    && done <= |content| <= done + |slots|
    && forall c: nat {:trigger At(bits, c)} :: done <= c < done + |slots| ==>
         slots[At(bits, c)] == if c < |content| then Item(content[c]) else Raw
  }

  lemma LiveFits<V>(slots: seq<Slot<V>>, bits: nat, done: nat, content: seq<V>)
    requires Live(slots, bits, done, content)
    ensures |slots| == Pow2(bits) && done <= |content| <= done + |slots|
  {}

  lemma NothingLive<V>(slots: seq<Slot<V>>, bits: nat)
    requires |slots| == Pow2(bits) && forall i :: 0 <= i < |slots| ==> slots[i] == Raw
    ensures Live(slots, bits, 0, [])
  {}

  /** An item is constructed behind the last one, in raw memory. */
  lemma ConstructLive<V>(slots: seq<Slot<V>>, bits: nat, done: nat, content: seq<V>, v: V)
    requires Live(slots, bits, done, content) && |content| < done + |slots|
    ensures slots[At(bits, |content|)] == Raw
    ensures Live(slots[At(bits, |content|) := Item(v)], bits, done, content + [v])
  {
    var i, content' := At(bits, |content|), content + [v];
    var slots' := slots[i := Item(v)];
    forall c: nat | done <= c < done + |slots|
      ensures slots'[At(bits, c)] == if c < |content'| then Item(content'[c]) else Raw
    {
      if c < |content| {
        SameIndex(bits, c, |content|);
      } else {
        SameIndex(bits, |content|, c);
      }
    }
  }

  /** The first live item is destroyed. */
  lemma DestroyLive<V>(slots: seq<Slot<V>>, bits: nat, done: nat, content: seq<V>)
    requires Live(slots, bits, done, content) && done < |content|
    ensures slots[At(bits, done)] == Item(content[done])
    ensures Live(slots[At(bits, done) := Raw], bits, done + 1, content)
  {
    var slots' := slots[At(bits, done) := Raw];
    forall c: nat | done + 1 <= c < done + 1 + |slots|
      ensures slots'[At(bits, c)] == if c < |content| then Item(content[c]) else Raw
    {
      SameIndex(bits, done, c);
    }
  }

  /** Once every item is destroyed no slot holds one. */
  lemma NoneLeft<V>(slots: seq<Slot<V>>, bits: nat, content: seq<V>)
    requires Live(slots, bits, |content|, content)
    ensures forall i :: 0 <= i < |slots| ==> slots[i] == Raw
  {
    forall i | 0 <= i < |slots| ensures slots[i] == Raw {
      var c := PositionOf(bits, |content|, i);
      assert slots[At(bits, c)] == Raw;
    }
  }

  /** Every index is that of a position in the window that starts at `from`. */
  lemma PositionOf(bits: nat, from: nat, i: nat) returns (c: nat)
    requires i < Pow2(bits)
    ensures from <= c < from + Pow2(bits) && At(bits, c) == i
  {
    var n := Pow2(bits);
    var q, r := from / n, from % n;
    assert from == q * n + r;
    if r <= i {
      c := q * n + i;
      RemainderUnique(q, n, i);
    } else {
      c := (q + 1) * n + i;
      assert c == q * n + n + i;
      RemainderUnique(q + 1, n, i);
    }
  }

  /** The destructor's loop: it destroys the live items, each once and in order, and nothing else. */
  method DestroyAll<V>(slots: array<Slot<V>>, mask: nat, head: nat, tail: nat, ghost bits: nat, ghost done: nat, ghost content: seq<V>)
    returns (destroyed: seq<V>)
    requires Live(slots[..], bits, done, content) && |content| < done + Pow2(bits)
    requires mask == Ones(bits) && head == At(bits, done) && tail == At(bits, |content|)
    modifies slots
    ensures destroyed == content[done..]
    ensures forall k :: 0 <= k < slots.Length ==> slots[k] == Raw
  {
    var i := head;
    ghost var d := done;
    destroyed := [];
    SameIndex(bits, d, |content|);
    while i != tail
      invariant done <= d <= |content| && i == At(bits, d)
      invariant i == tail <==> d == |content|
      invariant Live(slots[..], bits, d, content)
      invariant destroyed == content[done..d]
      decreases |content| - d
    {
      ghost var before := slots[..];
      DestroyLive(before, bits, d, content);
      destroyed := destroyed + [slots[i].value];
      slots[i] := Raw;
      assert slots[..] == before[i := Raw];
      NextIsSuccessor(bits, d);
      i := And(i + 1, mask);
      d := d + 1;
      SameIndex(bits, d, |content|);
    }
    NoneLeft(slots[..], bits, content);
    assert forall k :: 0 <= k < slots.Length ==> slots[..][k] == Raw;
  }
}
