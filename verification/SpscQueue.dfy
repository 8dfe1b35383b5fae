/**
 * `xsl::spsc` as its two users see it when their calls do not overlap: whole
 * calls of `push` and `pop`, and the destructor. The indices wrap around and each
 * side keeps its stale copy of the other's index from call to call.
 */
module SpscQueue {
  import opened Bits
  import opened Ring
  import opened Basics

  class Queue<V> {
    const slots: array<Slot<V>>
    const mask: nat
    var head: nat
    var headLocal: nat
    var tail: nat
    var tailLocal: nat

    ghost const bits: nat
    /** Every value pushed so far; how many of them were popped; the positions last seen. */
    ghost var pushed: seq<V>
    ghost var popped: nat
    ghost var seenTail: nat
    ghost var seenHead: nat

    ghost predicate Valid()
      reads this, slots
    {
      && mask == Ones(bits) && slots.Length == Pow2(bits) == mask + 1
      && head == At(bits, popped) && tail == At(bits, |pushed|)
      && headLocal == At(bits, seenTail) && tailLocal == At(bits, seenHead)
      && seenHead <= popped <= seenTail <= |pushed| <= seenHead + mask
      && Live(slots[..], bits, popped, pushed)
    }

    /** The values in the queue, oldest first. */
    ghost function Contents(): seq<V>
      reads this
      requires popped <= |pushed|
    {
      pushed[popped..]
    }

    /** A queue built for `size` items takes at least that many. */
    constructor (size: nat, width: nat)
      requires width > 0 && size + 1 <= Pow2(width - 1)
      ensures Valid() && Contents() == [] && fresh(slots)
      ensures size <= mask && LeastPow2(mask + 1, size + 1)
    {
      assert Pow2(width) == 2 * Pow2(width - 1);
      var n := Ceil2Pow2(size + 1, width);
      ghost var k: nat :| n == Pow2(k);
      OnesValue(k);
      var memory := new Slot<V>[n](_ => Raw);
      slots, mask, bits := memory, n - 1, k;
      head, headLocal, tail, tailLocal := 0, 0, 0, 0;
      pushed, popped, seenTail, seenHead := [], 0, 0, 0;
      new;
      NothingLive(slots[..], bits);
      assert At(bits, 0) == 0;
    }

    /** Append `v`, unless the queue is full. */
    method Push(v: V) returns (ok: bool)
      requires Valid()
      modifies this, slots
      ensures Valid()
      ensures ok <==> |old(Contents())| < mask
      ensures Contents() == old(Contents()) + if ok then [v] else []
    {
      hide And, Ones, Pow2, At;
      NextIsSuccessor(bits, |pushed|);
      SameIndex(bits, seenHead, |pushed| + 1);
      SameIndex(bits, popped, |pushed| + 1);
      var next := And(tail + 1, mask);
      if next == tailLocal {
        tailLocal, seenHead := head, popped;
        if next == tailLocal {
          return false;
        }
      }
      ghost var before := slots[..];
      ConstructLive(before, bits, popped, pushed, v);
      slots[tail] := Item(v);
      assert slots[..] == before[tail := Item(v)];
      tail, pushed := next, pushed + [v];
      ok := true;
    }

    /** Remove the oldest value, unless the queue is empty. */
    method Pop() returns (r: Option<V>)
      requires Valid()
      modifies this, slots
      ensures Valid()
      ensures r.None? <==> old(Contents()) == []
      ensures r.Some? ==> [r.value] + Contents() == old(Contents())
      ensures r.None? ==> Contents() == []
    {
      hide And, Ones, Pow2, At;
      NextIsSuccessor(bits, popped);
      SameIndex(bits, popped, seenTail);
      SameIndex(bits, popped, |pushed|);
      if head == headLocal {
        headLocal, seenTail := tail, |pushed|;
        if head == headLocal {
          return None;
        }
      }
      var at := head;
      head := And(head + 1, mask);
      ghost var before := slots[..];
      DestroyLive(before, bits, popped, pushed);
      r := Some(slots[at].value);
      slots[at] := Raw;
      assert slots[..] == before[at := Raw];
      popped := popped + 1;
    }

    /** The destructor destroys exactly the values still in the queue. */
    method Dispose() returns (destroyed: seq<V>)
      requires Valid()
      modifies slots
      ensures destroyed == Contents()
      ensures forall k :: 0 <= k < slots.Length ==> slots[k] == Raw
    {
      destroyed := DestroyAll(slots, mask, head, tail, bits, popped, pushed);
    }
  }
}
