/**
 * `sendv`: a list of chunks written with scatter-gather writes that may take any
 * part of what they are given, or nothing for the time being.
 */
module Sendv {
  import opened Basics

  type Bytes = seq<byte>

  const MAX_CHUNKS := 8

  /** The first `k` chunks, one after another. */
  function Flat(chunks: seq<Bytes>, k: nat): Bytes
    requires k <= |chunks|
  {
    if k == 0 then [] else Flat(chunks, k - 1) + chunks[k - 1]
  }

  function Whole(chunks: seq<Bytes>): Bytes {
    Flat(chunks, |chunks|)
  }

  lemma {:induction false} FlatPrefix(chunks: seq<Bytes>, more: seq<Bytes>, k: nat)
    requires k <= |chunks|
    ensures Flat(chunks + more, k) == Flat(chunks, k)
  {
    if k > 0 {
      FlatPrefix(chunks, more, k - 1);
    }
  }

  lemma WholeAppend(chunks: seq<Bytes>, c: Bytes)
    ensures Whole(chunks + [c]) == Whole(chunks) + c
  {
    FlatPrefix(chunks, [c], |chunks|);
  }

  /** What a write comes to: octets taken, none taken, not now but maybe after a wait, or an error. */
  datatype Answer = Took(n: pos) | Nothing | Again(ready: bool) | Failed(code: nat)

  type pos = n: nat | n > 0 witness 1

  /** The next answer to a write of `offered` octets; in the end everything is taken. */
  function Answered(script: seq<Answer>, offered: pos): Answer {
    if script == [] then Took(offered)
    else match script[0]
      case Took(n) => Took(if n <= offered then n else offered)
      case other => other
  }

  function Rest(script: seq<Answer>): seq<Answer> {
    if script == [] then [] else script[1..]
  }

  /** The other side: it takes parts of what it is given, or refuses, by a script. */
  class Kernel {
    var sent: Bytes
    var script: seq<Answer>

    constructor (script: seq<Answer>)
      ensures sent == [] && this.script == script
    {
      sent, this.script := [], script;
    }

    method Write(data: Bytes) returns (w: Answer)
      requires data != []
      modifies this
      ensures w == Answered(old(script), |data|) && script == Rest(old(script))
      ensures sent == old(sent) + if w.Took? then data[..w.n] else []
    {
      w := Answered(script, |data|);
      script := Rest(script);
      if w.Took? {
        sent := sent + data[..w.n];
      }
    }

    method Writev(iov: seq<Bytes>) returns (w: Answer)
      requires Whole(iov) != []
      modifies this
      ensures w == Answered(old(script), |Whole(iov)|) && script == Rest(old(script))
      ensures sent == old(sent) + if w.Took? then Whole(iov)[..w.n] else []
    {
      w := Write(Whole(iov));
    }
  }

  // ---- What becomes of a transfer ----

  /** How a transfer ends: what was written, the error, and what the other side has yet to answer. */
  datatype Outcome = Outcome(size: nat, ec: Option<Errc>, rest: seq<Answer>)

  /** A transfer of `total` octets, `written` of them written, until it is through or stops. */
  function Transfer(total: nat, written: nat, script: seq<Answer>): (o: Outcome)
    requires written <= total
    ensures written <= o.size <= total
    decreases total - written, |script|
  {
    if written == total then Outcome(written, None, script)
    else match Answered(script, total - written)
      case Took(n) => Transfer(total, written + n, Rest(script))
      case Again(ready) =>
        if ready then Transfer(total, written, Rest(script)) else Outcome(written, Some(NotConnected), Rest(script))
      case Failed(code) => Outcome(written, Some(Other(code)), Rest(script))
      case Nothing => Outcome(written, None, Rest(script))
  }

  /** One write of a transfer. */
  lemma TransferStep(total: nat, written: nat, script: seq<Answer>)
    requires written < total
    ensures var w, rest := Answered(script, total - written), Rest(script);
            && (w.Took? ==> w.n <= total - written && Transfer(total, written, script) == Transfer(total, written + w.n, rest))
            && (w.Again? && w.ready ==> |rest| < |script| && Transfer(total, written, script) == Transfer(total, written, rest))
            && (w.Again? && !w.ready ==> Transfer(total, written, script) == Outcome(written, Some(NotConnected), rest))
            && (w.Failed? ==> Transfer(total, written, script) == Outcome(written, Some(Other(w.code)), rest))
            && (w.Nothing? ==> Transfer(total, written, script) == Outcome(written, None, rest))
  {}

  lemma TransferEnds(total: nat, script: seq<Answer>)
    ensures Transfer(total, total, script) == Outcome(total, None, script)
  {}

  /** The first `k` answers let a transfer go on. */
  predicate Going(script: seq<Answer>, k: nat) {
    k <= |script| && forall i :: 0 <= i < k ==> script[i].Took? || (script[i].Again? && script[i].ready)
  }

  /** The octets the first `k` answers take. */
  function Octets(script: seq<Answer>, k: nat): nat
    requires k <= |script|
  {
    if k == 0 then 0 else (if script[0].Took? then script[0].n else 0) + Octets(script[1..], k - 1)
  }

  /** Answer number `k` is the first that does not let a transfer go on, and fewer than `total` octets are taken before it. */
  predicate BreaksAt(script: seq<Answer>, total: nat, k: nat) {
    && k < |script| && !script[k].Took? && script[k] != Again(true)
    && Going(script, k) && Octets(script, k) < total
  }

  /** Every write of the transfer lets it go on. */
  ghost predicate Unbroken(script: seq<Answer>, total: nat) {
    forall k: nat :: !BreaksAt(script, total, k)
  }

  /** An answer that breaks a transfer off ends it with what was taken by then, and with the error it stands for. */
  lemma {:induction false} Broken(total: nat, written: nat, script: seq<Answer>, k: nat)
    requires written <= total && BreaksAt(script, total - written, k)
    ensures var o := Transfer(total, written, script);
            && o.size == written + Octets(script, k) && o.rest == script[k + 1..]
            && (script[k] == Nothing ==> o.ec == None)
            && (script[k] == Again(false) ==> o.ec == Some(NotConnected))
            && (script[k].Failed? ==> o.ec == Some(Other(script[k].code)))
    decreases k
  {
    if k > 0 {
      assert script[1..][k - 1] == script[k] && script[1..][k..] == script[k + 1..];
      assert script[0].Took? || script[0] == Again(true);
      assert Going(script[1..], k - 1);
      Broken(total, if script[0].Took? then written + script[0].n else written, script[1..], k - 1);
    }
  }

  /** Without one a transfer comes through, and asks for no more than it needs. */
  lemma {:induction false} Through(total: nat, script: seq<Answer>) returns (used: nat)
    requires Unbroken(script, total)
    ensures used <= |script| && Transfer(total, 0, script) == Outcome(total, None, script[used..])
    ensures Going(script, used) && (used < |script| ==> Octets(script, used) >= total)
    ensures forall k: nat :: k < used ==> Octets(script, k) < total
  {
    used := ThroughFrom(total, 0, script);
  }

  lemma {:induction false} ThroughFrom(total: nat, written: nat, script: seq<Answer>) returns (used: nat)
    requires written <= total && Unbroken(script, total - written)
    ensures used <= |script| && Transfer(total, written, script) == Outcome(total, None, script[used..])
    ensures Going(script, used) && (used < |script| ==> Octets(script, used) >= total - written)
    ensures forall k: nat :: k < used ==> Octets(script, k) < total - written
    decreases total - written, |script|
  {
    used := 0;
    if written == total || script == [] {
      return;
    }
    assert !BreaksAt(script, total - written, 0);
    var n: nat := if script[0].Took? then script[0].n else 0;
    if written + n >= total {
      used := 1;
      return;
    }
    if !Unbroken(script[1..], total - written - n) {
      var k: nat :| BreaksAt(script[1..], total - written - n, k);
      GoingOn(script, k);
      assert BreaksAt(script, total - written, k + 1);
    }
    var rest := ThroughFrom(total, written + n, script[1..]);
    GoingOn(script, rest);
    used := rest + 1;
    assert script[1..][rest..] == script[used..];
  }

  lemma GoingOn(script: seq<Answer>, k: nat)
    requires script != [] && (script[0].Took? || script[0] == Again(true)) && k < |script|
    ensures Going(script[1..], k) <==> Going(script, k + 1)
    ensures forall j: nat :: j <= k ==>
              Octets(script, j + 1) == (if script[0].Took? then script[0].n else 0) + Octets(script[1..], j)
  {
    assert forall i :: 0 <= i < k ==> script[1..][i] == script[i + 1];
    if Going(script[1..], k) {
      forall i | 0 <= i < k + 1 ensures script[i].Took? || (script[i].Again? && script[i].ready) {
        if i > 0 {
          assert script[i] == script[1..][i - 1];
        }
      }
    }
  }

  /** A write that took nothing is answer number `k`, and fewer than `total` octets were taken before it. */
  predicate HaltsAt(script: seq<Answer>, total: nat, k: nat) {
    BreaksAt(script, total, k) && script[k] == Nothing
  }

  /** A transfer that ends short and without an error was halted by a write that took nothing. */
  lemma {:induction false} Short(total: nat, written: nat, script: seq<Answer>) returns (k: nat)
    requires written <= total
    requires Transfer(total, written, script).ec.None? && Transfer(total, written, script).size < total
    ensures HaltsAt(script, total - written, k)
    decreases total - written, |script|
  {
    if script[0] == Nothing {
      k := 0;
    } else {
      var n := if script[0].Took? then script[0].n else 0;
      k := Short(total, written + n, script[1..]);
      assert script[1..][k] == script[k + 1];
      forall i | 0 <= i < k + 1 ensures script[i].Took? || (script[i].Again? && script[i].ready) {
        if i > 0 {
          assert script[i] == script[1..][i - 1];
        }
      }
      k := k + 1;
    }
  }

  /**
   * A transfer is written as a whole or reports an error, except when a write takes
   * nothing before that many octets are taken; then it does neither.
   */
  lemma WholeOrErrorExactly(total: nat, script: seq<Answer>)
    ensures var o := Transfer(total, 0, script);
            o.size == total || o.ec.Some? <==> forall k: nat :: !HaltsAt(script, total, k)
  {
    var o := Transfer(total, 0, script);
    if k: nat :| HaltsAt(script, total, k) {
      Broken(total, 0, script, k);
    }
    if o.size < total && o.ec.None? {
      var k := Short(total, 0, script);
    }
  }

  lemma NoChunks(chunks: seq<Bytes>)
    requires chunks == []
    ensures Whole(chunks) == []
  {}

  /** Chunk `i` from where it is to be written goes on from what is left of those before it. */
  lemma NextSlice(chunks: seq<Bytes>, i: nat, written: nat, skip: nat)
    requires i < |chunks|
    requires if skip > 0 then written == |Flat(chunks, i)| + skip && skip <= |chunks[i]| else written <= |Flat(chunks, i)|
    ensures written <= |Flat(chunks, i + 1)|
    ensures Flat(chunks, i + 1)[written..] == (if skip > 0 then [] else Flat(chunks, i)[written..]) + chunks[i][skip..]
  {}

  /** What is left of the chunks behind `written` octets, as the slices of a vector. */
  method Gather(chunks: seq<Bytes>, idx: nat, offset: nat, ghost written: nat, iov: array<Bytes>) returns (cnt: nat)
    requires |chunks| <= MAX_CHUNKS == iov.Length && idx <= |chunks|
    requires written == |Flat(chunks, idx)| + offset && (if idx < |chunks| then offset <= |chunks[idx]| else offset == 0)
    modifies iov
    ensures cnt <= iov.Length && written <= |Whole(chunks)| && Whole(iov[..cnt]) == Whole(chunks)[written..]
    ensures cnt == 0 <==> written == |Whole(chunks)|
  {
    cnt := 0;
    var i := idx;
    hide Flat;
    assert Whole(iov[..0]) == [] by { NoChunks(iov[..0]); }
    while i < |chunks|
      invariant idx <= i <= |chunks| && cnt <= i - idx
      invariant i == idx ==> cnt == 0
      invariant i > idx || offset == 0 ==> written <= |Flat(chunks, i)| && Whole(iov[..cnt]) == Flat(chunks, i)[written..]
      invariant cnt > 0 ==> Whole(iov[..cnt]) != []
    {
      var skip := if i == idx then offset else 0;
      var slice := chunks[i][skip..];
      ghost var before := iov[..cnt];
      iov[cnt] := slice;
      assert iov[..cnt + 1] == before + [slice] && iov[..cnt] == before;
      WholeAppend(before, slice);
      NextSlice(chunks, i, written, skip);
      if slice != [] {
        cnt := cnt + 1;
      }
      i := i + 1;
    }
  }

  /** Move the position on by what was written. */
  method Advance(chunks: seq<Bytes>, idx: nat, offset: nat, ghost written: nat) returns (idx': nat, offset': nat)
    requires idx <= |chunks| && written == |Flat(chunks, idx)| + offset <= |Whole(chunks)|
    ensures idx' <= |chunks| && written == |Flat(chunks, idx')| + offset'
    ensures if idx' < |chunks| then offset' < |chunks[idx']| else offset' == 0
  {
    idx', offset' := idx, offset;
    while idx' < |chunks| && offset' >= |chunks[idx']|
      invariant idx' <= |chunks| && written == |Flat(chunks, idx')| + offset'
      decreases |chunks| - idx'
    {
      offset' := offset' - |chunks[idx']|;
      idx' := idx' + 1;
    }
  }

  /** One scatter-gather write of what is left. */
  method WriteRest(kernel: Kernel, chunks: seq<Bytes>, idx: nat, offset: nat, ghost written: nat) returns (w: Answer)
    requires |chunks| <= MAX_CHUNKS && idx <= |chunks| && written < |Whole(chunks)|
    requires written == |Flat(chunks, idx)| + offset && (if idx < |chunks| then offset <= |chunks[idx]| else offset == 0)
    modifies kernel
    ensures w == Answered(old(kernel.script), |Whole(chunks)| - written) && kernel.script == Rest(old(kernel.script))
    ensures kernel.sent == old(kernel.sent) + if w.Took? then Whole(chunks)[written..][..w.n] else []
  {
    var iov := new Bytes[MAX_CHUNKS](_ => []);
    var cnt := Gather(chunks, idx, offset, written, iov);
    hide Flat, Whole;
    w := kernel.Writev(iov[..cnt]);
  }

  /** The loop of `sendv`: scatter-gather writes until everything is taken. */
  method SendAll(kernel: Kernel, chunks: seq<Bytes>, total: nat) returns (written: nat, ec: Option<Errc>)
    requires |chunks| <= MAX_CHUNKS && total == |Whole(chunks)|
    modifies kernel
    ensures Outcome(written, ec, kernel.script) == Transfer(total, 0, old(kernel.script))
    ensures written <= total && kernel.sent == old(kernel.sent) + Whole(chunks)[..written]
  {
    written, ec := 0, None;
    ghost var whole := Whole(chunks);
    var idx: nat, offset: nat := 0, 0;
    assert kernel.sent == kernel.sent + whole[..0];
    hide Flat, Whole, Transfer, Answered, Rest;
    while written < total
      invariant idx <= |chunks| && written == |Flat(chunks, idx)| + offset <= total
      invariant if idx < |chunks| then offset <= |chunks[idx]| else offset == 0
      invariant kernel.sent == old(kernel.sent) + whole[..written]
      invariant Transfer(total, written, kernel.script) == Transfer(total, 0, old(kernel.script))
      decreases total - written, |kernel.script|
    {
      TransferStep(total, written, kernel.script);
      var w := WriteRest(kernel, chunks, idx, offset, written);
      match w {
        case Took(n) =>
          TookMore(old(kernel.sent), whole, written, n);
          written := written + n;
          offset := offset + n;
          idx, offset := Advance(chunks, idx, offset, written);
        case Again(ready) =>
          if !ready {
            return written, Some(NotConnected);
          }
        case Failed(code) =>
          return written, Some(Other(code));
        case Nothing =>
          return;
      }
    }
    TransferEnds(total, kernel.script);
  }

  /**
   * `sendv`: the transfer of all the chunks. What the other side has taken is always
   * the first `written` octets of them.
   */
  method Send(kernel: Kernel, chunks: seq<Bytes>) returns (written: nat, ec: Option<Errc>)
    modifies kernel
    ensures |chunks| > 8 ==> written == 0 && ec == Some(InvalidArgument) && kernel.script == old(kernel.script)
    ensures |chunks| <= 8 ==> Outcome(written, ec, kernel.script) == Transfer(|Whole(chunks)|, 0, old(kernel.script))
    ensures written <= |Whole(chunks)| && kernel.sent == old(kernel.sent) + Whole(chunks)[..written]
  {
    written, ec := 0, None;
    assert kernel.sent == kernel.sent + Whole(chunks)[..0];
    if |chunks| > MAX_CHUNKS {
      return 0, Some(InvalidArgument);
    }
    var total := Total(chunks);
    if total == 0 {
      return;
    }
    written, ec := SendAll(kernel, chunks, total);
  }

  // ---- One chunk ----

  /** What becomes of a write of `size` octets: one that takes nothing at all counts as a lost connection. */
  function Written(size: nat, script: seq<Answer>): (o: Outcome)
    ensures o.size <= size && (o.size == 0 ==> o.ec == Some(NotConnected))
  {
    var o := Transfer(size, 0, script);
    if o.size == 0 then o.(ec := Some(NotConnected)) else o
  }

  /** The loop of `send`: at least one write, and more of them until everything is taken. */
  method SendLoop(kernel: Kernel, data: Bytes) returns (total: nat, ec: Option<Errc>)
    requires data != []
    modifies kernel
    ensures Outcome(total, ec, kernel.script) == Transfer(|data|, 0, old(kernel.script))
    ensures kernel.sent == old(kernel.sent) + data[..total]
  {
    total, ec := 0, None;
    assert kernel.sent == kernel.sent + data[..0];
    while total < |data|
      invariant total <= |data| && kernel.sent == old(kernel.sent) + data[..total]
      invariant Transfer(|data|, total, kernel.script) == Transfer(|data|, 0, old(kernel.script))
      decreases |data| - total, |kernel.script|
    {
      var w := kernel.Write(data[total..]);
      match w {
        case Took(n) =>
          TookMore(old(kernel.sent), data, total, n);
          total := total + n;
        case Nothing =>
          return;
        case Again(ready) =>
          if !ready {
            return total, Some(NotConnected);
          }
        case Failed(code) =>
          return total, Some(Other(code));
      }
    }
  }

  /** `write` of a span: `send`, and an error when nothing was taken. */
  method WriteSpan(kernel: Kernel, data: Bytes) returns (size: nat, ec: Option<Errc>)
    requires data != []
    modifies kernel
    ensures Outcome(size, ec, kernel.script) == Written(|data|, old(kernel.script))
    ensures kernel.sent == old(kernel.sent) + data[..size]
  {
    size, ec := SendLoop(kernel, data);
    if size == 0 {
      ec := Some(NotConnected);
    }
  }

  lemma TookMore(sent: Bytes, whole: Bytes, written: nat, n: nat)
    requires written + n <= |whole|
    ensures sent + whole[..written] + whole[written..][..n] == sent + whole[..written + n]
  {
    assert whole[..written] + whole[written..][..n] == whole[..written + n];
  }

  /** The octets in all chunks. */
  method Total(chunks: seq<Bytes>) returns (total: nat)
    ensures total == |Whole(chunks)|
  {
    total := 0;
    var i := 0;
    while i < |chunks|
      invariant 0 <= i <= |chunks| && total == |Flat(chunks, i)|
    {
      total := total + |chunks[i]|;
      i := i + 1;
    }
  }
}
