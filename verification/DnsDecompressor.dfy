/**
 * `DnDecompressor` and `skip_dn`: reading names back from a message. The two
 * forms of `decompress` share `prepare_rest`, which reads on behind a pointer.
 */
module DnsDecompressor {
  import opened Basics
  import opened DnsWire

  // ---- What the reading loops do ----

  /**
   * The labels read behind a pointer. A zero octet ends the name where a label
   * is expected, but not directly behind a pointer: there it is read as an empty
   * label, and reading goes on with the octet after it.
   */
  function Rest(m: seq<byte>, base: nat, seg: nat, p: nat): (w: Walked)
    ensures |w.offs| == |w.labels|
    decreases seg, |m| - p, 1
  {
    if p < |m| && m[p] == 0 then Walked([], [], Root) else RestLabel(m, base, seg, p)
  }

  function RestLabel(m: seq<byte>, base: nat, seg: nat, p: nat): (w: Walked)
    ensures |w.offs| == |w.labels|
    decreases seg, |m| - p, 0
  {
    if p >= |m| then Walked([], [], Wild)
    else if m[p] >= 192 then
      if p + 1 < |m| && Target(m, base, p) < seg
      then RestLabel(m, base, Target(m, base, p), Target(m, base, p))
      else Walked([], [], Wild)
    else if m[p] >= 64 then Walked([], [], Illegal)
    else
      var w := Rest(m, base, seg, p + 1 + m[p]);
      Walked([p] + w.offs, [LabelAt(m, p)] + w.labels, w.end)
  }

  /** The labels `decompress` reads at `p`: a first run, and what its pointer leads to. */
  function Read(m: seq<byte>, base: nat, seg: nat, p: nat): (w: Walked)
    ensures |w.offs| == |w.labels|
    decreases |m| - p
  {
    if p >= |m| then Walked([], [], Wild)
    else if m[p] == 0 then Walked([], [], Root)
    else if m[p] >= 192 then
      if p + 1 < |m| && Target(m, base, p) < seg
      then Rest(m, base, Target(m, base, p), Target(m, base, p))
      else Walked([], [], Wild)
    else if m[p] >= 64 then Walked([], [], Illegal)
    else
      var w := Read(m, base, seg, p + 1 + m[p]);
      Walked([p] + w.offs, [LabelAt(m, p)] + w.labels, w.end)
  }

  // ---- When that is the name ----

  /** No pointer but the first leads straight to a zero octet; the first may. */
  predicate PointersSafe(m: seq<byte>, base: nat, seg: nat, p: nat)
    decreases |m| - p
  {
    if p >= |m| || m[p] == 0 then true
    else if m[p] >= 192 then
      p + 1 < |m| && Target(m, base, p) < seg ==> NoRootPointer(m, base, Target(m, base, p), Target(m, base, p))
    else if m[p] >= 64 then true
    else PointersSafe(m, base, seg, p + 1 + m[p])
  }

  lemma {:induction false} NoRootPointerIsSafe(m: seq<byte>, base: nat, seg: nat, p: nat)
    requires NoRootPointer(m, base, seg, p)
    ensures PointersSafe(m, base, seg, p)
    decreases |m| - p
  {
    if p < |m| && 0 < m[p] < 64 {
      NoRootPointerIsSafe(m, base, seg, p + 1 + m[p]);
    }
  }

  lemma {:induction false} RestIsWalk(m: seq<byte>, base: nat, seg: nat, p: nat)
    requires Walk(m, base, seg, p).end != Wild
    requires NoRootPointer(m, base, seg, p)
    ensures Rest(m, base, seg, p) == Walk(m, base, seg, p)
    decreases seg, |m| - p
  {
    if p < |m| && m[p] >= 192 {
      RestIsWalk(m, base, Target(m, base, p), Target(m, base, p));
    } else if p < |m| && 0 < m[p] < 64 {
      RestIsWalk(m, base, seg, p + 1 + m[p]);
    }
  }

  lemma {:induction false} RestIsLonger(m: seq<byte>, base: nat, seg: nat, p: nat)
    requires Walk(m, base, seg, p).end != Wild
    requires !NoRootPointer(m, base, seg, p)
    ensures |Text(Rest(m, base, seg, p).labels)| > |Text(Walk(m, base, seg, p).labels)|
    decreases seg, |m| - p
  {
    if m[p] >= 192 {
      var t := Target(m, base, p);
      if m[t] != 0 {
        RestIsLonger(m, base, t, t);
      } else {
        assert RestLabel(m, base, t, t).labels == [LabelAt(m, t)] + Rest(m, base, t, t + 1).labels;
      }
    } else if m[p] < 64 {
      RestIsLonger(m, base, seg, p + 1 + m[p]);
      var r, w := Rest(m, base, seg, p + 1 + m[p]), Walk(m, base, seg, p + 1 + m[p]);
      assert ([LabelAt(m, p)] + r.labels)[1..] == r.labels && ([LabelAt(m, p)] + w.labels)[1..] == w.labels;
    }
  }

  /** `decompress` yields the text of the name exactly when no later pointer leads to a zero octet. */
  lemma {:induction false} ReadIsNameExactly(m: seq<byte>, base: nat, seg: nat, p: nat)
    requires Walk(m, base, seg, p).end != Wild
    ensures PointersSafe(m, base, seg, p) ==> Read(m, base, seg, p) == Walk(m, base, seg, p)
    ensures PointersSafe(m, base, seg, p) <==>
              Text(Read(m, base, seg, p).labels) == Text(Walk(m, base, seg, p).labels)
    decreases |m| - p
  {
    if m[p] >= 192 {
      var t := Target(m, base, p);
      if NoRootPointer(m, base, t, t) {
        RestIsWalk(m, base, t, t);
      } else {
        RestIsLonger(m, base, t, t);
      }
    } else if 0 < m[p] < 64 {
      ReadIsNameExactly(m, base, seg, p + 1 + m[p]);
      var r, w, l := Read(m, base, seg, p + 1 + m[p]), Walk(m, base, seg, p + 1 + m[p]), LabelAt(m, p);
      assert ([l] + r.labels)[1..] == r.labels && ([l] + w.labels)[1..] == w.labels;
      var head := l + [DOT];
      assert (head + Text(r.labels))[|head|..] == Text(r.labels);
      assert (head + Text(w.labels))[|head|..] == Text(w.labels);
    }
  }

  // ---- What is consumed ----

  /** The octets a name occupies where it stands: its labels and the octets that close it. */
  function Extent(m: seq<byte>, p: nat): nat
    requires RunEnd(m, p) < |m|
  {
    RunEndMonotone(m, p);
    RunEnd(m, p) - p + (if m[RunEnd(m, p)] < 192 then 1 else 2)
  }

  lemma {:induction false} RunEndMonotone(m: seq<byte>, p: nat)
    ensures p <= RunEnd(m, p)
    ensures RunEnd(m, p) < |m| ==> m[RunEnd(m, p)] == 0 || m[RunEnd(m, p)] >= 64
    decreases |m| - p
  {
    if p < |m| && 0 < m[p] < 64 {
      RunEndMonotone(m, p + 1 + m[p]);
    }
  }

  lemma ExtentAt(m: seq<byte>, p: nat, q: nat)
    requires q < |m| && RunEnd(m, q) == q == RunEnd(m, p)
    ensures Extent(m, p) == q - p + (if m[q] < 192 then 1 else 2)
  {}

  /** What can be read is closed inside the message. */
  lemma {:induction false} ReadCloses(m: seq<byte>, base: nat, seg: nat, p: nat)
    requires Read(m, base, seg, p).end != Wild
    ensures RunEnd(m, p) < |m|
    ensures m[RunEnd(m, p)] >= 192 ==> RunEnd(m, p) + 1 < |m|
    decreases |m| - p
  {
    if p < |m| && 0 < m[p] < 64 {
      ReadCloses(m, base, seg, p + 1 + m[p]);
    }
  }

  /** What is still to be read, as text. */
  function Ahead(w: Walked): seq<byte> {
    Text(w.labels)
  }

  /** With `done` read, the first run goes on at `q`; in the end the text is `all`. */
  ghost predicate InRun(m: seq<byte>, base: nat, seg: nat, q: nat, done: seq<byte>, all: seq<byte>, end: End) {
    Read(m, base, seg, q).end == end && done + Ahead(Read(m, base, seg, q)) == all
  }

  ghost predicate InRest(m: seq<byte>, base: nat, seg: nat, q: nat, done: seq<byte>, all: seq<byte>, end: End) {
    Rest(m, base, seg, q).end == end && done + Ahead(Rest(m, base, seg, q)) == all
  }

  ghost predicate InRestLabel(m: seq<byte>, base: nat, seg: nat, q: nat, done: seq<byte>, all: seq<byte>, end: End) {
    RestLabel(m, base, seg, q).end == end && done + Ahead(RestLabel(m, base, seg, q)) == all
  }

  lemma InRestIs(m: seq<byte>, base: nat, q: nat, done: seq<byte>, all: seq<byte>, end: End)
    requires InRest(m, base, q, q, done, all, end)
    ensures Rest(m, base, q, q).end == end && done + Ahead(Rest(m, base, q, q)) == all
  {}

  lemma OneLabel(l: Label, w: Walked, o: nat, done: seq<byte>, all: seq<byte>)
    requires done + Ahead(Walked([o] + w.offs, [l] + w.labels, w.end)) == all
    ensures done + l + [DOT] + Ahead(w) == all && |done| + |l| < |all|
  {
    TextHead(l, w.labels);
    assert done + (l + [DOT] + Text(w.labels)) == done + l + [DOT] + Text(w.labels);
  }

  /** A walk that is not wild finds its next label inside the message. */
  lemma ReadInside(m: seq<byte>, base: nat, seg: nat, q: nat)
    ensures Read(m, base, seg, q).end != Wild || Rest(m, base, seg, q).end != Wild ==> q < |m|
    ensures q < |m| && m[q] < 64 && q + 1 + m[q] < |m| ==> LabelAt(m, q) == m[q + 1..q + 1 + m[q]]
  {
    if q >= |m| {
      assert RestLabel(m, base, seg, q).end == Wild;
    }
  }

  /** One step through the first run: its end, its pointer, or one label more. */
  lemma ReadStep(m: seq<byte>, base: nat, seg: nat, q: nat, done: seq<byte>, all: seq<byte>, end: End)
    requires end != Wild && InRun(m, base, seg, q, done, all, end)
    ensures q < |m|
    ensures m[q] == 0 || m[q] >= 64 ==> RunEnd(m, q) == q
    ensures m[q] == 0 ==> end == Root && done == all
    ensures 64 <= m[q] < 192 ==> end == Illegal && done == all
    ensures m[q] >= 192 ==> q + 1 < |m| && InRest(m, base, Target(m, base, q), Target(m, base, q), done, all, end)
    ensures 0 < m[q] < 64 ==>
              && q + 1 + m[q] < |m| && RunEnd(m, q) == RunEnd(m, q + 1 + m[q])
              && |done| + m[q] < |all|
              && InRun(m, base, seg, q + 1 + m[q], done + LabelAt(m, q) + [DOT], all, end)
  {
    if m[q] == 0 || 64 <= m[q] < 192 {
      assert done + [] == done;
    } else if m[q] < 64 {
      var next := Read(m, base, seg, q + 1 + m[q]);
      ReadInside(m, base, seg, q + 1 + m[q]);
      hide RunEnd, Text;
      OneLabel(LabelAt(m, q), next, q, done, all);
    }
  }

  /** One step behind a pointer: another pointer, or one label more, be it empty. */
  lemma RestLabelStep(m: seq<byte>, base: nat, seg: nat, q: nat, done: seq<byte>, all: seq<byte>, end: End)
    requires end != Wild && InRestLabel(m, base, seg, q, done, all, end)
    ensures q < |m|
    ensures 64 <= m[q] < 192 ==> end == Illegal && done == all
    ensures m[q] >= 192 ==>
              && q + 1 < |m| && Target(m, base, q) < seg
              && InRestLabel(m, base, Target(m, base, q), Target(m, base, q), done, all, end)
    ensures m[q] < 64 ==>
              && q + 1 + m[q] < |m| && |done| + m[q] < |all|
              && InRest(m, base, seg, q + 1 + m[q], done + LabelAt(m, q) + [DOT], all, end)
  {
    if 64 <= m[q] < 192 {
      assert done + [] == done;
    } else if m[q] < 64 {
      var next := Rest(m, base, seg, q + 1 + m[q]);
      ReadInside(m, base, seg, q + 1 + m[q]);
      hide Text;
      OneLabel(LabelAt(m, q), next, q, done, all);
    }
  }

  /** Behind a pointer a zero octet ends the name unless a label was due. */
  lemma RestStep(m: seq<byte>, base: nat, seg: nat, q: nat, done: seq<byte>, all: seq<byte>, end: End)
    requires end != Wild && InRest(m, base, seg, q, done, all, end)
    ensures q < |m|
    ensures m[q] == 0 ==> end == Root && done == all
    ensures m[q] != 0 ==> InRestLabel(m, base, seg, q, done, all, end)
  {
    ReadInside(m, base, seg, q);
    assert done + [] == done;
  }

  class DnDecompressor {
    const mem: array<byte>
    const base: nat
    const buf: array<byte>
    var bufEnd: nat

    ghost predicate Valid()
      reads this
    {
      buf.Length == MAX_NAME && bufEnd <= buf.Length && buf != mem
    }

    /** The decompressed text. */
    function Dn(): seq<byte>
      reads this, buf
      requires Valid()
    {
      buf[..bufEnd]
    }

    constructor (mem: array<byte>, base: nat)
      ensures Valid() && this.mem == mem && this.base == base && Dn() == []
      ensures fresh(buf)
    {
      this.mem, this.base := mem, base;
      buf := new byte[MAX_NAME];
      bufEnd := 0;
    }

    /** Append the label at `p` and a dot. */
    method AppendLabel(m: seq<byte>, p: nat)
      requires Valid() && p < |m| && p + 1 + m[p] <= |m|
      requires bufEnd + m[p] < buf.Length
      modifies this`bufEnd, buf
      ensures Valid() && Dn() == old(Dn()) + LabelAt(m, p) + [DOT]
    {
      var len := m[p];
      forall i | 0 <= i < len {
        buf[bufEnd + i] := m[p + 1 + i];
      }
      buf[bufEnd + len] := DOT;
      bufEnd := bufEnd + len + 1;
    }

    /** Read on behind a pointer. */
    method PrepareRest(m: seq<byte>, p: nat) returns (ok: bool)
      requires Valid()
      requires Rest(m, base, p, p).end != Wild
      requires bufEnd + |Ahead(Rest(m, base, p, p))| <= buf.Length
      modifies this`bufEnd, buf
      ensures Valid()
      ensures ok <==> Rest(m, base, p, p).end == Root
      ensures Dn() == old(Dn()) + Ahead(Rest(m, base, p, p))
    {
      var q: nat := p;
      ghost var seg: nat, end := p, Rest(m, base, p, p).end;
      ghost var all := Dn() + Ahead(Rest(m, base, p, p));
      hide Rest, RestLabel, Ahead, LabelAt, Target;
      while true
        invariant Valid()
        invariant InRest(m, base, seg, q, Dn(), all, end)
        decreases seg, |m| - q
      {
        RestStep(m, base, seg, q, Dn(), all, end);
        if m[q] == 0 {
          return true;
        }
        hide InRest, InRestLabel;
        ghost var seg0, q0 := seg, q;
        while TopBits(m[q]) != 0
          invariant Valid()
          invariant q < |m| && InRestLabel(m, base, seg, q, Dn(), all, end)
          invariant seg < seg0 || (seg == seg0 && q == q0)
          decreases seg
        {
          RestLabelStep(m, base, seg, q, Dn(), all, end);
          if TopBits(m[q]) != 0xc0 {
            return false;
          }
          q := Follow(m, base, q);
          seg := q;
          RestLabelStep(m, base, seg, q, Dn(), all, end);
        }
        RestLabelStep(m, base, seg, q, Dn(), all, end);
        AppendLabel(m, q);
        q := q + 1 + m[q];
      }
    }

    /** The loop of `decompress` over a span of the message `m`. */
    method ReadSpan(m: seq<byte>, start: nat, len: nat) returns (ok: bool, start': nat)
      requires Valid() && start + len <= |m|
      requires Read(m, base, start, start).end != Wild
      requires RunEnd(m, start) < |m| && Extent(m, start) <= len
      requires |Ahead(Read(m, base, start, start))| <= buf.Length
      modifies this`bufEnd, buf
      ensures Valid()
      ensures Dn() == Ahead(Read(m, base, start, start))
      ensures ok <==> Read(m, base, start, start).end == Root
      ensures start' == start + Extent(m, start)
    {
      bufEnd := 0;
      var q: nat := start;
      start' := start;
      ghost var end, all := Read(m, base, start, start).end, Ahead(Read(m, base, start, start));
      assert Dn() == [] && [] + all == all;
      assert InRun(m, base, start, q, Dn(), all, end);
      hide Read, Rest, Ahead, LabelAt, RunEnd, Target, Extent, InRun, InRest, TopBits, Follow;
      while true
        invariant Valid()
        invariant InRun(m, base, start, q, Dn(), all, end)
        invariant start' == q && RunEnd(m, q) == RunEnd(m, start)
        decreases |m| - q
      {
        ReadStep(m, base, start, q, Dn(), all, end);
        start' := start' + 1;
        if m[q] == 0 || m[q] >= 64 {
          ExtentAt(m, start, q);
        }
        if m[q] == 0 {
          return true, start';
        }
        if TopBits(m[q]) != 0 {
          if TopBits(m[q]) != 0xc0 {
            return false, start';
          }
          start' := start' + 1;
          InRestIs(m, base, Follow(m, base, q), Dn(), all, end);
          ok := PrepareRest(m, Follow(m, base, q));
          return;
        }
        AppendLabel(m, q);
        start' := start' + m[q];
        q := q + 1 + m[q];
      }
    }

    /** `decompress` of a span: the text, and the span is left behind what was read. */
    method DecompressSpan(start: nat, len: nat) returns (ok: bool, start': nat)
      requires Valid() && start + len <= mem.Length
      requires Read(mem[..], base, start, start).end != Wild
      requires RunEnd(mem[..], start) < mem.Length && Extent(mem[..], start) <= len
      requires |Ahead(Read(mem[..], base, start, start))| <= buf.Length
      modifies this`bufEnd, buf
      ensures Valid()
      ensures Dn() == Ahead(Read(mem[..], base, start, start))
      ensures ok <==> Read(mem[..], base, start, start).end == Root
      ensures start' == start + Extent(mem[..], start)
    {
      ok, start' := ReadSpan(mem[..], start, len);
    }

    /** The loop of `decompress` from a pointer into the message `m`. */
    method ReadAt(m: seq<byte>, p: nat) returns (ok: bool, size: nat)
      requires Valid()
      requires Read(m, base, p, p).end != Wild
      requires |Ahead(Read(m, base, p, p))| <= buf.Length
      modifies this`bufEnd, buf
      ensures Valid()
      ensures Dn() == Ahead(Read(m, base, p, p))
      ensures ok <==> Read(m, base, p, p).end == Root
      ensures RunEnd(m, p) < |m| && size == Extent(m, p)
    {
      bufEnd := 0;
      var q: nat := p;
      size := 0;
      ghost var end, all := Read(m, base, p, p).end, Ahead(Read(m, base, p, p));
      assert Dn() == [] && [] + all == all;
      assert InRun(m, base, p, q, Dn(), all, end);
      hide Read, Rest, Ahead, LabelAt, RunEnd, Target, Extent, InRun, InRest, TopBits, Follow;
      while true
        invariant Valid()
        invariant InRun(m, base, p, q, Dn(), all, end)
        invariant q == p + size && RunEnd(m, q) == RunEnd(m, p)
        decreases |m| - q
      {
        ReadStep(m, base, p, q, Dn(), all, end);
        size := size + 1;
        if m[q] == 0 || m[q] >= 64 {
          ExtentAt(m, p, q);
        }
        if m[q] == 0 {
          return true, size;
        }
        if TopBits(m[q]) != 0 {
          if TopBits(m[q]) != 0xc0 {
            return false, size;
          }
          size := size + 1;
          InRestIs(m, base, Follow(m, base, q), Dn(), all, end);
          ok := PrepareRest(m, Follow(m, base, q));
          return;
        }
        AppendLabel(m, q);
        size := size + m[q];
        q := q + 1 + m[q];
      }
    }

    /** `decompress` from a pointer: the text, and how many octets the name takes. */
    method DecompressAt(p: nat) returns (r: Result<nat>)
      requires Valid()
      requires Read(mem[..], base, p, p).end != Wild
      requires |Ahead(Read(mem[..], base, p, p))| <= buf.Length
      modifies this`bufEnd, buf
      ensures Valid()
      ensures Dn() == Ahead(Read(mem[..], base, p, p))
      ensures RunEnd(mem[..], p) < mem.Length
      ensures r == if Read(mem[..], base, p, p).end == Root then Ok(Extent(mem[..], p)) else Err(IllegalByteSequence)
    {
      hide Read, Ahead, RunEnd, Extent;
      var ok, size := ReadAt(mem[..], p);
      r := if ok then Ok(size) else Err(IllegalByteSequence);
    }
  }

  /** `skip_dn`: how far a name reaches, without reading it. */
  method SkipDn(src: seq<byte>) returns (ok: bool, rest: seq<byte>)
    requires RunEnd(src, 0) < |src| && Extent(src, 0) <= |src|
    ensures ok <==> src[RunEnd(src, 0)] == 0 || src[RunEnd(src, 0)] == 0xc0
    ensures rest == if ok then src[Extent(src, 0)..] else src
  {
    var offset: nat := 0;
    while src[offset] != 0
      invariant offset < |src| && RunEnd(src, offset) == RunEnd(src, 0)
      decreases |src| - offset
    {
      if TopBits(src[offset]) != 0 {
        if src[offset] != 0xc0 {
          return false, src;
        }
        offset := offset + 1;
        break;
      }
      RunEndMonotone(src, offset + src[offset] + 1);
      offset := offset + src[offset] + 1;
    }
    return true, src[offset + 1..];
  }
}
