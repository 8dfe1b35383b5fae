/**
 * Domain names on the wire (RFC 1035, sections 3.1 and 4.1.4): a run of labels,
 * each a length octet and that many octets, closed by a zero octet or by a
 * two-octet pointer to an earlier name.
 */
module DnsWire {
  import opened Basics
  import opened Bits

  type Label = seq<byte>

  const DOT: byte := 46
  const MAX_LABEL := 63
  const MAX_NAME := 255
  const POINTER_LIMIT := 0x4000

  /** The two high bits of a length octet: none for a label, both for a pointer. */
  function TopBits(o: byte): (b: nat)
    ensures b != 0 <==> o >= 64
    ensures b == 0xc0 <==> o >= 192
  {
    TopBitsAre(o);
    And(o, 0xc0)
  }

  lemma TopBitsAre(o: byte)
    ensures And(o, 0xc0) == 64 * (o / 64)
  {
    assert Ones(2) == 0x03 && Pow2(2) == 4;
    hide And, Ones, Pow2;
    var x: nat := o;
    calc {
      And(x, 0xc0);
    == { AndDoubled(x, 0x60); AndDoubled(x / 2, 0x30); }
      4 * And(x / 2 / 2, 0x30);
    == { AndDoubled(x / 2 / 2, 0x18); AndDoubled(x / 2 / 2 / 2, 0x0c); }
      16 * And(x / 2 / 2 / 2 / 2, 0x0c);
    == { AndDoubled(x / 2 / 2 / 2 / 2, 0x06); AndDoubled(x / 2 / 2 / 2 / 2 / 2, 0x03); }
      64 * And(x / 2 / 2 / 2 / 2 / 2 / 2, 0x03);
    == { MaskIsRemainder(x / 2 / 2 / 2 / 2 / 2 / 2, 2); }
      64 * (x / 64);
    }
  }

  lemma AndDoubled(x: nat, y: nat)
    ensures And(x, 2 * y) == 2 * And(x / 2, y)
  {}

  /** The offset in a pointer is what its other six bits and its second octet say. */
  lemma LowBitsAre(o: byte)
    ensures And(o, 0x3f) == o % 64
  {
    assert Ones(6) == 0x3f && Pow2(6) == 64;
    hide And, Ones, Pow2;
    MaskIsRemainder(o, 6);
  }

  /** How a walk over a name ends: at the root, at an octet 01xxxxxx or 10xxxxxx,
      or by leaving the message or following a pointer that is not backward. */
  datatype End = Root | Illegal | Wild

  /** The labels met by a walk and their positions, and how it ended. */
  datatype Walked = Walked(offs: seq<nat>, labels: seq<Label>, end: End)

  /** Where the pointer at `p` leads: the six low bits of its first octet, and its second. */
  function Target(m: seq<byte>, base: nat, p: nat): (t: nat)
    requires p + 1 < |m|
  {
    var hi: nat, lo: nat := m[p], m[p + 1];
    base + hi % 64 * 256 + lo
  }

  /** The same, as it is computed. */
  function Follow(m: seq<byte>, base: nat, p: nat): (t: nat)
    requires p + 1 < |m|
    ensures t == Target(m, base, p)
  {
    LowBitsAre(m[p]);
    base + And(m[p], 0x3f) * 256 + m[p + 1]
  }

  /**
   * The labels of the name at `p`, in a run that started at `seg`. A pointer is
   * followed only to before the start of the run it closes.
   */
  function Walk(m: seq<byte>, base: nat, seg: nat, p: nat): (w: Walked)
    ensures |w.offs| == |w.labels|
    decreases seg, |m| - p
  {
    if p >= |m| then Walked([], [], Wild)
    else if m[p] == 0 then Walked([], [], Root)
    else if m[p] >= 192 then
      if p + 1 < |m| && Target(m, base, p) < seg
      then Walk(m, base, Target(m, base, p), Target(m, base, p))
      else Walked([], [], Wild)
    else if m[p] >= 64 then Walked([], [], Illegal)
    else
      var w := Walk(m, base, seg, p + 1 + m[p]);
      Walked([p] + w.offs, [LabelAt(m, p)] + w.labels, w.end)
  }

  function LabelAt(m: seq<byte>, p: nat): Label {
    if p < |m| && p + 1 + m[p] <= |m| then m[p + 1..p + 1 + m[p]] else []
  }

  /** The name that starts at `p`. */
  function Name(m: seq<byte>, base: nat, p: nat): Walked {
    Walk(m, base, p, p)
  }

  /** A complete name at `p` has exactly these labels. */
  predicate Spelled(m: seq<byte>, base: nat, p: nat, labels: seq<Label>) {
    Name(m, base, p).end == Root && Name(m, base, p).labels == labels
  }

  /** Presentation text: every label followed by a dot. */
  function Text(labels: seq<Label>): seq<byte> {
    if labels == [] then [] else labels[0] + [DOT] + Text(labels[1..])
  }

  /** A run of labels as length octets and contents. */
  function Wire(labels: seq<Label>): seq<byte>
    requires Short(labels)
  {
    if labels == [] then [] else [|labels[0]| as byte] + labels[0] + Wire(labels[1..])
  }

  predicate NoEmpty(labels: seq<Label>) {
    forall i :: 0 <= i < |labels| ==> labels[i] != []
  }

  predicate Short(labels: seq<Label>) {
    forall i :: 0 <= i < |labels| ==> |labels[i]| <= MAX_LABEL
  }

  /** Where the run at `p` closes: its first octet that is not a label length. */
  function RunEnd(m: seq<byte>, p: nat): nat
    decreases |m| - p
  {
    if p < |m| && 0 < m[p] < 64 then RunEnd(m, p + 1 + m[p]) else p
  }

  /** The run at `p` is closed by the root, not by a pointer. */
  predicate PointerFree(m: seq<byte>, p: nat) {
    RunEnd(m, p) < |m| && m[RunEnd(m, p)] == 0
  }

  /** No pointer leads straight to a zero octet. */
  predicate NoRootPointer(m: seq<byte>, base: nat, seg: nat, p: nat)
    decreases seg, |m| - p
  {
    if p >= |m| || m[p] == 0 then true
    else if m[p] >= 192 then
      p + 1 < |m| && Target(m, base, p) < seg ==>
        var t := Target(m, base, p);
        t < |m| && m[t] != 0 && NoRootPointer(m, base, t, t)
    else if m[p] >= 64 then true
    else NoRootPointer(m, base, seg, p + 1 + m[p])
  }

  // ---- Facts about walks ----

  /** Offset `o` of the message carries the non-empty label `l`. */
  ghost predicate Locates(m: seq<byte>, o: nat, l: Label) {
    && 0 < |l| <= MAX_LABEL
    && o + 1 + |l| < |m|
    && m[o] == |l|
    && LabelAt(m, o) == l
  }

  lemma {:induction false} WalkLocates(m: seq<byte>, base: nat, seg: nat, p: nat)
    requires Walk(m, base, seg, p).end != Wild
    ensures p < |m|
    ensures var w := Walk(m, base, seg, p);
            forall i :: 0 <= i < |w.offs| ==> Locates(m, w.offs[i], w.labels[i])
    decreases seg, |m| - p
  {
    if m[p] == 0 || 64 <= m[p] < 192 {
    } else if m[p] >= 192 {
      WalkLocates(m, base, Target(m, base, p), Target(m, base, p));
    } else {
      WalkLocates(m, base, seg, p + 1 + m[p]);
      assert Locates(m, p, LabelAt(m, p));
    }
  }

  /** The labels met by a walk are neither empty nor too long. */
  lemma WalkedLabels(m: seq<byte>, base: nat, seg: nat, p: nat)
    requires Walk(m, base, seg, p).end != Wild
    ensures NoEmpty(Walk(m, base, seg, p).labels) && Short(Walk(m, base, seg, p).labels)
  {
    WalkLocates(m, base, seg, p);
    var w := Walk(m, base, seg, p);
    forall i | 0 <= i < |w.labels| ensures 0 < |w.labels[i]| <= MAX_LABEL {
      assert Locates(m, w.offs[i], w.labels[i]);
    }
  }

  /** Moving the start of the run forward admits every pointer it admitted before. */
  lemma {:induction false} WalkWiden(m: seq<byte>, base: nat, seg: nat, seg': nat, p: nat)
    requires seg <= seg'
    requires Walk(m, base, seg, p).end != Wild
    ensures Walk(m, base, seg', p) == Walk(m, base, seg, p)
    decreases |m| - p
  {
    if p < |m| && 0 < m[p] < 64 {
      WalkWiden(m, base, seg, seg', p + 1 + m[p]);
    }
  }

  /** A finished walk depends on nothing past the prefix it was made in. */
  lemma {:induction false} WalkExtend(m: seq<byte>, m': seq<byte>, base: nat, seg: nat, p: nat)
    requires m <= m'
    requires Walk(m, base, seg, p).end != Wild
    ensures Walk(m', base, seg, p) == Walk(m, base, seg, p)
    decreases seg, |m| - p
  {
    if m[p] >= 192 {
      WalkExtend(m, m', base, Target(m, base, p), Target(m, base, p));
    } else if 0 < m[p] < 64 {
      WalkLocates(m, base, seg, p + 1 + m[p]);
      WalkExtend(m, m', base, seg, p + 1 + m[p]);
      assert LabelAt(m', p) == LabelAt(m, p);
    }
  }

  lemma {:induction false} NoRootPointerExtend(m: seq<byte>, m': seq<byte>, base: nat, seg: nat, p: nat)
    requires m <= m'
    requires Walk(m, base, seg, p).end != Wild && NoRootPointer(m, base, seg, p)
    ensures NoRootPointer(m', base, seg, p)
    decreases seg, |m| - p
  {
    if m[p] >= 192 {
      NoRootPointerExtend(m, m', base, Target(m, base, p), Target(m, base, p));
    } else if 0 < m[p] < 64 {
      NoRootPointerExtend(m, m', base, seg, p + 1 + m[p]);
    }
  }

  lemma {:induction false} NoRootPointerWiden(m: seq<byte>, base: nat, seg: nat, seg': nat, p: nat)
    requires seg <= seg'
    requires Walk(m, base, seg, p).end != Wild && NoRootPointer(m, base, seg, p)
    ensures NoRootPointer(m, base, seg', p)
    decreases |m| - p
  {
    if p < |m| && 0 < m[p] < 64 {
      NoRootPointerWiden(m, base, seg, seg', p + 1 + m[p]);
    }
  }

  /** Without a pointer it does not matter what pointers are relative to. */
  lemma {:induction false} WalkPointerFree(m: seq<byte>, base: nat, base': nat, seg: nat, seg': nat, p: nat)
    requires PointerFree(m, p)
    ensures Walk(m, base, seg, p) == Walk(m, base', seg', p)
    ensures Walk(m, base, seg, p).end == Root
    ensures forall i :: 0 <= i < |Walk(m, base, seg, p).offs| ==> p <= Walk(m, base, seg, p).offs[i]
    decreases |m| - p
  {
    if m[p] != 0 {
      WalkPointerFree(m, base, base', seg, seg', p + 1 + m[p]);
    }
  }

  lemma {:induction false} RunEndExtend(m: seq<byte>, m': seq<byte>, p: nat)
    requires m <= m'
    requires RunEnd(m, p) < |m|
    ensures RunEnd(m', p) == RunEnd(m, p)
    decreases |m| - p
  {
    if p < |m| && 0 < m[p] < 64 {
      RunEndExtend(m, m', p + 1 + m[p]);
    }
  }

  /** Decoding from the k-th label of a name yields exactly its labels from k on. */
  lemma {:induction false} WalkSuffix(m: seq<byte>, base: nat, seg: nat, p: nat, k: nat)
    requires seg <= p
    requires Walk(m, base, seg, p).end != Wild
    requires k < |Walk(m, base, seg, p).offs|
    ensures var w := Walk(m, base, seg, p);
            Name(m, base, w.offs[k]) == Walked(w.offs[k..], w.labels[k..], w.end)
    ensures NoRootPointer(m, base, seg, p) ==> NoRootPointer(m, base, Walk(m, base, seg, p).offs[k], Walk(m, base, seg, p).offs[k])
    decreases seg, |m| - p
  {
    if m[p] >= 192 {
      WalkSuffix(m, base, Target(m, base, p), Target(m, base, p), k);
    } else {
      var w := Walk(m, base, seg, p);
      if k == 0 {
        WalkWiden(m, base, seg, p, p);
        if NoRootPointer(m, base, seg, p) {
          NoRootPointerWiden(m, base, seg, p, p);
        }
      } else {
        WalkSuffix(m, base, seg, p + 1 + m[p], k - 1);
        assert w.offs[k..] == Walk(m, base, seg, p + 1 + m[p]).offs[k - 1..];
        assert w.labels[k..] == Walk(m, base, seg, p + 1 + m[p]).labels[k - 1..];
      }
    }
  }

  lemma WireCons(l: Label, tail: seq<Label>)
    requires |l| <= MAX_LABEL && Short(tail)
    ensures Short([l] + tail) && Wire([l] + tail) == [|l| as byte] + l + Wire(tail)
  {
    var a := [l] + tail;
    assert a[0] == l && a[1..] == tail;
    forall i | 0 <= i < |a| ensures |a[i]| <= MAX_LABEL {
      if i > 0 { assert a[i] == tail[i - 1]; }
    }
    assert Wire(a) == [|a[0]| as byte] + a[0] + Wire(a[1..]);
  }

  lemma OctetThen(m: seq<byte>, p: nat, o: byte, t: seq<byte>)
    requires Holds(m, p, [o] + t)
    ensures p < |m| && m[p] == o && Holds(m, p + 1, t)
  {
    HoldsSplit(m, p, [o], t);
    assert m[p..p + 1][0] == [o][0];
  }

  lemma LabelHolds(m: seq<byte>, p: nat, l: Label)
    requires p < |m| && m[p] == |l| && Holds(m, p + 1, l)
    ensures LabelAt(m, p) == l
  {}

  lemma ShortSplit(labels: seq<Label>)
    requires labels != [] && Short(labels)
    ensures |labels[0]| <= MAX_LABEL && |labels[0]| < 256 && Short(labels[1..]) && labels == [labels[0]] + labels[1..]
  {}

  /** One label of a literal run. */
  lemma WireHead(m: seq<byte>, p: nat, labels: seq<Label>)
    requires labels != [] && Short(labels)
    requires Holds(m, p, Wire(labels))
    ensures Short(labels[1..])
    ensures |Wire(labels)| == 1 + |labels[0]| + |Wire(labels[1..])|
    ensures m[p] == |labels[0]| && LabelAt(m, p) == labels[0]
    ensures Holds(m, p + 1 + |labels[0]|, Wire(labels[1..]))
  {
    var l, tail := labels[0], labels[1..];
    hide *;
    ShortSplit(labels);
    WireCons(l, tail);
    HoldsSplit(m, p, [|l| as byte] + l, Wire(tail));
    OctetThen(m, p, |l| as byte, l);
    LabelHolds(m, p, l);
  }

  /** One label of a literal run is one step of the walk. */
  lemma WalkHead(m: seq<byte>, base: nat, seg: nat, p: nat, labels: seq<Label>)
    requires labels != [] && Short(labels) && NoEmpty(labels)
    requires Holds(m, p, Wire(labels))
    ensures 0 < |labels[0]| < 64
    ensures var q, tail := p + 1 + |labels[0]|, labels[1..];
            && Short(tail) && NoEmpty(tail) && Holds(m, q, Wire(tail))
            && p + |Wire(labels)| == q + |Wire(tail)|
            && p < |m| && m[p] == |labels[0]|
            && var t := Walk(m, base, seg, q);
               Walk(m, base, seg, p) == Walked([p] + t.offs, [labels[0]] + t.labels, t.end)
  {
    hide Wire, Holds;
    WireHead(m, p, labels);
  }

  lemma WireNil()
    ensures Wire([]) == []
  {}

  /** A literal run of non-empty labels decodes to those labels and then to what follows it. */
  lemma {:induction false} WalkLiteral(m: seq<byte>, base: nat, seg: nat, p: nat, labels: seq<Label>)
    requires Short(labels) && NoEmpty(labels)
    requires Holds(m, p, Wire(labels))
    ensures var rest, w := Walk(m, base, seg, p + |Wire(labels)|), Walk(m, base, seg, p);
            && w.end == rest.end
            && w.labels == labels + rest.labels
    decreases labels
  {
    hide Wire, Holds, Walk, Short, NoEmpty;
    var rest := Walk(m, base, seg, p + |Wire(labels)|);
    if labels == [] {
      WireNil();
      assert [] + rest.labels == rest.labels;
      return;
    }
    WalkHead(m, base, seg, p, labels);
    WalkLiteral(m, base, seg, p + 1 + |labels[0]|, labels[1..]);
    HeadTail(labels, rest.labels);
  }

  /** The octet that closes a run. */
  lemma ClosingOctet(m: seq<byte>, base: nat, seg: nat, q: nat)
    ensures var w := Walk(m, base, seg, q);
            if q >= |m| then w == Walked([], [], Wild)
            else if m[q] == 0 then w == Walked([], [], Root)
            else if 64 <= m[q] < 192 then w == Walked([], [], Illegal)
            else m[q] >= 192 ==>
              if q + 1 < |m| && base + (m[q] as int - 192) * 256 + m[q + 1] as int < seg
              then w == Name(m, base, base + (m[q] as int - 192) * 256 + m[q + 1] as int)
              else w == Walked([], [], Wild)
  {}

  /**
   * What stands behind a run of labels closes a name as section 4.1.4 of RFC 1035 has it:
   * a zero octet ends it; an octet with both high bits set is the first of a pointer of
   * fourteen bits, followed if it leads to before the run; one with either of them is
   * refused.
   */
  lemma ClosedExactly(m: seq<byte>, base: nat, p: nat, labels: seq<Label>)
    requires Short(labels) && NoEmpty(labels) && Holds(m, p, Wire(labels))
    ensures var q, w := p + |Wire(labels)|, Name(m, base, p);
            if q >= |m| then w.end == Wild && w.labels == labels
            else if m[q] == 0 then w.end == Root && w.labels == labels
            else if 64 <= m[q] < 192 then w.end == Illegal && w.labels == labels
            else m[q] >= 192 ==>
              if q + 1 < |m| && base + (m[q] as int - 192) * 256 + m[q + 1] as int < p
              then
                var t := Name(m, base, base + (m[q] as int - 192) * 256 + m[q + 1] as int);
                w.end == t.end && w.labels == labels + t.labels
              else w.end == Wild && w.labels == labels
  {
    WalkLiteral(m, base, p, p, labels);
    ClosingOctet(m, base, p, p + |Wire(labels)|);
    hide Walk, Wire, Holds;
    assert labels + [] == labels;
  }

  ghost predicate Within(offs: seq<nat>, lo: nat, hi: nat) {
    forall i :: 0 <= i < |offs| ==> lo <= offs[i] < hi
  }

  lemma WithinCons(o: nat, offs: seq<nat>, lo: nat, hi: nat)
    requires lo <= o < hi && Within(offs, lo, hi)
    ensures Within([o] + offs, lo, hi)
  {}

  /** The offsets of a literal run lie in the run, or belong to what follows it. */
  lemma {:induction false} LiteralOffsets(m: seq<byte>, base: nat, seg: nat, p: nat, labels: seq<Label>, lo: nat, hi: nat)
    requires Short(labels) && NoEmpty(labels)
    requires Holds(m, p, Wire(labels))
    requires lo <= p && p + |Wire(labels)| <= hi
    requires Within(Walk(m, base, seg, p + |Wire(labels)|).offs, lo, hi)
    ensures Within(Walk(m, base, seg, p).offs, lo, hi)
    decreases labels
  {
    hide Wire, Holds, Walk, Short, NoEmpty, Within;
    if labels == [] {
      WireNil();
      return;
    }
    WalkHead(m, base, seg, p, labels);
    LiteralOffsets(m, base, seg, p + 1 + |labels[0]|, labels[1..], lo, hi);
    WithinCons(p, Walk(m, base, seg, p + 1 + |labels[0]|).offs, lo, hi);
  }

  lemma {:induction false} LiteralNoRootPointer(m: seq<byte>, base: nat, seg: nat, p: nat, labels: seq<Label>)
    requires Short(labels) && NoEmpty(labels)
    requires Holds(m, p, Wire(labels))
    ensures NoRootPointer(m, base, seg, p) <==> NoRootPointer(m, base, seg, p + |Wire(labels)|)
    decreases labels
  {
    hide Wire, Holds, Walk, Short, NoEmpty;
    if labels == [] {
      WireNil();
      return;
    }
    WalkHead(m, 0, 0, p, labels);
    LiteralNoRootPointer(m, base, seg, p + 1 + |labels[0]|, labels[1..]);
  }

  lemma {:induction false} LiteralRunEnd(m: seq<byte>, p: nat, labels: seq<Label>)
    requires Short(labels) && NoEmpty(labels)
    requires Holds(m, p, Wire(labels))
    ensures RunEnd(m, p) == RunEnd(m, p + |Wire(labels)|)
    decreases labels
  {
    hide Wire, Holds, Walk, Short, NoEmpty;
    if labels == [] {
      WireNil();
      return;
    }
    WalkHead(m, 0, 0, p, labels);
    LiteralRunEnd(m, p + 1 + |labels[0]|, labels[1..]);
  }

  // ---- Facts about text and wire form ----

  lemma {:induction false} WireConcat(a: seq<Label>, b: seq<Label>)
    requires Short(a) && Short(b)
    ensures Short(a + b)
    ensures Wire(a + b) == Wire(a) + Wire(b)
  {
    if a == [] {
      WireNil();
      assert a + b == b;
      assert Wire(a) + Wire(b) == Wire(b);
      return;
    }
    var l, tail := a[0], a[1..];
    assert |l| <= MAX_LABEL && Short(tail);
    hide Wire, Short;
    WireConcat(tail, b);
    WireCons(l, tail);
    WireCons(l, tail + b);
    assert a == [l] + tail && a + b == [l] + (tail + b);
    var h := [|l| as byte] + l;
    assert h + (Wire(tail) + Wire(b)) == h + Wire(tail) + Wire(b);
  }

  lemma TextHead(l: Label, rest: seq<Label>)
    ensures Text([l] + rest) == l + [DOT] + Text(rest)
  {
    assert ([l] + rest)[1..] == rest;
  }

  lemma {:induction false} TextAppend(a: seq<Label>, b: seq<Label>)
    ensures Text(a + b) == Text(a) + Text(b)
  {
    if a == [] {
      assert a + b == b;
    } else {
      TextAppend(a[1..], b);
      assert (a + b)[1..] == a[1..] + b;
    }
  }
}
