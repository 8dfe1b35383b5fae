/**
 * `DnCompressor`: names are written one after another into a message, each
 * sharing the longest label suffix it has in common with a name already there.
 * Pointers into the message are indices into `mem`.
 */
module DnsCompressor {
  import opened Basics
  import Bits
  import opened DnsWire
  import opened DnsText
  import opened DnsChain
  import opened DnsSearch

  /** A complete name at `p` that the compressor may share labels with. */
  ghost predicate Stored(m: seq<byte>, base: nat, p: nat) {
    var w := Name(m, base, p);
    w.end == Root && 0 < |w.offs| <= 127 && Within(w.offs, base, base + POINTER_LIMIT) && NoRootPointer(m, base, p, p)
  }

  /** The text without one final dot. */
  function Strip(text: seq<byte>): (s: seq<byte>)
    ensures text == s || text == s + [46]
    ensures text == s <==> text == [] || text[|text| - 1] != 46
  {
    if text != [] && text[|text| - 1] == DOT then text[..|text| - 1] else text
  }

  /** The octets `prepare` asks for. */
  function Needed(srcLen: nat, suffixLen: nat): nat
    requires suffixLen <= srcLen
  {
    srcLen - suffixLen + 2 + (if 0 < suffixLen < srcLen then 1 else 0)
  }

  /** `0xc0 | off >> 8`, cut to an octet. */
  function PointerOctet(off: nat): (o: byte)
    ensures o == 192 + off / 256 % 64
  {
    PointerBits(off / 256);
    Bits.Or(0xc0, off / 256) % 256
  }

  lemma OrDoubled(x: nat, y: nat)
    ensures Bits.Or(2 * x, y) == 2 * Bits.Or(x, y / 2) + y % 2
    ensures Bits.Or(2 * x + 1, y) == 2 * Bits.Or(x, y / 2) + 1
  {}

  lemma OrOctupled(x: nat, y: nat)
    ensures Bits.Or(8 * x, y) == 8 * Bits.Or(x, y / 8) + y % 8
  {
    hide Bits.Or;
    OrDoubled(4 * x, y);
    OrDoubled(2 * x, y / 2);
    OrDoubled(x, y / 2 / 2);
    assert y / 2 / 2 / 2 == y / 8;
  }

  lemma OrThree(z: nat)
    ensures Bits.Or(3, z) % 4 == 3
  {
    hide Bits.Or;
    OrDoubled(1, z);
    OrDoubled(0, z / 2);
  }

  lemma PointerBits(x: nat)
    ensures Bits.Or(0xc0, x) % 256 == 192 + x % 64
  {
    var b, y, c, z := x % 8, x / 8, x / 8 % 8, x / 8 / 8;
    OrOctupled(24, x);
    OrOctupled(3, y);
    OrThree(z);
    var o := Bits.Or(3, z);
    hide Bits.Or;
    assert Bits.Or(0xc0, x) == 64 * o + (8 * c + b);
    Combine(o / 4, z, 8 * c + b, x);
  }

  lemma Combine(q: nat, z: nat, r: nat, x: nat)
    requires r < 64 && x == 64 * z + r
    ensures (64 * (4 * q + 3) + r) % 256 == 192 + x % 64
  {}

  /** The octets that close a name: a pointer, or the root. */
  function Tail(shared: nat, off: nat): seq<byte> {
    if shared == 0 then [0] else [PointerOctet(off), off % 256]
  }

  /** Where a pointer written for the offset `off` leads: it has room for fourteen bits. */
  function Led(base: nat, off: nat): nat {
    base + off % POINTER_LIMIT
  }

  /** That number as it is computed, in 64-bit unsigned arithmetic. */
  function Asked(srcLen: nat, suffixLen: nat): (n: nat)
    ensures suffixLen <= srcLen <= MAX_NAME ==> n == Needed(srcLen, suffixLen)
  {
    (srcLen - suffixLen + 2 + (if 0 < suffixLen < srcLen then 1 else 0)) % 0x1_0000_0000_0000_0000
  }

  /** How many leading labels are written out when the last `shared` of `a` are not. */
  function Emitted(a: seq<Label>, shared: nat): nat
    requires shared <= |a|
  {
    var k := |a| - shared;
    if k > 0 && a[k - 1] == [] then k - 1 else k
  }

  function Compressed(a: seq<Label>, shared: nat, off: nat): seq<byte>
    requires Short(a) && shared <= |a|
  {
    Wire(a[..Emitted(a, shared)]) + Tail(shared, off)
  }

  /** The pointer a shared suffix is replaced with leads to exactly that suffix. */
  ghost predicate Shares(m: seq<byte>, base: nat, a: seq<Label>, shared: nat, off: nat)
    requires shared <= |a|
  {
    && off < POINTER_LIMIT
    && (shared > 0 ==> Stored(m, base, base + off) && Name(m, base, base + off).labels == a[|a| - shared..])
  }

  /** What is read where the emitted labels end: the root, or what the pointer leads to. */
  function Behind(m: seq<byte>, base: nat, seg: nat, shared: nat, off: nat): Walked {
    if shared == 0 then Walked([], [], Root)
    else if Led(base, off) < seg then Name(m, base, Led(base, off))
    else Walked([], [], Wild)
  }

  lemma FourteenBits(off: nat)
    ensures (192 + off / 256 % 64) % 64 * 256 + off % 256 == off % POINTER_LIMIT
    ensures off < POINTER_LIMIT ==> off % POINTER_LIMIT == off
  {}

  lemma PointerLeads(m: seq<byte>, base: nat, at: nat, shared: nat, off: nat)
    requires shared > 0 && Holds(m, at, Tail(shared, off))
    ensures at + 1 < |m| && m[at] >= 192 && Target(m, base, at) == Led(base, off)
  {
    FourteenBits(off);
    hide PointerOctet, Bits.And, Bits.Or;
    var t := Tail(shared, off);
    assert m[at] == m[at..at + |t|][0] == t[0];
    assert m[at + 1] == m[at..at + |t|][1] == t[1];
  }

  lemma TailReads(m: seq<byte>, base: nat, seg: nat, at: nat, shared: nat, off: nat)
    requires Holds(m, at, Tail(shared, off))
    ensures Walk(m, base, seg, at) == Behind(m, base, seg, shared, off)
  {
    if shared > 0 {
      PointerLeads(m, base, at, shared, off);
    } else {
      assert m[at] == m[at..at + 1][0];
    }
  }

  lemma CompressedIs(a: seq<Label>, shared: nat, off: nat)
    requires Short(a) && NoEmpty(a) && shared <= |a|
    ensures Compressed(a, shared, off) == Wire(a[..|a| - shared]) + Tail(shared, off)
    ensures Short(a[..|a| - shared]) && NoEmpty(a[..|a| - shared])
  {}

  /** A name without empty labels reads as its emitted labels and what is behind them. */
  lemma CompressedReads(m: seq<byte>, base: nat, dst: nat, a: seq<Label>, shared: nat, off: nat)
    requires Short(a) && NoEmpty(a) && shared <= |a|
    requires Holds(m, dst, Compressed(a, shared, off))
    ensures var w, b := Name(m, base, dst), Behind(m, base, dst, shared, off);
            w.end == b.end && w.labels == a[..|a| - shared] + b.labels
  {
    var lead := a[..|a| - shared];
    CompressedIs(a, shared, off);
    hide Compressed, Wire, Tail, Walk, Behind, Led, NoEmpty, Short, LabelAt, PointerOctet, Bits.And, Bits.Or;
    HoldsSplit(m, dst, Wire(lead), Tail(shared, off));
    TailReads(m, base, dst, dst + |Wire(lead)|, shared, off);
    hide Holds;
    WalkLiteral(m, base, dst, dst, lead);
  }

  /**
   * Whatever the pointer leads to, the name decodes to its labels exactly when none
   * is empty and nothing is shared, or the shared ones stand, read from the base, in
   * an earlier place the pointer leads to.
   */
  lemma DecodesExactly(m: seq<byte>, base: nat, dst: nat, a: seq<Label>, shared: nat, off: nat)
    requires Short(a) && shared <= |a|
    requires Holds(m, dst, Compressed(a, shared, off))
    ensures Spelled(m, base, dst, a) <==>
              NoEmpty(a) && (shared == 0 || (Led(base, off) < dst && Spelled(m, base, Led(base, off), a[|a| - shared..])))
  {
    if NoEmpty(a) {
      CompressedReads(m, base, dst, a, shared, off);
      hide Walk, Holds, Compressed, Led;
      var b, k := Behind(m, base, dst, shared, off), |a| - shared;
      TakeDrop(a, k);
      assert (a[..k] + b.labels)[k..] == b.labels;
    } else if Spelled(m, base, dst, a) {
      WalkedLabels(m, base, dst, dst);
    }
  }

  /** The same of its text. */
  lemma TextExactly(m: seq<byte>, base: nat, dst: nat, a: seq<Label>, shared: nat, off: nat)
    requires Short(a) && NoEmpty(a) && shared <= |a|
    requires Holds(m, dst, Compressed(a, shared, off))
    ensures Name(m, base, dst).end == Root && Text(Name(m, base, dst).labels) == Text(a) <==>
              var b := Behind(m, base, dst, shared, off);
              b.end == Root && Text(b.labels) == Text(a[|a| - shared..])
  {
    CompressedReads(m, base, dst, a, shared, off);
    hide Walk, Holds, Compressed, Behind, Text;
    var b, k := Behind(m, base, dst, shared, off), |a| - shared;
    TakeDrop(a, k);
    TextAppend(a[..k], b.labels);
    TextAppend(a[..k], a[k..]);
    assert (Text(a[..k]) + Text(b.labels))[|Text(a[..k])|..] == Text(b.labels);
    assert (Text(a[..k]) + Text(a[k..]))[|Text(a[..k])|..] == Text(a[k..]);
  }

  /** Over a sound table the pointer is read as the shared suffix. */
  lemma TailDecodes(m: seq<byte>, base: nat, seg: nat, at: nat, a: seq<Label>, shared: nat, off: nat)
    requires shared <= |a|
    requires Shares(m, base, a, shared, off)
    requires Holds(m, at, Tail(shared, off))
    requires shared > 0 ==> base + off < seg
    ensures Walk(m, base, seg, at) == if shared == 0 then Walked([], [], Root) else Name(m, base, base + off)
    ensures Walk(m, base, seg, at).labels == a[|a| - shared..]
  {
    FourteenBits(off);
    hide Walk, Name, Tail, Holds, NoRootPointer, Within, Bits.And, Bits.Or;
    TailReads(m, base, seg, at, shared, off);
  }

  /** Emitted labels and the tail after them decode to the labels and the shared suffix. */
  lemma LeadDecodes(m: seq<byte>, base: nat, dst: nat, lead: seq<Label>, a: seq<Label>, shared: nat, off: nat)
    requires Short(lead) && NoEmpty(lead) && shared <= |a|
    requires Shares(m, base, a, shared, off) && (shared > 0 ==> base + off < dst)
    requires Holds(m, dst, Wire(lead) + Tail(shared, off))
    ensures Spelled(m, base, dst, lead + a[|a| - shared..])
  {
    HoldsSplit(m, dst, Wire(lead), Tail(shared, off));
    TailDecodes(m, base, dst, dst + |Wire(lead)|, a, shared, off);
    WalkLiteral(m, base, dst, dst, lead);
  }

  lemma SharedOffsets(m: seq<byte>, base: nat, a: seq<Label>, shared: nat, off: nat)
    requires 0 < shared <= |a| && Shares(m, base, a, shared, off)
    ensures Within(Name(m, base, base + off).offs, base, base + POINTER_LIMIT)
  {
    hide Walk;
  }

  lemma LeadOffsets(m: seq<byte>, base: nat, dst: nat, lead: seq<Label>, a: seq<Label>, shared: nat, off: nat)
    requires Short(lead) && NoEmpty(lead) && shared <= |a|
    requires Shares(m, base, a, shared, off) && (shared > 0 ==> base + off < dst)
    requires Holds(m, dst, Wire(lead) + Tail(shared, off))
    requires base <= dst && dst + |Wire(lead)| <= base + POINTER_LIMIT
    ensures Within(Name(m, base, dst).offs, base, base + POINTER_LIMIT)
  {
    hide Wire, Tail, Holds, NoEmpty, Short, Walk;
    if shared > 0 {
      SharedOffsets(m, base, a, shared, off);
    }
    HoldsSplit(m, dst, Wire(lead), Tail(shared, off));
    TailDecodes(m, base, dst, dst + |Wire(lead)|, a, shared, off);
    LiteralOffsets(m, base, dst, dst, lead, base, base + POINTER_LIMIT);
  }

  /** The pointer that is written leads to a label, so no pointer behind it leads to the root. */
  lemma TailNoRootPointer(m: seq<byte>, base: nat, seg: nat, at: nat, a: seq<Label>, shared: nat, off: nat)
    requires shared <= |a|
    requires Shares(m, base, a, shared, off) && (shared > 0 ==> base + off < seg)
    requires Holds(m, at, Tail(shared, off))
    ensures NoRootPointer(m, base, seg, at)
  {
    hide Bits.And, Bits.Or;
    if shared > 0 {
      PointerLeads(m, base, at, shared, off);
    } else {
      assert m[at] == m[at..at + 1][0];
    }
  }

  lemma LeadNoRootPointer(m: seq<byte>, base: nat, dst: nat, lead: seq<Label>, a: seq<Label>, shared: nat, off: nat)
    requires Short(lead) && NoEmpty(lead) && shared <= |a|
    requires Shares(m, base, a, shared, off) && (shared > 0 ==> base + off < dst)
    requires Holds(m, dst, Wire(lead) + Tail(shared, off))
    ensures NoRootPointer(m, base, dst, dst)
  {
    hide Wire, NoEmpty, Short, NoRootPointer, Tail, Walk;
    HoldsSplit(m, dst, Wire(lead), Tail(shared, off));
    TailNoRootPointer(m, base, dst, dst + |Wire(lead)|, a, shared, off);
    hide Holds;
    LiteralNoRootPointer(m, base, dst, dst, lead);
  }

  /** A name whose labels are all non-empty decodes to those labels. */
  lemma CompressedDecodes(m: seq<byte>, base: nat, dst: nat, a: seq<Label>, shared: nat, off: nat)
    requires Short(a) && NoEmpty(a) && shared <= |a|
    requires Shares(m, base, a, shared, off) && (shared > 0 ==> base + off < dst)
    requires Holds(m, dst, Compressed(a, shared, off))
    ensures Spelled(m, base, dst, a) && NoRootPointer(m, base, dst, dst)
    ensures 0 < |a| <= 127 && base <= dst && dst + |Wire(a[..|a| - shared])| <= base + POINTER_LIMIT ==> Stored(m, base, dst)
  {
    LeadDecodes(m, base, dst, a[..|a| - shared], a, shared, off);
    TakeDrop(a, |a| - shared);
    LeadNoRootPointer(m, base, dst, a[..|a| - shared], a, shared, off);
    if base <= dst && dst + |Wire(a[..|a| - shared])| <= base + POINTER_LIMIT {
      LeadOffsets(m, base, dst, a[..|a| - shared], a, shared, off);
    }
  }

  lemma {:induction false} FirstEmpty(a: seq<Label>) returns (e: nat)
    requires !NoEmpty(a)
    ensures e < |a| && a[e] == [] && NoEmpty(a[..e])
  {
    e := 0;
    while a[e] != []
      invariant e < |a| && NoEmpty(a[..e])
      invariant !NoEmpty(a)
      decreases |a| - e
    {
      e := e + 1;
    }
  }

  /** A zero length octet among the emitted labels ends the name there. */
  lemma EmptyLabelTruncates(m: seq<byte>, base: nat, dst: nat, lead: seq<Label>, rest: seq<Label>)
    requires Short(lead) && NoEmpty(lead) && Short(rest) && rest != [] && rest[0] == []
    requires Holds(m, dst, Wire(lead + rest))
    ensures Spelled(m, base, dst, lead)
  {
    WireConcat(lead, rest);
    HoldsSplit(m, dst, Wire(lead), Wire(rest));
    WireHead(m, dst + |Wire(lead)|, rest);
    WalkLiteral(m, base, dst, dst, lead);
    assert lead + [] == lead;
  }

  /** Leaving labels out shortens the text. */
  lemma TextShrinks(a: seq<Label>, i: nat, j: nat)
    requires i < j <= |a|
    ensures |Text(a[..i])| <= |Text(a[..i] + a[j..])| < |Text(a)|
  {
    TextAppend(a[..i], a[j..]);
    TextAppend(a[..i], a[i..]);
    TextAppend(a[i..j], a[j..]);
    assert a == a[..i] + a[i..] && a[i..] == a[i..j] + a[j..];
    assert Text(a[i..j]) == a[i..j][0] + [DOT] + Text(a[i..j][1..]);
  }

  /** Shared labels are not empty. */
  lemma SharedLabels(m: seq<byte>, base: nat, a: seq<Label>, shared: nat, off: nat)
    requires shared <= |a| && Shares(m, base, a, shared, off)
    ensures forall x :: |a| - shared <= x < |a| ==> a[x] != []
  {
    if shared > 0 {
      WalkedLabels(m, base, base + off, base + off);
      hide Walk;
      forall x | |a| - shared <= x < |a| ensures a[x] != [] {
        assert a[x] == a[|a| - shared..][x - (|a| - shared)];
      }
    }
  }

  /** The first empty label of a name. */
  ghost predicate EmptyFirst(a: seq<Label>, e: nat) {
    e < |a| && a[e] == [] && forall i :: 0 <= i < e ==> a[i] != []
  }

  lemma LostInside(m: seq<byte>, base: nat, dst: nat, a: seq<Label>, shared: nat, off: nat, e: nat)
    requires Short(a) && shared <= |a| && EmptyFirst(a, e) && e < Emitted(a, shared)
    requires Holds(m, dst, Compressed(a, shared, off))
    ensures Spelled(m, base, dst, a[..e]) && e < |a| - shared - 1
  {
    hide Walk, Wire, Tail, Holds, Name;
    var j := Emitted(a, shared);
    HoldsSplit(m, dst, Wire(a[..j]), Tail(shared, off));
    assert a[..j] == a[..e] + a[e..j];
    EmptyLabelTruncates(m, base, dst, a[..e], a[e..j]);
  }

  lemma LostAtCut(m: seq<byte>, base: nat, dst: nat, a: seq<Label>, shared: nat, off: nat, e: nat)
    requires Short(a) && shared <= |a| && EmptyFirst(a, e) && Emitted(a, shared) <= e < |a| - shared
    requires Shares(m, base, a, shared, off) && (shared > 0 ==> base + off < dst)
    requires Holds(m, dst, Compressed(a, shared, off))
    ensures Spelled(m, base, dst, a[..e] + a[e + 1..]) && e == |a| - shared - 1
  {
    hide Walk, Wire, Tail, Holds, Shares, Name;
    LeadDecodes(m, base, dst, a[..e], a, shared, off);
  }

  /**
   * A name with an empty label decodes to something shorter than its text: it ends
   * before its first empty label, or, when that is the last one written out, lacks just
   * this one.
   */
  lemma EmptyLabelLost(m: seq<byte>, base: nat, dst: nat, a: seq<Label>, shared: nat, off: nat) returns (e: nat)
    requires Short(a) && !NoEmpty(a) && shared <= |a|
    requires Shares(m, base, a, shared, off) && (shared > 0 ==> base + off < dst)
    requires Holds(m, dst, Compressed(a, shared, off))
    ensures e < |a| && a[e] == [] && forall i :: 0 <= i < e ==> a[i] != []
    ensures Name(m, base, dst).end == Root
    ensures Name(m, base, dst).labels == if e == |a| - shared - 1 then a[..e] + a[e + 1..] else a[..e]
    ensures |Text(Name(m, base, dst).labels)| < |Text(a)|
  {
    e := FirstEmpty(a);
    SharedLabels(m, base, a, shared, off);
    assert EmptyFirst(a, e) && e < |a| - shared;
    TextShrinks(a, e, e + 1);
    TextShrinks(a, e, |a|);
    hide Walk, Wire, Tail, Holds, Text, Shares, EmptyFirst, Name, Emitted;
    if e < Emitted(a, shared) {
      LostInside(m, base, dst, a, shared, off, e);
    } else {
      LostAtCut(m, base, dst, a, shared, off, e);
    }
  }

  /** The text comes back exactly when it has no empty label. */
  lemma RoundTripExactly(m: seq<byte>, base: nat, dst: nat, a: seq<Label>, shared: nat, off: nat)
    requires Short(a) && shared <= |a|
    requires Shares(m, base, a, shared, off) && (shared > 0 ==> base + off < dst)
    requires Holds(m, dst, Compressed(a, shared, off))
    ensures Name(m, base, dst).end == Root
    ensures Text(Name(m, base, dst).labels) == Text(a) <==> NoEmpty(a)
  {
    if NoEmpty(a) {
      CompressedDecodes(m, base, dst, a, shared, off);
    } else {
      var e := EmptyLabelLost(m, base, dst, a, shared, off);
    }
  }

  lemma CompressedLength(a: seq<Label>, shared: nat, off: nat)
    requires Short(a) && shared <= |a|
    ensures |Compressed(a, shared, off)| == Start(a, Emitted(a, shared)) + if shared == 0 then 1 else 2
  {
    WireUpToIsWire(a, Emitted(a, shared));
    hide Wire, WireUpTo, Start, Emitted;
  }

  /** A label that is not written out takes no more than its dot. */
  lemma EmittedStart(a: seq<Label>, shared: nat)
    requires shared < |a|
    ensures Start(a, |a| - shared) == Start(a, Emitted(a, shared)) + if a[|a| - shared - 1] == [] then 1 else 0
  {
    var k := |a| - shared;
    assert Start(a, k) == Start(a, k - 1) + |a[k - 1]| + 1;
  }

  /** The size `prepare` returns is the number of octets `compress` writes, or one more when the last label before the cut is empty and not the only one. */
  lemma SizeIsExact(src: seq<byte>, shared: nat, off: nat)
    requires Short(Split(src)) && shared <= |Split(src)|
    requires shared > 0 ==> NoEmpty(Split(src)[|Split(src)| - shared..])
    ensures SuffixLen(Split(src), shared) <= |src|
    ensures var a := Split(src);
            Needed(|src|, SuffixLen(a, shared))
              == |Compressed(a, shared, off)|
                 + if shared < |a| && a[|a| - shared - 1] == [] && (shared == 0 || shared + 1 < |a|) then 1 else 0
  {
    var a := Split(src);
    var k := |a| - shared;
    SplitSpells(src);
    CopiedLength(src, a, shared);
    CompressedLength(a, shared, off);
    if shared < |a| {
      EmittedStart(a, shared);
      StartMonotone(a, 0, k - 1);
      assert Start(a, k) == Start(a, k - 1) + |a[k - 1]| + 1;
    }
    if shared > 0 {
      SuffixTakesOctets(a, shared);
    }
    hide SplitFrom, Start, Emitted, Compressed, SuffixLen, Spells;
  }

  lemma SuffixTakesOctets(a: seq<Label>, shared: nat)
    requires 0 < shared <= |a| && NoEmpty(a[|a| - shared..])
    ensures SuffixLen(a, shared) > 0
  {
    var k := |a| - shared;
    StartMonotone(a, k, |a| - 1);
    assert a[k..][0] == a[k];
    StartMonotone(a, 0, |a| - 1);
  }

  lemma SplitsFromStart(s: seq<byte>)
    ensures Split(s) != [] && SplitFrom(s, 0) == Split(s)[0..]
  {}

  /** Record the label lengths of a name; 0 when a label is too long. */
  method GetLabelLens(lens: array<byte>, dn: seq<byte>) returns (cnt: nat)
    requires |Split(dn)| <= lens.Length
    modifies lens
    ensures !Short(Split(dn)) ==> cnt == 0
    ensures Short(Split(dn)) ==> 0 < cnt == |Split(dn)| && forall j :: 0 <= j < cnt ==> lens[j] == |Split(dn)[j]|
  {
    cnt := 0;
    var start: nat := 0;
    ghost var a := Split(dn);
    hide Split, SplitFrom, FindDot;
    SplitsFromStart(dn);
    while true
      invariant start <= |dn| && cnt < |a|
      invariant SplitFrom(dn, start) == a[cnt..]
      invariant forall j :: 0 <= j < cnt ==> |a[j]| <= MAX_LABEL && lens[j] == |a[j]|
      decreases |dn| - start
    {
      SplitStep(dn, start, a, cnt);
      var end := FindDot(dn, start);
      if end - start > MAX_LABEL {
        return 0;
      }
      lens[cnt] := end - start;
      cnt := cnt + 1;
      if end == |dn| {
        return;
      }
      start := end + 1;
    }
  }

  /** Comparing shared octets compares shared labels. */
  lemma LongerInOctets(a: seq<Label>, b: seq<Label>, shared: nat)
    requires NoEmpty(b) && shared <= |a|
    requires shared > 0 ==> a[|a| - shared] != []
    ensures SuffixLen(a, Common(a, b)) > SuffixLen(a, shared) <==> Common(a, b) > shared
  {
    var c := Common(a, b);
    if c > shared {
      SharedNonEmpty(a, b, c);
      SuffixLenGrows(a, shared, c);
    } else if c < shared {
      SuffixLenGrows(a, c, shared);
    }
  }

  /** The first label a stored name shares with `a` is a target for a pointer. */
  lemma SharesStored(m: seq<byte>, base: nat, p: nat, a: seq<Label>, c: nat, o: nat)
    requires Stored(m, base, p)
    requires var w := Name(m, base, p); 0 < c == Common(a, w.labels) && o == w.offs[|w.offs| - c]
    ensures base <= o < |m| && Shares(m, base, a, c, o - base)
  {
    var w := Name(m, base, p);
    WalkSuffix(m, base, p, p, |w.offs| - c);
    WalkLocates(m, base, p, p);
    assert Locates(m, o, w.labels[|w.offs| - c]);
    CommonIsLongest(a, w.labels, c);
  }

  // ---- The table of stored names ----

  /**
   * Every pointer leads to a complete name. Pointers are resolved from the first
   * stored name: that has to be the base they were made with, unless there is no
   * pointer to resolve.
   */
  ghost predicate Table(m: seq<byte>, base: nat, ptrs: seq<nat>) {
    && (forall i :: 0 <= i < |ptrs| ==> Stored(m, base, ptrs[i]) && base <= ptrs[0] <= ptrs[i])
    && (ptrs == [] || ptrs[0] == base || forall i :: 0 <= i < |ptrs| ==> PointerFree(m, ptrs[i]))
  }

  /** How many of the labels `a` stored name `i` also ends with. */
  function SharedWith(m: seq<byte>, base: nat, ptrs: seq<nat>, a: seq<Label>, i: nat): nat
    requires i < |ptrs|
  {
    Common(a, Name(m, base, ptrs[i]).labels)
  }

  /** The chosen suffix of `a` stands where the chosen pointer leads. */
  ghost predicate Chosen(m: seq<byte>, base: nat, a: seq<Label>, shared: nat, suffixLen: nat, suffixOff: nat) {
    && Cut(a, shared, suffixLen, suffixOff)
    && Shares(m, base, a, shared, suffixOff)
    && (shared > 0 ==> base + suffixOff < |m|)
  }

  /** Reading a stored name from the first stored name reads it as it was written. */
  lemma StoredResolves(m: seq<byte>, m': seq<byte>, base: nat, ptrs: seq<nat>, i: nat)
    requires m <= m' && Table(m, base, ptrs) && i < |ptrs|
    ensures Reading(m', ptrs, i) == Name(m, base, ptrs[i])
    ensures Readable(m', ptrs, i) && InReach(Reading(m', ptrs, i), ptrs[0])
  {
    var p := ptrs[i];
    WalkExtend(m, m', base, p, p);
    if ptrs[0] != base {
      RunEndExtend(m, m', p);
      WalkPointerFree(m', base, ptrs[0], p, p, p);
    }
    hide Walk, PointerFree, NoRootPointer;
    WalkIsChased(m', ptrs[0], p, p);
  }

  /** A sound table can be read, whatever follows the message: every search comes back, and none is refused. */
  lemma TableComesBack(m: seq<byte>, m': seq<byte>, base: nat, ptrs: seq<nat>, a: seq<Label>, len0: nat)
    requires m <= m' && Table(m, base, ptrs)
    ensures ComesBack(m', ptrs, a, len0) && AllInReach(m', ptrs, a, len0)
    ensures forall i :: 0 <= i < |ptrs| ==> Readable(m', ptrs, i)
  {
    forall i: nat | i < |ptrs|
      ensures Readable(m', ptrs, i) && InReach(Reading(m', ptrs, i), ptrs[0]) && Returns(m', ptrs[0], ptrs[i])
    {
      StoredResolves(m, m', base, ptrs, i);
      ChasedExactly(m', ptrs[0], ptrs[i]);
    }
  }

  /** No stored name shares more labels than are chosen, and one shares as many. */
  ghost predicate Longest(t: seq<byte>, base: nat, ptrs: seq<nat>, a: seq<Label>, shared: nat) {
    && (forall j :: 0 <= j < |ptrs| ==> SharedWith(t, base, ptrs, a, j) <= shared)
    && (shared > 0 ==> exists j :: 0 <= j < |ptrs| && SharedWith(t, base, ptrs, a, j) == shared)
  }

  /** The name sharing the most octets shares the most labels, and its offset leads to them. */
  lemma MostOctetsAreMostLabels(t: seq<byte>, m: seq<byte>, base: nat, ptrs: seq<nat>, a: seq<Label>,
                                best: int, suffixLen: nat, suffixOff: nat, shared: nat)
    requires t <= m && Table(t, base, ptrs)
    requires Taken(m, base, ptrs, a, 0, 0, best, suffixLen, suffixOff)
    requires Searched(m, ptrs, a, suffixLen, |ptrs|)
    requires shared == if best < 0 then 0 else Common(a, Reading(m, ptrs, best).labels)
    ensures Chosen(t, base, a, shared, suffixLen, suffixOff)
    ensures Longest(t, base, ptrs, a, shared)
  {
    hide Walk, Chased, CommonUpTo, Start, LabelAt, PointerFree, Within;
    if best >= 0 {
      StoredResolves(t, m, base, ptrs, best);
      var w := Name(t, base, ptrs[best]);
      WalkedLabels(t, base, ptrs[best], ptrs[best]);
      SharesStored(t, base, ptrs[best], a, shared, w.offs[|w.offs| - shared]);
      SharedNonEmpty(a, w.labels, shared);
      assert SharedWith(t, base, ptrs, a, best) == shared;
    }
    forall j | 0 <= j < |ptrs| ensures SharedWith(t, base, ptrs, a, j) <= shared {
      StoredResolves(t, m, base, ptrs, j);
      WalkedLabels(t, base, ptrs[j], ptrs[j]);
      assert MatchedLen(m, ptrs, a, j) <= suffixLen;
      LongerInOctets(a, Name(t, base, ptrs[j]).labels, shared);
    }
  }

  /** The search, with what it means for the stored names, sound or not. */
  method ChooseLongest(m: seq<byte>, base: nat, ptrs: seq<nat>, s: seq<byte>, lens: seq<byte>, len0: nat, off0: nat,
                       ghost a: seq<Label>, ghost t: seq<byte>)
    returns (ok: bool, suffixLen: nat, suffixOff: nat, ghost shared: nat, ghost best: int, ghost met: nat)
    requires ComesBack(m, ptrs, a, len0) && AllInReach(m, ptrs, a, len0) && (ptrs != [] ==> base <= ptrs[0])
    requires Spells(s, a) && |lens| == |a| && forall j :: 0 <= j < |lens| ==> lens[j] == |a[j]|
    requires t <= m
    ensures Finds(m, base, ptrs, a, len0, off0, Over(ok, suffixLen, suffixOff))
    ensures ok <==> forall i :: !Blocks(m, ptrs, a, len0, i)
    ensures Taken(m, base, ptrs, a, len0, off0, best, suffixLen, suffixOff)
    ensures Searched(m, ptrs, a, suffixLen, met) && best < met
    ensures if ok then met == |ptrs| else Blocks(m, ptrs, a, len0, met)
    ensures best >= 0 || len0 == 0 ==> suffixLen <= |s|
    ensures best >= 0 || (len0 == 0 && off0 == 0) ==>
              Cut(a, shared, suffixLen, suffixOff) && ReadBack(m, base, ptrs, a, shared, suffixOff)
    ensures len0 == 0 && off0 == 0 && Table(t, base, ptrs) ==>
              ok && Chosen(t, base, a, shared, suffixLen, suffixOff) && Longest(t, base, ptrs, a, shared)
  {
    ok, suffixLen, suffixOff, best, met := Choose(m, base, ptrs, s, lens, len0, off0, a);
    shared := if best < 0 then 0 else Common(a, Reading(m, ptrs, best).labels);
    hide ComesBack, AllInReach, Spells, Common, Reading, Cut, ReadBack, Finds, Whole;
    if best >= 0 || (len0 == 0 && off0 == 0) {
      TakenReadsBack(m, base, ptrs, a, len0, off0, best, suffixLen, suffixOff);
    }
    if len0 == 0 && off0 == 0 && Table(t, base, ptrs) {
      TableComesBack(t, m, base, ptrs, a, 0);
      MostOctetsAreMostLabels(t, m, base, ptrs, a, best, suffixLen, suffixOff, shared);
    }
  }

  /** A written name takes more than two octets unless it is a pointer and nothing else. */
  lemma PointerOnly(a: seq<Label>, shared: nat, off: nat)
    requires Short(a) && NoEmpty(a) && shared <= |a|
    requires shared > 0 || a != []
    ensures |Compressed(a, shared, off)| > 2 <==> shared < |a|
  {
    WireUpToIsWire(a, |a| - shared);
    if shared < |a| {
      StartMonotone(a, 0, |a| - shared);
    }
  }

  /** The copied text ends where the emitted labels do. */
  lemma CopiedLength(src: seq<byte>, a: seq<Label>, shared: nat)
    requires Spells(src, a) && shared <= |a|
    ensures SuffixLen(a, shared) <= |src|
    ensures |src| - SuffixLen(a, shared) == if shared < |a| then Start(a, |a| - shared) - 1 else 0
  {
    StartMonotone(a, 0, |a| - shared);
    StartMonotone(a, |a| - shared, |a|);
  }

  /** Put the label lengths over the dots of the `n` octets of copied text. */
  method PutLengths(mem: array<byte>, dst: nat, n: nat, lens: seq<byte>,
                    ghost src: seq<byte>, ghost a: seq<Label>, ghost k: nat)
    returns (i: nat)
    requires Spells(src, a) && Short(a) && k <= |a| && n == (if k > 0 then Start(a, k) - 1 else 0) <= |src|
    requires |a| <= |lens| && forall j :: 0 <= j < |a| ==> lens[j] == |a[j]|
    requires dst + n < mem.Length
    requires forall x :: dst < x <= dst + n ==> mem[x] == src[x - dst - 1]
    modifies mem
    ensures i == Start(a, Emitted(a, |a| - k)) == |WireUpTo(a, Emitted(a, |a| - k))| <= n + 1
    ensures dst + i <= mem.Length
    ensures forall x :: dst <= x < dst + i ==> mem[x] == WireUpTo(a, Emitted(a, |a| - k))[x - dst]
    ensures forall x :: 0 <= x < dst || dst + n < x < mem.Length ==> mem[x] == old(mem[x])
  {
    i := 0;
    var j := 0;
    ghost var e := Emitted(a, |a| - k);
    ghost var w := WireUpTo(a, e);
    WireUpToIsWire(a, e);
    StartMonotone(a, e, k);
    while i < n
      invariant 0 <= j <= e && i == Start(a, j) <= |w| == Start(a, e) <= n + 1
      invariant forall x :: dst <= x < dst + i ==> mem[x] == w[x - dst]
      invariant forall x :: dst + i < x <= dst + n ==> mem[x] == src[x - dst - 1]
      invariant forall x :: 0 <= x < dst || dst + n < x < mem.Length ==> mem[x] == old(mem[x])
    {
      WireOctets(src, a, e, j);
      mem[dst + i] := lens[j];
      i := i + lens[j] + 1;
      j := j + 1;
    }
    StartMonotone(a, j, e);
  }

  /** Copy the text one octet behind `dst`. */
  method CopyText(mem: array<byte>, dst: nat, src: seq<byte>, n: nat)
    requires n <= |src| && dst + n < mem.Length
    modifies mem
    ensures forall x :: dst < x <= dst + n ==> mem[x] == src[x - dst - 1]
    ensures forall x :: 0 <= x <= dst || dst + n < x < mem.Length ==> mem[x] == old(mem[x])
  {
    forall x | dst < x <= dst + n {
      mem[x] := src[x - dst - 1];
    }
  }

  /** Close a name with a pointer, or with the root. */
  method PutTail(mem: array<byte>, at: nat, suffixLen: nat, suffixOff: nat, ghost shared: nat) returns (i: nat)
    requires (shared == 0 ==> suffixOff == 0) && (shared > 0 <==> suffixLen > 0)
    requires at + (if suffixLen > 0 then 2 else 1) <= mem.Length
    modifies mem
    ensures i == at + |Tail(shared, suffixOff)| == at + (if suffixLen > 0 then 2 else 1)
    ensures forall x :: at <= x < i ==> mem[x] == Tail(shared, suffixOff)[x - at]
    ensures forall x :: 0 <= x < at || i <= x < mem.Length ==> mem[x] == old(mem[x])
  {
    i := at;
    if suffixLen > 0 {
      mem[i] := PointerOctet(suffixOff);
      i := i + 1;
    }
    mem[i] := suffixOff % 256;
    i := i + 1;
  }

  /** Write a name: the labels that are not shared, and a pointer to the rest or the root. */
  method Emit(mem: array<byte>, dst: nat, src: seq<byte>, suffixLen: nat, suffixOff: nat, lens: seq<byte>,
              ghost a: seq<Label>, ghost shared: nat)
    returns (i: nat)
    requires Spells(src, a) && Short(a) && shared <= |a| && suffixLen == SuffixLen(a, shared) <= |src|
    requires |a| <= |lens| && forall j :: 0 <= j < |a| ==> lens[j] == |a[j]|
    requires (shared == 0 ==> suffixOff == 0) && (shared > 0 ==> suffixLen > 0)
    requires dst + Needed(|src|, suffixLen) <= mem.Length
    modifies mem
    ensures i == |Compressed(a, shared, suffixOff)| <= Needed(|src|, suffixLen)
    ensures dst + i <= mem.Length
    ensures forall x :: dst <= x < dst + i ==> mem[x] == Compressed(a, shared, suffixOff)[x - dst]
    ensures forall x :: 0 <= x < dst || dst + Needed(|src|, suffixLen) <= x < mem.Length ==> mem[x] == old(mem[x])
  {
    var n := |src| - suffixLen;
    CopiedLength(src, a, shared);
    assert shared == 0 ==> suffixLen == 0;
    hide SuffixLen, Wire, WireUpTo, Emitted, Spells, Short, Start, Tail;
    CopyText(mem, dst, src, n);
    i := PutLengths(mem, dst, n, lens, src, a, |a| - shared);
    ghost var w := WireUpTo(a, Emitted(a, shared));
    WireUpToIsWire(a, Emitted(a, shared));
    i := PutTail(mem, dst + i, suffixLen, suffixOff, shared);
    i := i - dst;
    assert Compressed(a, shared, suffixOff) == w + Tail(shared, suffixOff);
  }

  /** The text of a name other than the root whose labels are short enough. */
  predicate Accepted(text: seq<byte>) {
    0 < |text| <= MAX_NAME && Strip(text) != [] && Short(Split(Strip(text)))
  }

  /** Some label has more than 63 octets. */
  predicate HasLong(labels: seq<Label>) {
    exists k :: 0 <= k < |labels| && |labels[k]| > 63
  }

  lemma {:induction false} SplitWithDot(s: seq<byte>, i: nat)
    requires i <= |s|
    ensures SplitFrom(s + [46], i) == SplitFrom(s, i) + [[]]
    decreases |s| - i
  {
    var t, e := s + [46], FindDot(s, i);
    SameDot(s, i);
    assert t[i..e] == s[i..e];
    hide FindDot;
    if e < |s| {
      SplitWithDot(s, e + 1);
    } else {
      NothingBehind(t);
    }
  }

  lemma NothingBehind(t: seq<byte>)
    ensures SplitFrom(t, |t|) == [[]]
  {
    assert t[|t|..|t|] == [];
  }

  lemma {:induction false} SameDot(s: seq<byte>, i: nat)
    requires i <= |s|
    ensures FindDot(s + [46], i) == FindDot(s, i)
    decreases |s| - i
  {
    if i < |s| && s[i] != DOT {
      SameDot(s, i + 1);
    }
  }

  /** Which texts are accepted, by the labels of the text itself. */
  lemma AcceptedExactly(text: seq<byte>)
    ensures Accepted(text) <==> 0 < |text| <= 255 && text != [46] && !HasLong(Split(text))
    ensures text == [46] ==> !HasLong(Split(text))
    ensures Strip(text) == [] <==> text == [] || text == [46]
  {
    var s := Strip(text);
    SplitWithDot(s, 0);
    NothingBehind([]);
    hide SplitFrom;
    var a := SplitFrom(s, 0);
    assert forall k :: 0 <= k < |a| ==> (a + [[]])[k] == a[k];
    assert HasLong(a + [[]]) ==> HasLong(a);
    assert HasLong(a) ==> HasLong(a + [[]]);
  }

  /** A name in the message: where it starts and which labels it stands for. */
  datatype Entry = Entry(at: nat, labels: seq<Label>)

  ghost predicate Stands(m: seq<byte>, base: nat, e: Entry) {
    Spelled(m, base, e.at, e.labels) && NoRootPointer(m, base, e.at, e.at)
  }

  lemma SharesExtend(t: seq<byte>, t': seq<byte>, base: nat, a: seq<Label>, shared: nat, off: nat)
    requires t <= t' && shared <= |a| && Shares(t, base, a, shared, off)
    ensures Shares(t', base, a, shared, off)
  {
    if shared > 0 {
      WalkExtend(t, t', base, base + off, base + off);
      NoRootPointerExtend(t, t', base, base + off, base + off);
    }
  }

  /** Names that can be read still can when the message has grown. */
  lemma EntriesExtend(t: seq<byte>, t': seq<byte>, base: nat, written: seq<Entry>)
    requires t <= t' && forall i :: 0 <= i < |written| ==> Stands(t, base, written[i])
    ensures forall i :: 0 <= i < |written| ==> Stands(t', base, written[i])
  {
    forall i | 0 <= i < |written| ensures Stands(t', base, written[i]) {
      assert Stands(t, base, written[i]);
      WalkExtend(t, t', base, written[i].at, written[i].at);
      NoRootPointerExtend(t, t', base, written[i].at, written[i].at);
    }
  }

  lemma TableExtend(t: seq<byte>, t': seq<byte>, base: nat, ptrs: seq<nat>)
    requires t <= t' && Table(t, base, ptrs)
    ensures Table(t', base, ptrs)
  {
    forall i | 0 <= i < |ptrs| ensures Stored(t', base, ptrs[i]) && base <= ptrs[0] <= ptrs[i] {
      WalkExtend(t, t', base, ptrs[i], ptrs[i]);
      NoRootPointerExtend(t, t', base, ptrs[i], ptrs[i]);
    }
    if ptrs != [] && ptrs[0] != base {
      forall i | 0 <= i < |ptrs| ensures PointerFree(t', ptrs[i]) {
        RunEndExtend(t, t', ptrs[i]);
      }
    }
  }

  /** A name without a pointer keeps every pointer resolvable; so does any name when the first is at the base. */
  lemma TableAppend(t: seq<byte>, base: nat, ptrs: seq<nat>, p: nat)
    requires Table(t, base, ptrs) && Stored(t, base, p)
    requires base <= p && (ptrs != [] ==> ptrs[0] <= p)
    requires PointerFree(t, p) || (ptrs + [p])[0] == base
    ensures Table(t, base, ptrs + [p])
  {}

  /** A name written without sharing is closed by the root. */
  lemma UnsharedIsPointerFree(m: seq<byte>, dst: nat, a: seq<Label>)
    requires Short(a) && NoEmpty(a)
    requires Holds(m, dst, Compressed(a, 0, 0))
    ensures PointerFree(m, dst)
  {
    assert a[..|a|] == a;
    HoldsSplit(m, dst, Wire(a), Tail(0, 0));
    LiteralRunEnd(m, dst, a);
    var at := dst + |Wire(a)|;
    assert m[at] == m[at..at + 1][0];
  }

  /** The name written at `dst` can be read back, and shared from. */
  lemma NameWritten(t: seq<byte>, t': seq<byte>, base: nat, dst: nat, a: seq<Label>, shared: nat, suffixLen: nat, off: nat)
    requires t <= t' && base <= |t| <= dst && Short(a)
    requires Chosen(t, base, a, shared, suffixLen, off)
    requires Holds(t', dst, Compressed(a, shared, off))
    ensures Name(t', base, dst).end == Root
    ensures Text(Name(t', base, dst).labels) == Text(a) <==> NoEmpty(a)
    ensures NoEmpty(a) ==> Stands(t', base, Entry(dst, a))
    ensures NoEmpty(a) && 0 < |a| <= 127 && dst + |Compressed(a, shared, off)| <= base + POINTER_LIMIT ==> Stored(t', base, dst)
  {
    SharesExtend(t, t', base, a, shared, off);
    RoundTripExactly(t', base, dst, a, shared, off);
    if NoEmpty(a) {
      CompressedDecodes(t', base, dst, a, shared, off);
    }
  }

  /** Writing one more name keeps every written name readable and the table sound. */
  lemma OneMoreName(t: seq<byte>, t': seq<byte>, base: nat, dst: nat, ptrs: seq<nat>, written: seq<Entry>,
                    a: seq<Label>, shared: nat, suffixLen: nat, off: nat)
    requires t <= t' && base <= |t| <= dst && Short(a) && NoEmpty(a) && 0 < |a| <= 127
    requires Chosen(t, base, a, shared, suffixLen, off)
    requires Holds(t', dst, Compressed(a, shared, off))
    requires dst + |Compressed(a, shared, off)| <= base + POINTER_LIMIT
    requires Table(t, base, ptrs) && forall i :: 0 <= i < |written| ==> Stands(t, base, written[i])
    ensures Table(t', base, ptrs)
    ensures forall i :: 0 <= i < |written| ==> Stands(t', base, written[i])
    ensures Stands(t', base, Entry(dst, a))
    ensures shared == 0 || (ptrs + [dst])[0] == base ==> Table(t', base, ptrs + [dst])
  {
    TableExtend(t, t', base, ptrs);
    EntriesExtend(t, t', base, written);
    NameWritten(t, t', base, dst, a, shared, suffixLen, off);
    if shared == 0 {
      UnsharedIsPointerFree(t', dst, a);
    }
    if ptrs != [] {
      WalkLocates(t, base, ptrs[0], ptrs[0]);
    }
    if shared == 0 || (ptrs + [dst])[0] == base {
      TableAppend(t', base, ptrs, dst);
    }
  }

  class DnCompressor {
    const mem: array<byte>
    const base: nat
    var src: seq<byte>
    const lens: array<byte>
    var dnptrs: seq<nat>
    var suffixLen: nat
    var suffixOff: nat

    /** Everything before `used` belongs to the message and is not written again. */
    ghost var used: nat
    /** Every name written so far, shared from or not. */
    ghost var written: seq<Entry>
    /** How many labels of the prepared name are replaced by a pointer. */
    ghost var shared: nat

    ghost predicate Shape()
      reads `used, `dnptrs
    {
      lens.Length == 127 && lens != mem && base <= used <= mem.Length && |dnptrs| <= 20
    }

    ghost function Msg(): seq<byte>
      reads `used, mem
      requires used <= mem.Length
    {
      mem[..used]
    }

    /** The stored names can be shared from, and every written name can be read back. */
    ghost predicate Valid()
      reads `used, `dnptrs, `written, mem
    {
      && Shape()
      && Table(Msg(), base, dnptrs)
      && forall i :: 0 <= i < |written| ==> Stands(Msg(), base, written[i])
    }

    /** No suffix is left from an earlier search. */
    predicate Reset()
      reads this
    {
      suffixLen == 0 && suffixOff == 0
    }

    /** Nothing is prepared. */
    predicate Idle()
      reads this
    {
      src == [] && Reset()
    }

    /** The label lengths of `s` are recorded. */
    ghost predicate Recorded(s: seq<byte>)
      reads this, lens
    {
      && Short(Split(s)) && |Split(s)| <= lens.Length && |Split(s)| <= 127
      && forall j :: 0 <= j < |Split(s)| ==> lens[j] == |Split(s)[j]|
    }

    /** `src` can be written: its lengths are recorded, and what is left to a pointer is some of its labels. */
    ghost predicate Ready()
      reads this, lens
    {
      src != [] && Recorded(src) && Cut(Split(src), shared, suffixLen, suffixOff)
    }

    /** `src` is prepared, and the pointer leads to the labels it stands for. */
    ghost predicate Prepared()
      reads this, mem, lens
    {
      && src != [] && Recorded(src)
      && used <= mem.Length && Chosen(Msg(), base, Split(src), shared, suffixLen, suffixOff)
    }

    constructor (mem: array<byte>, base: nat)
      requires base <= mem.Length
      ensures Valid() && Idle() && this.mem == mem && this.base == base
      ensures used == base && written == [] && dnptrs == []
      ensures fresh(lens)
    {
      this.mem, this.base := mem, base;
      src, dnptrs := [], [];
      lens := new byte[127];
      suffixLen, suffixOff := 0, 0;
      used, written, shared := base, [], 0;
    }

    /**
     * Choose the longest suffix of `text` that some stored name ends with, and
     * say how many octets `Compress` is going to need. The search starts from what an
     * earlier one has left, and goes by what the stored names read like from the first
     * one; `best` is the name it takes a suffix from, `met` how many it has been through.
     */
    method Prepare(text: seq<byte>) returns (r: Result<nat>, ghost best: int, ghost met: nat)
      requires Shape() && (dnptrs != [] ==> base <= dnptrs[0]) && |Split(Strip(text))| <= 127
      requires Accepted(text) ==>
                 && ComesBack(mem[..], dnptrs, Split(Strip(text)), suffixLen)
                 && AllInReach(mem[..], dnptrs, Split(Strip(text)), suffixLen)
      modifies this`src, this`suffixLen, this`suffixOff, this`shared, lens
      ensures !Accepted(text) ==> r == if 0 < |text| <= MAX_NAME && Strip(text) == [] then Ok(1) else Err(InvalidArgument)
      ensures !Accepted(text) ==> src == old(src) && suffixLen == old(suffixLen) && suffixOff == old(suffixOff)
      ensures r == Err(InvalidArgument) <==> |text| == 0 || |text| > 255 || HasLong(Split(text))
      ensures text == [46] ==> r == Ok(1)
      ensures Accepted(text) && r.Ok? ==> text == if text[|text| - 1] == 46 then src + [46] else src
      ensures Accepted(text) ==> (r.Ok? <==> forall i :: !Blocks(mem[..], dnptrs, Split(Strip(text)), old(suffixLen), i))
      ensures Accepted(text) ==>
                && Taken(mem[..], base, dnptrs, Split(Strip(text)), old(suffixLen), old(suffixOff), best, suffixLen, suffixOff)
                && Searched(mem[..], dnptrs, Split(Strip(text)), suffixLen, met) && best < met
      ensures Accepted(text) ==>
                Finds(mem[..], base, dnptrs, Split(Strip(text)), old(suffixLen), old(suffixOff), Over(r.Ok?, suffixLen, suffixOff))
      ensures Accepted(text) && r.Err? ==>
                && r == Err(IllegalByteSequence) && src == old(src)
                && Blocks(mem[..], dnptrs, Split(Strip(text)), old(suffixLen), met)
      ensures Accepted(text) && r.Ok? ==>
                src == Strip(text) && Recorded(src) && met == |dnptrs| && r == Ok(Asked(|src|, suffixLen))
      ensures Accepted(text) && r.Ok? && (best >= 0 || old(Reset())) ==>
                && suffixLen <= |src| && r == Ok(Needed(|src|, suffixLen))
                && Ready() && ReadBack(mem[..], base, dnptrs, Split(src), shared, suffixOff)
      ensures Accepted(text) && old(Reset()) && old(Valid()) ==>
                r.Ok? && Prepared() && Longest(Msg(), base, dnptrs, Split(src), shared)
    {
      hide Split, Chosen, Longest, Table, Stands, Spells, Taken, Searched, Blocks, Cut, ReadBack, Finds,
           ComesBack, AllInReach, HasLong;
      AcceptedExactly(text);
      best, met := -1, 0;
      if text == [] || |text| > MAX_NAME {
        return Err(InvalidArgument), best, met;
      }
      var s := Strip(text);
      if s == [] {
        return Ok(1), best, met;
      }
      var labelCnt := GetLabelLens(lens, s);
      if labelCnt == 0 {
        return Err(InvalidArgument), best, met;
      }
      assert Accepted(text) && 0 < |text| <= 255 && !HasLong(Split(text));
      var ok;
      SplitSpells(s);
      ghost var m, len0 := mem[..], suffixLen;
      ok, suffixLen, suffixOff, shared, best, met :=
        ChooseLongest(mem[..], base, dnptrs, s, lens[..labelCnt], suffixLen, suffixOff, Split(s), Msg());
      assert m == mem[..];
      if !ok {
        assert Blocks(m, dnptrs, Split(s), len0, met);
        return Err(IllegalByteSequence), best, met;
      }
      src := s;
      return Ok(Asked(|src|, suffixLen)), best, met;
    }

    /** What `Compress` needs of the place it writes to. */
    ghost predicate Room(dst: nat)
      reads `used, `src, `suffixLen, `dnptrs
    {
      && used <= dst
      && (src == [] ==> dst < mem.Length)
      && (src != [] ==>
            && suffixLen <= |src|
            && dst + Needed(|src|, suffixLen) <= mem.Length
            && (suffixLen == |src| || |dnptrs| < 20))
    }

    /** The root name is a zero octet. */
    method CompressRoot(dst: nat)
      requires Shape() && used <= dst < mem.Length
      modifies this`used, this`written, mem
      ensures Shape() && used == dst + 1 && written == old(written) + [Entry(dst, [])]
      ensures mem[dst] == 0 && forall x :: 0 <= x < dst ==> mem[x] == old(mem[x])
      ensures old(Valid()) ==> Valid()
    {
      ghost var t := Msg();
      mem[dst] := 0;
      used := dst + 1;
      ghost var t' := Msg();
      assert t <= t' && t'[dst] == 0;
      if Table(t, base, dnptrs) && forall i :: 0 <= i < |written| ==> Stands(t, base, written[i]) {
        EntriesExtend(t, t', base, written);
        TableExtend(t, t', base, dnptrs);
        assert Stands(t', base, Entry(dst, []));
      }
      written := written + [Entry(dst, [])];
    }

    lemma ReadyIsShort()
      requires Ready()
      ensures Short(Split(src)) && shared <= |Split(src)|
    {}

    /** Put the octets of the prepared name into the message. */
    method WriteName(dst: nat) returns (i: nat, ghost t': seq<byte>, ghost c: seq<byte>)
      requires Shape() && Ready() && Room(dst)
      modifies mem
      ensures dst + i <= mem.Length && t' == mem[..dst + i]
      ensures old(Msg()) <= t'
      ensures c == Compressed(Split(src), shared, suffixOff) && Holds(t', dst, c)
      ensures i == |c| <= Needed(|src|, suffixLen)
      ensures forall x :: 0 <= x < dst ==> mem[x] == old(mem[x])
    {
      hide Split, Table, Stands;
      ghost var a := Split(src);
      SplitSpells(src);
      if shared > 0 {
        SuffixLenGrows(a, 0, shared);
      }
      i := Emit(mem, dst, src, suffixLen, suffixOff, lens[..], a, shared);
      t' := mem[..dst + i];
      c := Compressed(a, shared, suffixOff);
      hide Compressed, Chosen, Spells, SuffixLen;
      forall x | 0 <= x < i ensures t'[dst..dst + i][x] == c[x] {
        assert t'[dst + x] == mem[dst + x] == c[x];
      }
    }

    /** The message `t` is sound, and the prepared name goes where pointers can still reach it. */
    ghost predicate SoundIn(t: seq<byte>, dst: nat)
      reads this, lens
    {
      && Shape() && Table(t, base, dnptrs) && (forall i :: 0 <= i < |written| ==> Stands(t, base, written[i]))
      && src != [] && Recorded(src) && Chosen(t, base, Split(src), shared, suffixLen, suffixOff)
      && suffixLen <= |src| && dst + Needed(|src|, suffixLen) <= base + POINTER_LIMIT
    }

    /** The message `t` still has its names, and has the name `a` at `dst`, written as `c`. */
    ghost predicate Kept(t: seq<byte>, dst: nat, a: seq<Label>, c: seq<byte>)
      reads this
    {
      && suffixLen <= |src| && |c| == Needed(|src|, suffixLen) && (|c| > 2 <==> shared < |a|)
      && Table(t, base, dnptrs)
      && (forall i :: 0 <= i < |written| ==> Stands(t, base, written[i]))
      && Stands(t, base, Entry(dst, a))
      && (shared == 0 || (dnptrs + [dst])[0] == base ==> Table(t, base, dnptrs + [dst]))
    }

    lemma KeptWhenWritten(t: seq<byte>, t': seq<byte>, dst: nat, a: seq<Label>)
      requires Shape() && Table(t, base, dnptrs) && forall i :: 0 <= i < |written| ==> Stands(t, base, written[i])
      requires a == Split(src) && Short(a) && NoEmpty(a) && 0 < |a| <= 127
      requires Chosen(t, base, a, shared, suffixLen, suffixOff)
      requires t <= t' && base <= |t| <= dst && suffixLen <= |src|
      requires dst + Needed(|src|, suffixLen) <= base + POINTER_LIMIT
      requires Holds(t', dst, Compressed(a, shared, suffixOff))
      ensures Kept(t', dst, a, Compressed(a, shared, suffixOff))
    {
      SizeIsExact(src, shared, suffixOff);
      PointerOnly(a, shared, suffixOff);
      hide SplitFrom, Text, Stands, Table, NoEmpty, Stored, Name, Start;
      OneMoreName(t, t', base, dst, dnptrs, written, a, shared, suffixLen, suffixOff);
    }

    /** What is true of the message `t'` once the prepared name is in it at `dst`, as `c`. */
    lemma WrittenName(t: seq<byte>, t': seq<byte>, dst: nat, a: seq<Label>, c: seq<byte>)
      requires SoundIn(t, dst) && a == Split(src) && t <= t' && base <= |t| <= dst
      requires c == Compressed(a, shared, suffixOff) && Holds(t', dst, c)
      ensures Name(t', base, dst).end == Root
      ensures Text(Name(t', base, dst).labels) == src + [DOT] <==> NoEmpty(a)
      ensures NoEmpty(a) ==> Kept(t', dst, a, c)
    {
      SplitText(src, 0);
      assert src[0..] == src;
      SplitSpells(src);
      hide SplitFrom, Text, Stands, Table, NoEmpty, Compressed, Kept, Stored;
      NameWritten(t, t', base, dst, a, shared, suffixLen, suffixOff);
      if NoEmpty(a) {
        KeptWhenWritten(t, t', dst, a);
      }
    }

    lemma WrittenIfSound(t: seq<byte>, t': seq<byte>, dst: nat, a: seq<Label>, c: seq<byte>)
      requires a == Split(src) && Short(a) && shared <= |a| && t <= t' && |t| <= dst
      requires c == Compressed(a, shared, suffixOff) && Holds(t', dst, c)
      ensures SoundIn(t, dst) && base <= |t| ==>
                && Name(t', base, dst).end == Root
                && (Text(Name(t', base, dst).labels) == src + [DOT] <==> NoEmpty(a))
                && (NoEmpty(a) ==> Kept(t', dst, a, c))
    {
      hide Split, Text, Stands, Table, NoEmpty, Compressed, Kept, Holds, Walk, Chosen, Recorded, Needed, SoundIn;
      if SoundIn(t, dst) && base <= |t| {
        WrittenName(t, t', dst, a, c);
      }
    }

    /**
     * Write the prepared name at `dst` and remember where it is. It decodes to its
     * labels exactly when none is empty and the pointer, read from the base, leads to
     * the shared ones; over a sound table it does.
     */
    method Compress(dst: nat)
      requires Shape() && (src == [] || Ready()) && Room(dst)
      modifies this`src, this`suffixLen, this`suffixOff, this`shared, this`dnptrs, this`used, this`written, mem
      ensures Shape() && src == [] && forall x :: 0 <= x < dst ==> mem[x] == old(mem[x])
      ensures old(src) == [] ==>
                && mem[dst] == 0 && used == dst + 1 && dnptrs == old(dnptrs)
                && suffixLen == old(suffixLen) && suffixOff == old(suffixOff)
                && written == old(written) + [Entry(dst, [])]
                && (old(Valid()) ==> Valid())
      ensures old(src) != [] ==>
                && Reset() && Holds(Msg(), dst, Compressed(Split(old(src)), old(shared), old(suffixOff)))
                && used == dst + |Compressed(Split(old(src)), old(shared), old(suffixOff))|
                && dnptrs == old(dnptrs) + (if used - dst > 2 then [dst] else [])
                && (Spelled(Msg(), base, dst, Split(old(src))) <==>
                      && NoEmpty(Split(old(src)))
                      && (old(shared) == 0
                          || (Led(base, old(suffixOff)) < dst
                              && Spelled(Msg(), base, Led(base, old(suffixOff)),
                                         Split(old(src))[|Split(old(src))| - old(shared)..]))))
      ensures old(src) != [] && old(SoundIn(Msg(), dst)) ==>
                && Name(Msg(), base, dst).end == Root
                && (Text(Name(Msg(), base, dst).labels) == old(src) + [DOT] <==> NoEmpty(Split(old(src))))
      ensures old(src) != [] && old(SoundIn(Msg(), dst)) && NoEmpty(Split(old(src))) ==>
                && used == dst + Needed(|old(src)|, old(suffixLen))
                && written == old(written) + [Entry(dst, Split(old(src)))]
                && dnptrs == old(dnptrs) + (if old(shared) < |Split(old(src))| then [dst] else [])
                && (old(shared) == 0 || old(shared) == |Split(old(src))| || dnptrs[0] == base ==> Valid())
    {
      hide Split, Text, Compressed, Stands, Table, Chosen, NoEmpty, Led, Cut, Spelled, Recorded;
      if src == [] {
        CompressRoot(dst);
        return;
      }
      ghost var t, a := Msg(), Split(src);
      var i;
      ghost var t', c;
      i, t', c := WriteName(dst);
      assert Short(a) && shared <= |a| by { ReadyIsShort(); }
      DecodesExactly(t', base, dst, a, shared, suffixOff);
      WrittenIfSound(t, t', dst, a, c);
      used, written := dst + i, if NoEmpty(a) then written + [Entry(dst, a)] else written;
      if i > 2 {
        dnptrs := dnptrs + [dst];
      }
      src, suffixLen, suffixOff := [], 0, 0;
      assert Msg() == t';
    }
  }

  /**
   * A final dot makes no difference: from the same state the text with it and the text
   * without it have the same verdict, size and suffix, and the text kept is the one without.
   */
  method PrepareWithDot(c: DnCompressor, d: DnCompressor, text: seq<byte>) returns (r: Result<nat>, r': Result<nat>)
    requires c != d && c.lens != d.lens && c.mem == d.mem && c.base == d.base && c.Shape() && d.Shape()
    requires c.src == d.src && c.dnptrs == d.dnptrs && c.suffixLen == d.suffixLen && c.suffixOff == d.suffixOff
    requires 0 < |text| <= 254 && text[|text| - 1] != 46 && |Split(text)| <= 127
    requires c.dnptrs != [] ==> c.base <= c.dnptrs[0]
    requires ComesBack(c.mem[..], c.dnptrs, Split(text), c.suffixLen) && AllInReach(c.mem[..], c.dnptrs, Split(text), c.suffixLen)
    modifies c, c.lens, d, d.lens
    ensures r == r' && c.src == d.src && c.suffixLen == d.suffixLen && c.suffixOff == d.suffixOff
    ensures r.Ok? ==> c.src == text
  {
    assert Strip(text) == text && Strip(text + [46]) == text;
    hide Split, ComesBack, AllInReach, Blocks, Taken, Searched, Finds, ReadBack, Cut, Table, Stands, Chosen, Longest;
    ghost var m, ptrs, len0, off0 := c.mem[..], c.dnptrs, c.suffixLen, c.suffixOff;
    ghost var best, met;
    r, best, met := c.Prepare(text);
    assert d.mem[..] == m;
    r', best, met := d.Prepare(text + [46]);
    if Accepted(text) {
      FindsOnce(m, c.base, ptrs, Split(text), len0, off0,
                Over(r.Ok?, c.suffixLen, c.suffixOff), Over(r'.Ok?, d.suffixLen, d.suffixOff));
    }
  }
}
