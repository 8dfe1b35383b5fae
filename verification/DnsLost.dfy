/**
 * Messages on which the compressor fails: its first name does not stand at the base,
 * and pointers are resolved from there all the same.
 */
module DnsLost {
  import opened Basics
  import opened DnsWire
  import opened DnsText
  import opened DnsChain
  import opened DnsSearch
  import opened DnsCompressor
  import opened DnsDecompressor

  // ---- A name is refused ----

  const TWO_NAMES: seq<byte> := [0, 1, 97, 1, 98, 0, 1, 99, 0xc0, 3]

  lemma TwoNamesAreGood()
    ensures Walk(TWO_NAMES, 0, 1, 1) == Walked([1, 3], [[97], [98]], Root)
    ensures Walk(TWO_NAMES, 0, 6, 6) == Walked([6, 3], [[99], [98]], Root)
    ensures NoRootPointer(TWO_NAMES, 0, 1, 1) && NoRootPointer(TWO_NAMES, 0, 6, 6)
  {
    var m := TWO_NAMES;
    assert Target(m, 0, 8) == 3;
    assert LabelAt(m, 1) == [97] && LabelAt(m, 3) == [98] && LabelAt(m, 6) == [99];
    assert Walk(m, 0, 1, 3) == Walked([3], [[98]], Root);
    assert Walk(m, 0, 3, 3) == Walked([3], [[98]], Root);
    assert Walk(m, 0, 6, 8) == Walked([3], [[98]], Root);
    assert NoRootPointer(m, 0, 1, 3) && NoRootPointer(m, 0, 6, 8);
  }

  lemma SecondNameMisread()
    ensures Walk(TWO_NAMES, 1, 1, 1) == Walked([1, 3], [[97], [98]], Root)
    ensures Walk(TWO_NAMES, 1, 6, 6) == Walked([6], [[99]], Illegal)
  {
    var m := TWO_NAMES;
    assert Target(m, 1, 8) == 4;
    assert LabelAt(m, 1) == [97] && LabelAt(m, 3) == [98] && LabelAt(m, 6) == [99];
    assert Walk(m, 1, 1, 3) == Walked([3], [[98]], Root);
    assert Walk(m, 1, 4, 4) == Walked([], [], Illegal);
    assert Walk(m, 1, 6, 8) == Walked([], [], Illegal);
  }

  /**
   * Two names of which the second points into the first, neither at the base: both
   * are good names, but `prepare` reads the second one's pointer from the first
   * name instead of the base, and gives up on any name that is not found before it.
   */
  lemma FirstNameNotAtBase(m: seq<byte>, ptrs: seq<nat>)
    requires m == TWO_NAMES && ptrs == [1, 6]
    ensures Spelled(m, 0, 1, [[97], [98]]) && Spelled(m, 0, 6, [[99], [98]])
    ensures Stored(m, 0, 1) && Stored(m, 0, 6) && ComesBack(m, ptrs, [[100], [98]], 0)
    ensures Blocks(m, ptrs, [[100], [98]], 0, 1)
  {
    TwoNamesAreGood();
    SecondNameMisread();
    WalkIsChased(m, 1, 1, 1);
    WalkIsChased(m, 1, 6, 6);
    ChasedExactly(m, 1, 1);
    ChasedExactly(m, 1, 6);
    hide Walk, NoRootPointer, Chased, Returns;
    var a: seq<Label> := [[100], [98]];
    var b: seq<Label> := [[97], [98]];
    assert a[1] == b[1] && a[0] != b[0] by { assert a[0][0] != b[0][0]; }
    assert CommonUpTo(a, 1, b, 1) == 0 && Common(a, b) == 1;
    assert Start(a, 1) == 2 && Start(a, 2) == 4;
    assert MatchedLen(m, ptrs, a, 0) == 2 && SuffixLen(a, 2) == 3;
  }

  // ---- Two names behind a header ----

  /** Where the labels of a run that is closed by the root stand. */
  lemma {:induction false} LiteralPlaces(m: seq<byte>, base: nat, seg: nat, p: nat, labels: seq<Label>)
    requires Short(labels) && NoEmpty(labels) && Holds(m, p, Wire(labels))
    requires Walk(m, base, seg, p + |Wire(labels)|) == Walked([], [], Root)
    ensures var w := Walk(m, base, seg, p);
            && w.end == Root && w.labels == labels
            && forall i :: 0 <= i < |labels| ==> w.offs[i] == p + Start(labels, i)
    decreases labels
  {
    hide Wire, Holds, Walk, Short, NoEmpty;
    if labels == [] {
      WireNil();
      return;
    }
    var q, tail := p + 1 + |labels[0]|, labels[1..];
    WalkHead(m, base, seg, p, labels);
    LiteralPlaces(m, base, seg, q, tail);
    var w, v := Walk(m, base, seg, p), Walk(m, base, seg, q);
    assert [labels[0]] + tail == labels;
    forall i | 0 <= i < |labels| ensures w.offs[i] == p + Start(labels, i) {
      if i > 0 {
        StartShift(labels, i);
        assert w.offs[i] == v.offs[i - 1];
      }
    }
  }

  lemma CompressedWhole(labels: seq<Label>)
    requires Short(labels) && NoEmpty(labels)
    ensures Compressed(labels, 0, 0) == Wire(labels) + Tail(0, 0)
  {
    CompressedIs(labels, 0, 0);
    assert labels[..|labels| - 0] == labels;
  }

  lemma RootBehind(m: seq<byte>, base: nat, seg: nat, at: nat)
    requires Holds(m, at, Tail(0, 0))
    ensures Walk(m, base, seg, at) == Walked([], [], Root)
  {
    TailReads(m, base, seg, at, 0, 0);
    hide Walk, Holds, Tail;
  }

  lemma UnsharedReads(m: seq<byte>, base: nat, p: nat, labels: seq<Label>)
    requires Short(labels) && NoEmpty(labels) && Holds(m, p, Compressed(labels, 0, 0))
    ensures var w := Name(m, base, p);
            && w.end == Root && w.labels == labels
            && forall i :: 0 <= i < |labels| ==> w.offs[i] == p + Start(labels, i)
  {
    hide Compressed, Wire, Tail, NoEmpty, Short, Holds, Walk, Start;
    CompressedWhole(labels);
    HoldsSplit(m, p, Wire(labels), Tail(0, 0));
    RootBehind(m, base, p, p + |Wire(labels)|);
    LiteralPlaces(m, base, p, p, labels);
  }

  lemma LeadOctets(labels: seq<Label>, off: nat)
    requires Short(labels) && NoEmpty(labels) && |labels| > 1
    ensures 0 < |labels[0]| <= MAX_LABEL
    ensures Compressed(labels, |labels| - 1, off) == ([|labels[0]| as byte] + labels[0]) + Tail(|labels| - 1, off)
  {
    CompressedIs(labels, |labels| - 1, off);
    assert labels[..1] == [labels[0]] + [] && labels[0] != [];
    hide Compressed, Tail, Wire;
    WireNil();
    WireCons(labels[0], []);
    var w: seq<byte> := [|labels[0]| as byte] + labels[0];
    assert w + [] == w;
  }

  /** One label and a pointer, whatever they are resolved from. */
  lemma LabelThenPointer(m: seq<byte>, origin: nat, dst: nat, labels: seq<Label>, off: nat)
    requires Short(labels) && NoEmpty(labels) && |labels| > 1
    requires Holds(m, dst, Compressed(labels, |labels| - 1, off))
    ensures var q := dst + 1 + |labels[0]|;
            && q + 1 < |m| && m[dst] < 64 <= m[q] && LabelAt(m, dst) == labels[0]
            && HopAt(m, origin, dst) == To(q) && HopAt(m, origin, q) == To(Led(origin, off))
  {
    hide Compressed, Wire, Tail, Holds, NoEmpty, Short, LabelAt, Target, Led;
    LeadOctets(labels, off);
    var l: Label, w: seq<byte> := labels[0], [|labels[0]| as byte] + labels[0];
    HoldsSplit(m, dst, w, Tail(|labels| - 1, off));
    OctetThen(m, dst, |l| as byte, l);
    LabelHolds(m, dst, l);
    PointerLeads(m, origin, dst + |w|, |labels| - 1, off);
  }

  /** Labels that make up a name that is written as it stands. */
  ghost predicate Makes(text: seq<byte>, labels: seq<Label>) {
    && Accepted(text) && Strip(text) == text && Split(text) == labels
    && Short(labels) && NoEmpty(labels) && 0 < |labels| <= 127
  }

  /** There is room for such a name, within reach of a pointer. */
  ghost predicate Fits(c: DnCompressor, dst: nat, text: seq<byte>) {
    dst + |text| + 2 <= c.mem.Length && dst + |text| + 2 <= c.base + POINTER_LIMIT
  }

  /** The first name of a message. */
  method WriteFirst(c: DnCompressor, dst: nat, text: seq<byte>, ghost labels: seq<Label>)
    requires c.Valid() && c.Idle() && c.dnptrs == [] && c.used <= dst
    requires Makes(text, labels) && Fits(c, dst, text)
    modifies c, c.mem, c.lens
    ensures c.Valid() && c.Idle() && c.dnptrs == [dst]
    ensures Holds(c.Msg(), dst, Compressed(labels, 0, 0)) && c.used == dst + |Compressed(labels, 0, 0)| <= dst + |text| + 2
  {
    TableComesBack(c.Msg(), c.mem[..], c.base, [], labels, 0);
    hide Split, Stands, Table, NoEmpty, Short, Compressed, Spelled, Walk, Led, ComesBack, AllInReach, Blocks, Finds, Searched, Taken;
    ghost var best, met;
    var r;
    r, best, met := c.Prepare(text);
    assert c.shared == 0 && c.suffixOff == 0;
    c.Compress(dst);
  }

  /** A suffix that was chosen over a sound table stands where the pointer leads. */
  lemma ChosenStands(t: seq<byte>, t': seq<byte>, base: nat, a: seq<Label>, shared: nat, suffixLen: nat, off: nat, dst: nat)
    requires Chosen(t, base, a, shared, suffixLen, off) && t <= t' && |t| <= dst
    ensures shared > 0 ==> Led(base, off) < dst && Spelled(t', base, Led(base, off), a[|a| - shared..])
  {
    if shared > 0 {
      FourteenBits(off);
      WalkExtend(t, t', base, base + off, base + off);
    }
  }

  /** What is shared with the only name there is. */
  lemma SharedWithFirst(m: seq<byte>, t: seq<byte>, base: nat, p: nat, first: seq<Label>, a: seq<Label>,
                        best: int, suffixLen: nat, off: nat, shared: nat)
    requires t <= m && base <= p && Short(first) && NoEmpty(first) && Holds(t, p, Compressed(first, 0, 0))
    requires Taken(m, base, [p], a, 0, 0, best, suffixLen, off) && Cut(a, shared, suffixLen, off)
    requires Longest(t, base, [p], a, shared) && 0 < Common(a, first)
    ensures shared == Common(a, first) && off == p + Start(first, |first| - shared) - base
  {
    UnsharedReads(t, base, p, first);
    UnsharedReads(t, p, p, first);
    WalkExtend(t, m, p, p, p);
    WalkIsChased(m, p, p, p);
    hide Walk, Chased, Compressed, Holds, Common, NoEmpty, Start;
    assert SharedWith(t, base, [p], a, 0) == Common(a, first);
    assert Reading(m, [p], 0).labels == first;
    SharedIsSomething(a, shared);
  }

  lemma SharedIsSomething(a: seq<Label>, shared: nat)
    requires 0 < shared <= |a| && a[|a| - shared] != []
    ensures SuffixLen(a, shared) > 0
  {
    SuffixLenGrows(a, 0, shared);
  }

  /** A second name that shares some but not all of its labels with the first. */
  method WriteSecond(c: DnCompressor, dst: nat, text: seq<byte>, ghost labels: seq<Label>, ghost p: nat, ghost first: seq<Label>)
    requires c.Valid() && c.Idle() && c.dnptrs == [p] && c.base <= p && c.used <= dst
    requires Short(first) && NoEmpty(first) && Holds(c.Msg(), p, Compressed(first, 0, 0))
    requires Makes(text, labels) && Fits(c, dst, text) && 0 < Common(labels, first) < |labels|
    modifies c, c.mem, c.lens
    ensures c.Shape() && c.Idle() && c.dnptrs == [p, dst] && c.used <= dst + |text| + 2
    ensures var k := Common(labels, first);
            var off := p + Start(first, |first| - k) - c.base;
            && off >= 0 && Holds(c.Msg(), dst, Compressed(labels, k, off)) && c.used == dst + |Compressed(labels, k, off)|
    ensures old(c.Msg()) <= c.Msg() && Spelled(c.Msg(), c.base, dst, labels)
  {
    hide *;
    CanPrepare(c, dst, text, labels);
    ghost var t, m := c.Msg(), c.mem[..];
    ghost var best, met;
    var r;
    r, best, met := c.Prepare(text);
    RoomOnceReady(c, dst, text, labels);
    SharedWithFirst(m, t, c.base, p, first, labels, best, c.suffixLen, c.suffixOff, c.shared);
    ghost var shared, suffixLen, off := c.shared, c.suffixLen, c.suffixOff;
    c.Compress(dst);
    Grown(c, t, m, dst);
    ChosenStands(t, c.Msg(), c.base, labels, shared, suffixLen, off, dst);
    PartShared(labels, shared, off);
    NowIdle(c);
  }

  lemma CanPrepare(c: DnCompressor, dst: nat, text: seq<byte>, labels: seq<Label>)
    requires c.Valid() && c.Idle() && c.used <= dst && Makes(text, labels) && Fits(c, dst, text)
    ensures c.Shape() && c.Reset() && (c.dnptrs != [] ==> c.base <= c.dnptrs[0]) && |Split(Strip(text))| <= 127
    ensures c.lens != c.mem && c.used <= c.mem.Length && dst <= c.mem.Length && c.Msg() <= c.mem[..] && |c.Msg()| == c.used
    ensures Accepted(text) && Strip(text) == text && Split(text) == labels && Short(labels) && NoEmpty(labels)
    ensures c.suffixLen == 0 && c.suffixOff == 0
    ensures ComesBack(c.mem[..], c.dnptrs, labels, 0) && AllInReach(c.mem[..], c.dnptrs, labels, 0)
  {
    TableComesBack(c.Msg(), c.mem[..], c.base, c.dnptrs, labels, 0);
    hide ComesBack, AllInReach, Stands, Stored;
  }

  /** Once a name is prepared there is room for it. */
  lemma RoomOnceReady(c: DnCompressor, dst: nat, text: seq<byte>, labels: seq<Label>)
    requires c.Valid() && c.Prepared() && c.src == text && c.suffixLen <= |c.src| && |c.dnptrs| < 20
    requires c.used <= dst && Fits(c, dst, text) && Split(text) == labels
    ensures c.Ready() && c.Room(dst) && c.SoundIn(c.Msg(), dst)
    ensures Chosen(c.Msg(), c.base, labels, c.shared, c.suffixLen, c.suffixOff) && c.shared <= |labels|
    ensures Cut(labels, c.shared, c.suffixLen, c.suffixOff)
    ensures Needed(|c.src|, c.suffixLen) <= |text| + 2 && c.src != []
  {
    hide Split, Table, Stands, Shares;
  }

  lemma PartShared(labels: seq<Label>, shared: nat, off: nat)
    requires Short(labels) && NoEmpty(labels) && shared < |labels|
    ensures |Compressed(labels, shared, off)| > 2
  {
    PointerOnly(labels, shared, off);
  }

  lemma NowIdle(c: DnCompressor)
    requires c.src == [] && c.Reset()
    ensures c.Idle()
  {}

  lemma Grown(c: DnCompressor, t: seq<byte>, m: seq<byte>, dst: nat)
    requires c.Shape() && |t| <= dst <= c.used && dst <= |m| && t <= m
    requires forall x :: 0 <= x < dst ==> c.mem[x] == m[x]
    ensures c.used <= c.mem.Length && t <= c.Msg()
  {}

  lemma MakesDotted(labels: seq<Label>)
    requires 0 < |labels| <= 127 && Short(labels) && NoEmpty(labels) && |Dotted(labels)| <= 253
    requires forall k :: 0 <= k < |labels| ==> DOT !in labels[k]
    ensures Makes(Dotted(labels), labels)
  {
    var s := Dotted(labels);
    LastOctet(labels);
    assert s[0..] == s;
    SplitDotted(s, 0, labels);
    hide Dotted;
    var l := labels[|labels| - 1];
    assert l[|l| - 1] in l;
  }

  lemma HoldsOn(t: seq<byte>, m: seq<byte>, p: nat, x: seq<byte>)
    requires t <= m && Holds(t, p, x)
    ensures Holds(m, p, x)
  {}

  // ---- The search does not come back ----

  const FIRST_OF_TWO: seq<Label> := [[97], [99, 99]]
  const SECOND_OF_TWO: seq<Label> := [[113, 113, 113, 113, 113, 113, 113], [99, 99]]

  lemma TwoMakes()
    ensures |Dotted(FIRST_OF_TWO)| == 4 && Makes(Dotted(FIRST_OF_TWO), FIRST_OF_TWO)
    ensures |Dotted(SECOND_OF_TWO)| == 10 && Makes(Dotted(SECOND_OF_TWO), SECOND_OF_TWO)
    ensures |FIRST_OF_TWO| == |SECOND_OF_TWO| == 2
    ensures Common(SECOND_OF_TWO, FIRST_OF_TWO) == 1 && Start(FIRST_OF_TWO, 1) == 2 && |SECOND_OF_TWO[0]| == 7
  {
    var a, b := FIRST_OF_TWO, SECOND_OF_TWO;
    assert a[1..] == [a[1]] && b[1..] == [b[1]];
    assert a[0] != b[0] by { assert |a[0]| != |b[0]|; }
    assert CommonUpTo(b, 1, a, 1) == 0;
    MakesDotted(a);
    MakesDotted(b);
  }

  /** The pointer of the second name, resolved from the first, leads to itself. */
  lemma PointerToItself(m: seq<byte>)
    requires Holds(m, 12, Compressed(FIRST_OF_TWO, 0, 0)) && Holds(m, 18, Compressed(SECOND_OF_TWO, 1, 14))
    ensures !Returns(m, 12, 18) && Readable(m, [12, 18], 0)
  {
    TwoMakes();
    hide FIRST_OF_TWO, SECOND_OF_TWO, Compressed, Holds, Walk, Chased, Dotted, Common, Start;
    LabelThenPointer(m, 12, 18, SECOND_OF_TWO, 14);
    FourteenBits(14);
    assert Place(m, 12, 18, 1) == Place(m, 12, 26, 0) == Some(26);
    assert Place(m, 12, 18, 2) == Place(m, 12, 26, 1) == Place(m, 12, 26, 0);
    assert !NeverRepeats(m, 12, 18);
    ReturnsExactly(m, 12, 18);
    UnsharedReads(m, 12, 12, FIRST_OF_TWO);
    WalkIsChased(m, 12, 12, 12);
  }

  /** A search that is not through with the first name comes to the second, and never gets on. */
  lemma NeverComesBack(m: seq<byte>, ptrs: seq<nat>, a: seq<Label>, len0: nat)
    requires ptrs == [12, 18] && Readable(m, ptrs, 0) && !Returns(m, 12, 18)
    ensures ComesBack(m, ptrs, a, len0) ==> Whole(m, ptrs, a, len0, 0)
  {
    hide Readable, Whole, Returns;
    assert !Whole(m, ptrs, a, len0, 0) ==> Meets(m, ptrs, a, len0, 1);
  }

  /**
   * `a.cc` and `qqqqqqq.cc` written behind a header of twelve octets: both are good
   * names, and from then on no call of `prepare` comes back unless `a.cc` ends with
   * the whole of the name that is prepared.
   */
  method EndlessSearch() returns (c: DnCompressor)
    ensures c.Shape() && c.Idle() && c.base == 0 && c.dnptrs == [12, 18] && c.used <= c.mem.Length
    ensures Spelled(c.Msg(), 0, 12, FIRST_OF_TWO) && Spelled(c.Msg(), 0, 18, SECOND_OF_TWO)
    ensures forall a, len0 :: ComesBack(c.mem[..], c.dnptrs, a, len0) ==> Whole(c.mem[..], c.dnptrs, a, len0, 0)
  {
    hide *;
    TwoMakes();
    var mem := new byte[64];
    c := new DnCompressor(mem, 0);
    RoomForShort(c, 12, Dotted(FIRST_OF_TWO));
    WriteFirst(c, 12, Dotted(FIRST_OF_TWO), FIRST_OF_TWO);
    MadeOf(Dotted(FIRST_OF_TWO), FIRST_OF_TWO);
    RoomForShort(c, 18, Dotted(SECOND_OF_TWO));
    ghost var t := c.Msg();
    WriteSecond(c, 18, Dotted(SECOND_OF_TWO), SECOND_OF_TWO, 12, FIRST_OF_TWO);
    WholeMemory(c);
    HoldsOn(t, c.Msg(), 12, Compressed(FIRST_OF_TWO, 0, 0));
    FirstSpelled(c.Msg(), 0, 12, FIRST_OF_TWO);
    HoldsOn(c.Msg(), c.mem[..], 12, Compressed(FIRST_OF_TWO, 0, 0));
    HoldsOn(c.Msg(), c.mem[..], 18, Compressed(SECOND_OF_TWO, 1, 14));
    PointerToItself(c.mem[..]);
    forall a, len0 ensures ComesBack(c.mem[..], c.dnptrs, a, len0) ==> Whole(c.mem[..], c.dnptrs, a, len0, 0) {
      NeverComesBack(c.mem[..], c.dnptrs, a, len0);
    }
  }

  lemma RoomForShort(c: DnCompressor, dst: nat, text: seq<byte>)
    requires dst + |text| + 2 <= 64 <= c.mem.Length && c.base == 0
    ensures Fits(c, dst, text)
  {}

  lemma MadeOf(text: seq<byte>, labels: seq<Label>)
    requires Makes(text, labels)
    ensures Short(labels) && NoEmpty(labels)
  {}

  lemma WholeMemory(c: DnCompressor)
    requires c.Shape()
    ensures c.used <= c.mem.Length && c.Msg() <= c.mem[..] && |c.Msg()| == c.used
  {}

  lemma FirstSpelled(m: seq<byte>, base: nat, p: nat, labels: seq<Label>)
    requires Short(labels) && NoEmpty(labels) && Holds(m, p, Compressed(labels, 0, 0))
    ensures Spelled(m, base, p, labels)
  {
    UnsharedReads(m, base, p, labels);
  }

  // ---- Another name is written ----

  const MIDDLE: Label := [98, 98, 98, 98, 98, 98, 98, 98, 98, 98, 98]
  const FIRST_OF_THREE: seq<Label> := [[97], MIDDLE, [99]]
  const SECOND_OF_THREE: seq<Label> := [[113], MIDDLE, [99]]
  const THIRD_OF_THREE: seq<Label> := [[113], [99]]

  lemma ThreeLengths()
    ensures |FIRST_OF_THREE| == |SECOND_OF_THREE| == 3 && |THIRD_OF_THREE| == 2
    ensures |Dotted(FIRST_OF_THREE)| == 15 && |Dotted(SECOND_OF_THREE)| == 15 && |Dotted(THIRD_OF_THREE)| == 3
    ensures Start(FIRST_OF_THREE, 1) == 2 && Start(FIRST_OF_THREE, 2) == 14
    ensures |SECOND_OF_THREE[0]| == 1 && FIRST_OF_THREE[2..] == [[99]] && SECOND_OF_THREE[0] == [113]
    ensures SuffixLen(THIRD_OF_THREE, 1) == 2 && SuffixLen(THIRD_OF_THREE, 2) == 3
  {
    var a, b, c := FIRST_OF_THREE, SECOND_OF_THREE, THIRD_OF_THREE;
    assert a[1..] == [MIDDLE, [99]] && b[1..] == [MIDDLE, [99]] && c[1..] == [[99]];
    var t: seq<Label> := [MIDDLE, [99]];
    assert t[1..] == [[99]];
    assert |Dotted(t)| == 13;
    assert Start(c, 1) == 2 && Start(c, 2) == 4;
  }

  lemma ThreeShared()
    ensures Common(SECOND_OF_THREE, FIRST_OF_THREE) == 2
    ensures Common(THIRD_OF_THREE, FIRST_OF_THREE) == 1 && Common(THIRD_OF_THREE, [[113], [99]]) == 2
  {
    var a, b, c := FIRST_OF_THREE, SECOND_OF_THREE, THIRD_OF_THREE;
    assert a[0] != b[0] by { assert a[0][0] != b[0][0]; }
    assert c[0] != a[1] by { assert |c[0]| != |a[1]|; }
    assert CommonUpTo(b, 1, a, 1) == 0 && CommonUpTo(b, 2, a, 2) == 1;
    assert CommonUpTo(c, 1, a, 2) == 0;
    assert CommonUpTo(c, 0, c, 0) == 0 && CommonUpTo(c, 1, c, 1) == 1;
  }

  lemma ThreeMakes()
    ensures Makes(Dotted(FIRST_OF_THREE), FIRST_OF_THREE) && Makes(Dotted(SECOND_OF_THREE), SECOND_OF_THREE)
    ensures Makes(Dotted(THIRD_OF_THREE), THIRD_OF_THREE)
  {
    ThreeLengths();
    MakesDotted(FIRST_OF_THREE);
    MakesDotted(SECOND_OF_THREE);
    MakesDotted(THIRD_OF_THREE);
  }

  /** Read from the first name, the second one is `q.c`. */
  lemma SecondMisread(m: seq<byte>)
    requires Holds(m, 12, Compressed(FIRST_OF_THREE, 0, 0)) && Holds(m, 29, Compressed(SECOND_OF_THREE, 2, 14))
    ensures Reading(m, [12, 29], 0).labels == FIRST_OF_THREE && Reading(m, [12, 29], 0).end == Root
    ensures Reading(m, [12, 29], 0).offs == [12, 14, 26]
    ensures Reading(m, [12, 29], 1) == Walked([29, 26], [[113], [99]], Root)
  {
    ThreeMakes();
    ThreeLengths();
    MadeOf(Dotted(FIRST_OF_THREE), FIRST_OF_THREE);
    MadeOf(Dotted(SECOND_OF_THREE), SECOND_OF_THREE);
    hide FIRST_OF_THREE, SECOND_OF_THREE, Compressed, Holds, Walk, Chased, Dotted, Makes;
    UnsharedReads(m, 12, 12, FIRST_OF_THREE);
    WalkIsChased(m, 12, 12, 12);
    var w := Chased(m, 12, 12);
    assert Start(FIRST_OF_THREE, 0) == 0;
    assert w.offs == [12, 14, 26];
    ChasedSuffix(m, 12, 12, 2);
    assert w.offs[2..] == [26];
    LabelThenPointer(m, 12, 29, SECOND_OF_THREE, 14);
    FourteenBits(14);
    LabelAndOn(m, 12, 29, 31, 26, [113]);
  }

  /** A label and a pointer to where reading goes on. */
  lemma LabelAndOn(m: seq<byte>, origin: nat, p: nat, q: nat, r: nat, l: Label)
    requires p < q < |m| && m[p] < 64 <= m[q] && LabelAt(m, p) == l
    requires HopAt(m, origin, p) == To(q) && HopAt(m, origin, q) == To(r) && Chased(m, origin, r).end != Wild
    ensures var w := Chased(m, origin, r); Chased(m, origin, p) == Walked([p] + w.offs, [l] + w.labels, w.end)
  {
    ChasedExactly(m, origin, r);
    var k: nat :| StopsIn(m, origin, r, k);
    ChasedIn(m, origin, r, k);
    assert StopsIn(m, origin, q, k + 1) && Chase(m, origin, q, k + 1) == Chase(m, origin, r, k);
    assert StopsIn(m, origin, p, k + 2);
    ChasedIn(m, origin, p, k + 2);
  }

  /** The search for `q.c` comes back, is not refused, and takes the whole of the second name. */
  lemma ThirdSearched(m: seq<byte>, ptrs: seq<nat>)
    requires ptrs == [12, 29]
    requires Holds(m, 12, Compressed(FIRST_OF_THREE, 0, 0)) && Holds(m, 29, Compressed(SECOND_OF_THREE, 2, 14))
    ensures ComesBack(m, ptrs, THIRD_OF_THREE, 0) && AllInReach(m, ptrs, THIRD_OF_THREE, 0)
    ensures forall i :: !Blocks(m, ptrs, THIRD_OF_THREE, 0, i)
    ensures MatchedLen(m, ptrs, THIRD_OF_THREE, 0) == 2 && MatchedLen(m, ptrs, THIRD_OF_THREE, 1) == 3
  {
    SecondMisread(m);
    ThreeShared();
    ThreeLengths();
    hide FIRST_OF_THREE, SECOND_OF_THREE, THIRD_OF_THREE, Compressed, Holds, Chased, Dotted, Common, SuffixLen, Start, Whole, Returns;
    ChasedExactly(m, 12, 12);
    ChasedExactly(m, 12, 29);
  }

  /** So what is left to the pointer is the whole text, and the pointer is for 29. */
  lemma ThirdTaken(m: seq<byte>, ptrs: seq<nat>, best: int, suffixLen: nat, off: nat, shared: nat)
    requires ptrs == [12, 29]
    requires Holds(m, 12, Compressed(FIRST_OF_THREE, 0, 0)) && Holds(m, 29, Compressed(SECOND_OF_THREE, 2, 14))
    requires Taken(m, 0, ptrs, THIRD_OF_THREE, 0, 0, best, suffixLen, off) && Searched(m, ptrs, THIRD_OF_THREE, suffixLen, 2)
    requires Cut(THIRD_OF_THREE, shared, suffixLen, off)
    ensures shared == 2 && suffixLen == 3 && off == 29 && best >= 0
  {
    SecondMisread(m);
    ThreeShared();
    ThreeLengths();
    ThirdSearched(m, ptrs);
    NothingShared(THIRD_OF_THREE);
    hide FIRST_OF_THREE, SECOND_OF_THREE, THIRD_OF_THREE, Compressed, Holds, Chased, Reading, Dotted, Common, SuffixLen, Start;
    assert MatchedLen(m, ptrs, THIRD_OF_THREE, 1) <= suffixLen;
  }

  /** The pointer that is then written decodes to the second name. */
  lemma ThirdReads(t: seq<byte>, m: seq<byte>)
    requires t <= m && Spelled(t, 0, 29, SECOND_OF_THREE)
    requires Holds(m, 33, Compressed(THIRD_OF_THREE, 2, 29))
    ensures Spelled(m, 0, 33, SECOND_OF_THREE)
  {
    ThreeMakes();
    ThreeLengths();
    MadeOf(Dotted(THIRD_OF_THREE), THIRD_OF_THREE);
    hide FIRST_OF_THREE, SECOND_OF_THREE, Dotted, Walk, Makes;
    CompressedReads(m, 0, 33, THIRD_OF_THREE, 2, 29);
    FourteenBits(29);
    WalkExtend(t, m, 0, 29, 29);
    assert THIRD_OF_THREE[..0] == [];
    var b := Behind(m, 0, 33, 2, 29);
    assert [] + b.labels == b.labels;
  }

  lemma NotThird()
    ensures SECOND_OF_THREE != THIRD_OF_THREE
  {
    ThreeLengths();
  }

  lemma CanTakeThird(c: DnCompressor)
    requires c.Shape() && c.Idle() && c.base == 0 && c.dnptrs == [12, 29] && c.used <= c.mem.Length
    requires Holds(c.mem[..], 12, Compressed(FIRST_OF_THREE, 0, 0)) && Holds(c.mem[..], 29, Compressed(SECOND_OF_THREE, 2, 14))
    ensures var text := Dotted(THIRD_OF_THREE);
            && Accepted(text) && Strip(text) == text && Split(text) == THIRD_OF_THREE && |Split(text)| <= 127
            && |text| == 3 && |THIRD_OF_THREE| == 2
    ensures ComesBack(c.mem[..], c.dnptrs, THIRD_OF_THREE, 0) && AllInReach(c.mem[..], c.dnptrs, THIRD_OF_THREE, 0)
    ensures forall i :: !Blocks(c.mem[..], c.dnptrs, THIRD_OF_THREE, 0, i)
    ensures c.Reset() && c.suffixLen == 0 && c.suffixOff == 0 && c.lens != c.mem && |c.dnptrs| == 2 && c.base <= c.dnptrs[0]
  {
    ThreeMakes();
    ThreeLengths();
    ThirdSearched(c.mem[..], c.dnptrs);
    hide FIRST_OF_THREE, SECOND_OF_THREE, THIRD_OF_THREE, Dotted, Compressed, Holds, Split, ComesBack, AllInReach, Blocks;
  }

  lemma RoomForThird(c: DnCompressor)
    requires c.Shape() && c.src != [] && |c.src| == c.suffixLen == 3 && c.used == 33 && c.mem.Length >= 64
    ensures c.Room(33) && Needed(|c.src|, c.suffixLen) == 2
  {}

  lemma TakesTwoOctets()
    ensures |Compressed(THIRD_OF_THREE, 2, 29)| == 2
  {
    hide Tail;
    assert Compressed(THIRD_OF_THREE, 2, 29) == Wire([]) + Tail(2, 29) by { assert THIRD_OF_THREE[..0] == []; }
    WireNil();
    TailLength(2, 29);
  }

  lemma TailLength(shared: nat, off: nat)
    ensures |Tail(shared, off)| == if shared == 0 then 1 else 2
  {}

  lemma SpelledOnce(m: seq<byte>, base: nat, p: nat, a: seq<Label>, b: seq<Label>)
    requires Spelled(m, base, p, a) && a != b
    ensures !Spelled(m, base, p, b)
  {}

  /** Prepare `q.c` and write it. */
  method WriteThird(c: DnCompressor) returns (r: Result<nat>)
    requires c.Shape() && c.Idle() && c.base == 0 && c.dnptrs == [12, 29] && c.used == 33 && c.mem.Length >= 64
    requires Holds(c.mem[..], 12, Compressed(FIRST_OF_THREE, 0, 0)) && Holds(c.mem[..], 29, Compressed(SECOND_OF_THREE, 2, 14))
    requires Spelled(c.Msg(), 0, 29, SECOND_OF_THREE)
    modifies c, c.mem, c.lens
    ensures r == Ok(2) && c.Shape() && c.used == 35
    ensures Holds(c.Msg(), 33, Compressed(THIRD_OF_THREE, 2, 29))
    ensures Spelled(c.Msg(), 0, 33, SECOND_OF_THREE) && !Spelled(c.Msg(), 0, 33, THIRD_OF_THREE)
  {
    hide *;
    CanTakeThird(c);
    ghost var best, met, t, m := -1, 0, c.Msg(), c.mem[..];
    WholeMemory(c);
    r, best, met := c.Prepare(Dotted(THIRD_OF_THREE));
    AlwaysCut(c);
    ThirdTaken(m, c.dnptrs, best, c.suffixLen, c.suffixOff, c.shared);
    RoomForThird(c);
    c.Compress(33);
    TakesTwoOctets();
    Grown(c, t, m, 33);
    ThirdReads(t, c.Msg());
    NotThird();
    SpelledOnce(c.Msg(), 0, 33, SECOND_OF_THREE, THIRD_OF_THREE);
  }

  lemma AlwaysCut(c: DnCompressor)
    requires c.Ready()
    ensures c.src != [] && Cut(Split(c.src), c.shared, c.suffixLen, c.suffixOff)
  {
    hide Split, Cut;
  }

  /**
   * `a.bbbbbbbbbbb.c` and `q.bbbbbbbbbbb.c` written behind a header of twelve octets,
   * and then `q.c`: it is accepted, and what stands in the message for it is the
   * second name once more.
   */
  method WrittenAsAnotherName() returns (c: DnCompressor, r: Result<nat>)
    ensures r == Ok(2) && c.Shape() && c.base == 0 && c.used == 35 <= c.mem.Length
    ensures Holds(c.Msg(), 33, Compressed(THIRD_OF_THREE, 2, 29))
    ensures Spelled(c.Msg(), 0, 33, SECOND_OF_THREE) && !Spelled(c.Msg(), 0, 33, THIRD_OF_THREE)
  {
    hide *;
    ThreeMakes();
    ThreeLengths();
    ThreeShared();
    NotThird();
    var mem := new byte[64];
    c := new DnCompressor(mem, 0);
    RoomForShort(c, 12, Dotted(FIRST_OF_THREE));
    WriteFirst(c, 12, Dotted(FIRST_OF_THREE), FIRST_OF_THREE);
    MadeOf(Dotted(FIRST_OF_THREE), FIRST_OF_THREE);
    RoomForShort(c, 29, Dotted(SECOND_OF_THREE));
    ghost var t := c.Msg();
    WriteSecond(c, 29, Dotted(SECOND_OF_THREE), SECOND_OF_THREE, 12, FIRST_OF_THREE);
    SecondLength();
    WholeMemory(c);
    HoldsOn(t, c.Msg(), 12, Compressed(FIRST_OF_THREE, 0, 0));
    HoldsOn(c.Msg(), c.mem[..], 12, Compressed(FIRST_OF_THREE, 0, 0));
    HoldsOn(c.Msg(), c.mem[..], 29, Compressed(SECOND_OF_THREE, 2, 14));
    r := WriteThird(c);
  }

  lemma SecondLength()
    ensures |Compressed(SECOND_OF_THREE, 2, 14)| == 4
  {
    ThreeMakes();
    ThreeLengths();
    MadeOf(Dotted(SECOND_OF_THREE), SECOND_OF_THREE);
    CompressedIs(SECOND_OF_THREE, 2, 14);
    hide FIRST_OF_THREE, Dotted, Makes, Compressed, Tail;
    assert SECOND_OF_THREE[..1] == [[113]] + [];
    WireNil();
    WireCons([113], []);
  }

  // ---- The root is read as an empty label ----

  /** A pointer to a pointer to the root: the root is read as an empty label, and reading goes on behind it. */
  lemma RootBehindTwoPointers()
    ensures var m: seq<byte> := [0, 0, 0xc0, 0, 1, 97, 0xc0, 2];
            && Spelled(m, 0, 4, [[97]]) && !PointersSafe(m, 0, 4, 4)
            && Read(m, 0, 4, 4) == Walked([4, 0], [[97], []], Root)
  {
    var m: seq<byte> := [0, 0, 0xc0, 0, 1, 97, 0xc0, 2];
    assert Target(m, 0, 2) == 0 && Target(m, 0, 6) == 2 && LabelAt(m, 4) == [97] && LabelAt(m, 0) == [];
    assert Walk(m, 0, 2, 2) == Walked([], [], Root);
    assert Walk(m, 0, 4, 6) == Walked([], [], Root);
    assert Rest(m, 0, 0, 1) == Walked([], [], Root);
    assert RestLabel(m, 0, 0, 0) == Walked([0], [[]], Root);
    assert Rest(m, 0, 2, 2) == RestLabel(m, 0, 2, 2) == Walked([0], [[]], Root);
    assert Read(m, 0, 4, 6) == Walked([0], [[]], Root);
    assert !NoRootPointer(m, 0, 2, 2) && !PointersSafe(m, 0, 4, 6);
  }
}
