/**
 * Whole messages: names written one after another into one buffer, with record
 * data between them, and read back.
 */
module DnsMessage {
  import opened Basics
  import opened DnsWire
  import opened DnsText
  import opened DnsSearch
  import opened DnsCompressor
  import opened DnsDecompressor

  /** The labels of a domain name as RFC 1035, section 2.3.4, admits it. */
  predicate Admitted(labels: seq<Label>) {
    && labels != [] && |Dotted(labels)| <= 253
    && Dotless(labels) && forall k :: 0 <= k < |labels| ==> 0 < |labels[k]| <= 63
  }

  /** Its text: with dots between the labels, and a final dot or none; "." is the root. */
  ghost predicate Legal(text: seq<byte>) {
    text == [46] || exists labels :: Admitted(labels) && (text == Dotted(labels) || text == Dotted(labels) + [46])
  }

  function LabelsOf(text: seq<byte>): seq<Label> {
    if Strip(text) == [] then [] else Split(Strip(text))
  }

  /** The same, from the labels a text is cut into. */
  predicate WellCut(text: seq<byte>) {
    && text != [] && |Strip(text)| <= 253
    && Short(LabelsOf(text)) && NoEmpty(LabelsOf(text))
  }

  lemma AdmittedCut(text: seq<byte>, labels: seq<Label>)
    requires Admitted(labels) && (text == Dotted(labels) || text == Dotted(labels) + [46])
    ensures WellCut(text) && LabelsOf(text) == labels
  {
    var s := Dotted(labels);
    assert s[0..] == s;
    SplitDotted(s, 0, labels);
    LastOctet(labels);
    hide Dotted, SplitFrom;
    assert labels[|labels| - 1][|labels[|labels| - 1]| - 1] in labels[|labels| - 1];
  }

  /** Which texts are legal, both ways. */
  lemma LegalExactly(text: seq<byte>)
    ensures Legal(text) <==> WellCut(text)
    ensures Legal(text) ==> text != [] && (Strip(text) == [] <==> text == [46])
  {
    if labels :| Admitted(labels) && (text == Dotted(labels) || text == Dotted(labels) + [46]) {
      AdmittedCut(text, labels);
    }
    if WellCut(text) && text != [46] {
      var s := Strip(text);
      SplitIsDotted(s, 0);
      assert s[0..] == s;
      hide SplitFrom, Dotted;
      assert Admitted(Split(s));
    }
  }

  /** How a name reads once it has been through a message: with a final dot, the root as nothing. */
  function Shown(text: seq<byte>): seq<byte> {
    if text == [] || text == [46] then [] else if text[|text| - 1] == 46 then text else text + [46]
  }

  lemma LabelsShown(text: seq<byte>)
    ensures Text(LabelsOf(text)) == Shown(text)
  {
    var s := Strip(text);
    if s != [] {
      SplitText(s, 0);
      assert s[0..] == s;
    }
  }

  lemma {:induction false} NonEmptyStart(a: seq<Label>, k: nat)
    requires NoEmpty(a) && k <= |a|
    ensures Start(a, k) >= 2 * k
  {
    if k > 0 {
      NonEmptyStart(a, k - 1);
    }
  }

  /** A legal name has room in the table of label lengths. */
  lemma LegalLabels(text: seq<byte>)
    requires WellCut(text)
    ensures |Split(Strip(text))| <= 127 && |text| <= 254
    ensures Strip(text) != [] ==> Accepted(text) && 0 < |LabelsOf(text)|
  {
    var s := Strip(text);
    SplitSpells(s);
    if s != [] {
      NonEmptyStart(Split(s), |Split(s)|);
    } else {
      StartMonotone(Split(s), 0, |Split(s)|);
    }
  }

  lemma LegalHasLabels(text: seq<byte>)
    requires WellCut(text)
    ensures Strip(text) != [] ==> LabelsOf(text) != []
  {
    LegalLabels(text);
    hide Split, WellCut;
  }

  /** Decompressing at `p` gives the text of a name written there. */
  ghost predicate Decodes(m: seq<byte>, base: nat, p: nat, text: seq<byte>) {
    && Read(m, base, p, p).end == Root && Ahead(Read(m, base, p, p)) == Shown(text)
    && Name(m, base, p).end == Root
  }

  /** A name that stands in the written part of a message is what `decompress` reads there. */
  lemma StandsDecodes(m: seq<byte>, m': seq<byte>, base: nat, p: nat, text: seq<byte>)
    requires m <= m' && Stands(m, base, Entry(p, LabelsOf(text)))
    ensures Decodes(m', base, p, text)
  {
    WalkExtend(m, m', base, p, p);
    NoRootPointerExtend(m, m', base, p, p);
    NoRootPointerIsSafe(m', base, p, p);
    ReadIsNameExactly(m', base, p, p);
    LabelsShown(text);
  }

  /** Some stored name ends with all of the labels `l`, so a name made of them is not stored again. */
  ghost predicate Covered(m: seq<byte>, base: nat, ptrs: seq<nat>, l: seq<Label>) {
    exists j :: 0 <= j < |ptrs| && SharedWith(m, base, ptrs, l, j) == |l|
  }

  lemma CoveredExtend(t: seq<byte>, t': seq<byte>, base: nat, ptrs: seq<nat>, ptrs': seq<nat>, l: seq<Label>)
    requires t <= t' && ptrs <= ptrs' && Table(t, base, ptrs) && Covered(t, base, ptrs, l)
    ensures Covered(t', base, ptrs', l)
  {
    var j :| 0 <= j < |ptrs| && SharedWith(t, base, ptrs, l, j) == |l|;
    WalkExtend(t, t', base, ptrs[j], ptrs[j]);
    assert ptrs'[j] == ptrs[j];
    hide Walk, CommonUpTo, Stored;
    assert SharedWith(t', base, ptrs', l, j) == |l|;
  }

  /** A stored name covers its own labels. */
  lemma CoversItself(m: seq<byte>, base: nat, ptrs: seq<nat>, j: nat, l: seq<Label>)
    requires j < |ptrs| && Name(m, base, ptrs[j]).labels == l
    ensures Covered(m, base, ptrs, l)
  {
    CommonIsLongest(l, l, |l|);
    hide Walk, CommonUpTo;
    assert SharedWith(m, base, ptrs, l, j) == |l|;
  }

  /** A covered name is shared as a whole. */
  lemma SharedWhole(t: seq<byte>, base: nat, ptrs: seq<nat>, s: seq<byte>, shared: nat, suffixLen: nat, off: nat)
    requires Chosen(t, base, Split(s), shared, suffixLen, off) && Longest(t, base, ptrs, Split(s), shared)
    requires Covered(t, base, ptrs, Split(s))
    ensures shared == |Split(s)| && suffixLen == |s|
  {
    SplitSpells(s);
    hide SplitFrom, Start, Stored;
  }

  /** A name that has been written is covered: by the name it was shared with, or by itself. */
  lemma NowCovered(t: seq<byte>, t': seq<byte>, base: nat, ptrs: seq<nat>, ptrs': seq<nat>, a: seq<Label>, shared: nat, dst: nat)
    requires t <= t' && Table(t, base, ptrs) && a != []
    requires shared <= |a| && Longest(t, base, ptrs, a, shared)
    requires ptrs' == ptrs + (if shared < |a| then [dst] else []) && Stands(t', base, Entry(dst, a))
    ensures Covered(t', base, ptrs', a)
  {
    hide Table, Walk, CommonUpTo;
    if shared < |a| {
      CoversItself(t', base, ptrs', |ptrs|, a);
    } else {
      CoveredExtend(t, t', base, ptrs, ptrs', a);
    }
  }

  /** There is room at `dst` for a name, and it is the first, or the first is at the base. */
  ghost predicate CanWrite(c: DnCompressor, dst: nat, text: seq<byte>)
    reads c, c.mem
  {
    && c.Valid() && c.Idle() && WellCut(text)
    && (Strip(text) == [] || |c.dnptrs| < 20 || Covered(c.Msg(), c.base, c.dnptrs, LabelsOf(text)))
    && c.used <= dst && dst + |text| + 2 <= c.mem.Length && dst + |text| + 2 <= c.base + POINTER_LIMIT
    && if c.dnptrs == [] then dst == c.base && Strip(text) != [] else c.dnptrs[0] == c.base
  }

  /** Once a name is prepared there is room for it. */
  lemma RoomOnceReady(c: DnCompressor, dst: nat, text: seq<byte>)
    requires c.Valid() && c.Prepared() && c.src == Strip(text) && c.suffixLen <= |c.src|
    requires Longest(c.Msg(), c.base, c.dnptrs, Split(c.src), c.shared)
    requires |c.dnptrs| < 20 || Covered(c.Msg(), c.base, c.dnptrs, Split(c.src))
    requires c.used <= dst && dst + |text| + 2 <= c.mem.Length && dst + |text| + 2 <= c.base + POINTER_LIMIT
    ensures c.Ready() && c.Room(dst) && c.SoundIn(c.Msg(), dst) && c.shared <= |Split(c.src)|
    ensures 0 < Needed(|c.src|, c.suffixLen) <= |text| + 2
    ensures Covered(c.Msg(), c.base, c.dnptrs, Split(c.src)) ==> c.shared == |Split(c.src)|
  {
    hide Split, Table, Stands, Covered, Longest, Shares;
    if Covered(c.Msg(), c.base, c.dnptrs, Split(c.src)) {
      SharedWhole(c.Msg(), c.base, c.dnptrs, c.src, c.shared, c.suffixLen, c.suffixOff);
    }
  }

  lemma CanPrepare(c: DnCompressor, dst: nat, text: seq<byte>)
    requires CanWrite(c, dst, text) && Strip(text) != []
    ensures NoEmpty(LabelsOf(text)) && LabelsOf(text) != [] && Table(c.Msg(), c.base, c.dnptrs)
    ensures dst <= c.mem.Length && |c.Msg()| <= dst && c.Msg() <= c.mem[..dst]
    ensures if c.dnptrs == [] then dst == c.base else c.dnptrs[0] == c.base
    ensures c.Shape() && (c.dnptrs != [] ==> c.base <= c.dnptrs[0])
    ensures ComesBack(c.mem[..], c.dnptrs, Split(Strip(text)), 0) && AllInReach(c.mem[..], c.dnptrs, Split(Strip(text)), 0)
    ensures c.suffixLen == 0
    ensures |Split(Strip(text))| <= 127 && Accepted(text) && c.Reset() && LabelsOf(text) == Split(Strip(text))
    ensures c.Valid() && c.lens != c.mem && c.used <= c.mem.Length
    ensures |c.dnptrs| < 20 || Covered(c.Msg(), c.base, c.dnptrs, Split(Strip(text)))
    ensures c.used <= dst && dst + |text| + 2 <= c.mem.Length && dst + |text| + 2 <= c.base + POINTER_LIMIT
  {
    LegalLabels(text);
    TableComesBack(c.Msg(), c.mem[..], c.base, c.dnptrs, Split(Strip(text)), 0);
    hide Split, ComesBack, AllInReach, Covered, Stands, WellCut, Stored;
  }

  /** Prepare a name that is to be written at `dst`. */
  method PrepareOne(c: DnCompressor, dst: nat, text: seq<byte>) returns (size: nat)
    requires CanWrite(c, dst, text) && Strip(text) != []
    modifies c`src, c`suffixLen, c`suffixOff, c`shared, c.lens
    ensures c.Valid() && c.src == Strip(text) && c.Ready() && c.Room(dst) && c.SoundIn(c.Msg(), dst)
    ensures Longest(c.Msg(), c.base, c.dnptrs, LabelsOf(text), c.shared) && c.shared <= |LabelsOf(text)|
    ensures 0 < size == Needed(|c.src|, c.suffixLen) <= |text| + 2
    ensures Covered(c.Msg(), c.base, c.dnptrs, LabelsOf(text)) ==> c.shared == |LabelsOf(text)|
  {
    hide *;
    CanPrepare(c, dst, text);
    ghost var best, met;
    var r;
    r, best, met := c.Prepare(text);
    RoomOnceReady(c, dst, text);
    size := r.value;
  }

  /** The name in the message makes it longer, and is covered. */
  lemma OnceWritten(c: DnCompressor, t: seq<byte>, ptrs: seq<nat>, a: seq<Label>, shared: nat, dst: nat)
    requires c.Valid() && c.src == [] && c.Reset() && t <= c.Msg() && Table(t, c.base, ptrs) && a != []
    requires shared <= |a| && Longest(t, c.base, ptrs, a, shared)
    requires c.dnptrs == ptrs + (if shared < |a| then [dst] else [])
    requires c.written != [] && c.written[|c.written| - 1] == Entry(dst, a)
    ensures c.Idle() && Covered(c.Msg(), c.base, c.dnptrs, a)
  {
    hide Table, Stands, Longest, Covered;
    assert Stands(c.Msg(), c.base, c.written[|c.written| - 1]);
    NowCovered(t, c.Msg(), c.base, ptrs, c.dnptrs, a, shared, dst);
  }

  /** Where the first stored name is once the name at `dst` may have been stored. */
  lemma FirstAtBase(m: seq<byte>, base: nat, ptrs: seq<nat>, a: seq<Label>, shared: nat, dst: nat)
    requires Longest(m, base, ptrs, a, shared) && a != []
    requires if ptrs == [] then dst == base else ptrs[0] == base
    ensures var ptrs' := ptrs + (if shared < |a| then [dst] else []); ptrs' != [] && ptrs'[0] == base
  {
    hide SharedWith;
  }

  /** A name with labels, once it is prepared. */
  method WriteLabels(c: DnCompressor, dst: nat, text: seq<byte>) returns (size: nat)
    requires CanWrite(c, dst, text) && Strip(text) != []
    modifies c, c.mem, c.lens
    ensures c.Valid() && c.Idle()
    ensures 0 < size <= |text| + 2 && c.used == dst + size
    ensures c.written == old(c.written) + [Entry(dst, LabelsOf(text))]
    ensures c.dnptrs != [] && c.dnptrs[0] == c.base
    ensures old(c.dnptrs) <= c.dnptrs && |c.dnptrs| <= |old(c.dnptrs)| + 1 && old(c.Msg()) <= c.Msg()
    ensures old(Covered(c.Msg(), c.base, c.dnptrs, LabelsOf(text))) ==> c.dnptrs == old(c.dnptrs)
    ensures Covered(c.Msg(), c.base, c.dnptrs, LabelsOf(text))
    ensures forall x :: 0 <= x < dst ==> c.mem[x] == old(c.mem[x])
  {
    hide *;
    CanPrepare(c, dst, text);
    ghost var t, ptrs, m := c.Msg(), c.dnptrs, c.mem[..dst];
    size := PrepareOne(c, dst, text);
    ghost var shared := c.shared;
    FirstAtBase(t, c.base, ptrs, LabelsOf(text), shared, dst);
    c.Compress(dst);
    Longer(c, t, m, dst);
    OnceWritten(c, t, ptrs, LabelsOf(text), shared, dst);
  }

  lemma Longer(c: DnCompressor, t: seq<byte>, m: seq<byte>, dst: nat)
    requires c.Shape() && |t| <= dst <= c.used && |m| == dst && t <= m
    requires forall x :: 0 <= x < dst ==> c.mem[x] == m[x]
    ensures t <= c.Msg()
  {}

  /** Prepare a name and write it at `dst`; `size` is how far to move on. */
  method WriteOne(c: DnCompressor, dst: nat, text: seq<byte>) returns (size: nat)
    requires CanWrite(c, dst, text)
    modifies c, c.mem, c.lens
    ensures c.Valid() && c.Idle()
    ensures 0 < size <= |text| + 2 && c.used == dst + size
    ensures c.written == old(c.written) + [Entry(dst, LabelsOf(text))]
    ensures c.dnptrs != [] && c.dnptrs[0] == c.base
    ensures old(c.dnptrs) <= c.dnptrs && |c.dnptrs| <= |old(c.dnptrs)| + 1 && old(c.Msg()) <= c.Msg()
    ensures Strip(text) == [] || old(Covered(c.Msg(), c.base, c.dnptrs, LabelsOf(text))) ==> c.dnptrs == old(c.dnptrs)
    ensures Strip(text) != [] ==> Covered(c.Msg(), c.base, c.dnptrs, LabelsOf(text))
    ensures forall x :: 0 <= x < dst ==> c.mem[x] == old(c.mem[x])
  {
    if Strip(text) != [] {
      hide *;
      size := WriteLabels(c, dst, text);
      return;
    }
    hide Split, Table, Stands, Covered, WellCut, Spelled, Compressed, Holds, Cut, Text, Walk, Strip;
    c.Compress(dst);
    size := 1;
  }

  /** Put record data behind a name. */
  method WriteData(c: DnCompressor, at: nat, d: seq<byte>)
    requires c.Valid() && c.used <= at && at + |d| <= c.mem.Length
    modifies c.mem
    ensures c.Valid() && c.Msg() == old(c.Msg())
    ensures forall x :: 0 <= x < |d| ==> c.mem[at + x] == d[x]
    ensures forall x :: 0 <= x < at ==> c.mem[x] == old(c.mem[x])
  {
    ghost var t := c.Msg();
    forall x | 0 <= x < |d| {
      c.mem[at + x] := d[x];
    }
    assert c.Msg() == t;
  }

  /** Write a name and the record data behind it. */
  method WriteRecord(c: DnCompressor, at: nat, text: seq<byte>, d: seq<byte>) returns (next: nat)
    requires CanWrite(c, at, text) && at + |text| + 2 + |d| <= c.mem.Length
    modifies c, c.mem, c.lens
    ensures c.Valid() && c.Idle()
    ensures at < next <= at + |text| + 2 + |d| && c.used <= next
    ensures c.written == old(c.written) + [Entry(at, LabelsOf(text))]
    ensures c.dnptrs != [] && c.dnptrs[0] == c.base
    ensures old(c.dnptrs) <= c.dnptrs && |c.dnptrs| <= |old(c.dnptrs)| + 1 && old(c.Msg()) <= c.Msg()
    ensures Strip(text) == [] || old(Covered(c.Msg(), c.base, c.dnptrs, LabelsOf(text))) ==> c.dnptrs == old(c.dnptrs)
    ensures Strip(text) != [] ==> Covered(c.Msg(), c.base, c.dnptrs, LabelsOf(text))
    ensures forall x :: 0 <= x < at ==> c.mem[x] == old(c.mem[x])
    ensures at + |d| <= next && forall x :: 0 <= x < |d| ==> c.mem[next - |d| + x] == d[x]
  {
    hide Table, Stands, WellCut, LabelsOf, Strip, Covered;
    var size := WriteOne(c, at, text);
    WriteData(c, at + size, d);
    next := at + size + |d|;
  }

  // ---- Which names take up a place in the table ----

  /** The name with labels `l` ends with the labels `a`. */
  predicate EndsWith(l: seq<Label>, a: seq<Label>) {
    Common(a, l) == |a|
  }

  /** Name `n` is the root, or an earlier name ends with it. */
  ghost predicate Known(texts: seq<seq<byte>>, n: nat)
    requires n < |texts|
  {
    Strip(texts[n]) == [] || exists j :: 0 <= j < n && EndsWith(LabelsOf(texts[j]), LabelsOf(texts[n]))
  }

  /** How many of the first `n` names are new. */
  ghost function NewNames(texts: seq<seq<byte>>, n: nat): nat
    requires n <= |texts|
  {
    if n == 0 then 0 else NewNames(texts, n - 1) + if Known(texts, n - 1) then 0 else 1
  }

  lemma {:induction false} NewNamesMonotone(texts: seq<seq<byte>>, j: nat, n: nat)
    requires j <= n <= |texts|
    ensures NewNames(texts, j) <= NewNames(texts, n)
    decreases n
  {
    hide Known;
    if j < n {
      NewNamesMonotone(texts, j, n - 1);
    }
  }

  /** A name one of whose ends is covered covers no less. */
  lemma EndsTwice(l: seq<Label>, a: seq<Label>, t: seq<Label>)
    requires EndsWith(l, a) && EndsWith(t, l)
    ensures EndsWith(t, a)
  {
    CommonIsLongest(a, l, |a|);
    CommonIsLongest(l, t, |l|);
    CommonIsLongest(a, t, |a|);
    hide Common;
    assert a[|a| - |a|..] == a && l[|l| - |l|..] == l;
    assert t[|t| - |a|..] == t[|t| - |l|..][|l| - |a|..];
  }

  lemma CoveredEnd(m: seq<byte>, base: nat, ptrs: seq<nat>, l: seq<Label>, a: seq<Label>)
    requires Covered(m, base, ptrs, l) && EndsWith(l, a)
    ensures Covered(m, base, ptrs, a)
  {
    var j :| 0 <= j < |ptrs| && SharedWith(m, base, ptrs, l, j) == |l|;
    EndsTwice(l, a, Name(m, base, ptrs[j]).labels);
    hide Walk, CommonUpTo, Common;
    assert SharedWith(m, base, ptrs, a, j) == |a|;
  }

  /** Each of the first `n` names is covered, and that takes no more places than there are new names. */
  ghost predicate AllCovered(m: seq<byte>, base: nat, ptrs: seq<nat>, texts: seq<seq<byte>>, n: nat)
    requires n <= |texts|
  {
    && |ptrs| <= NewNames(texts, n)
    && forall j :: 0 <= j < n && Strip(texts[j]) != [] ==> Covered(m, base, ptrs, LabelsOf(texts[j]))
  }

  /** A name that is known is covered. */
  lemma KnownIsCovered(m: seq<byte>, base: nat, ptrs: seq<nat>, texts: seq<seq<byte>>, n: nat)
    requires n < |texts| && AllCovered(m, base, ptrs, texts, n) && Known(texts, n) && Strip(texts[n]) != []
    requires LabelsOf(texts[n]) != []
    ensures Covered(m, base, ptrs, LabelsOf(texts[n]))
  {
    hide Covered, Common, NewNames, Split;
    var j :| 0 <= j < n && EndsWith(LabelsOf(texts[j]), LabelsOf(texts[n]));
    assert Strip(texts[j]) != [];
    CoveredEnd(m, base, ptrs, LabelsOf(texts[j]), LabelsOf(texts[n]));
  }

  /** A name that is known takes no place, a new one at most one. */
  lemma CoverOne(t: seq<byte>, t': seq<byte>, base: nat, ptrs: seq<nat>, ptrs': seq<nat>,
                 texts: seq<seq<byte>>, n: nat)
    requires n < |texts| && t <= t' && ptrs <= ptrs' && |ptrs'| <= |ptrs| + 1 && Table(t, base, ptrs)
    requires AllCovered(t, base, ptrs, texts, n) && (Strip(texts[n]) != [] ==> LabelsOf(texts[n]) != [])
    requires Strip(texts[n]) == [] || Covered(t, base, ptrs, LabelsOf(texts[n])) ==> ptrs' == ptrs
    requires Strip(texts[n]) != [] ==> Covered(t', base, ptrs', LabelsOf(texts[n]))
    ensures AllCovered(t', base, ptrs', texts, n + 1)
  {
    hide Table, Covered, LabelsOf, Strip, Known;
    forall j | 0 <= j < n && Strip(texts[j]) != [] ensures Covered(t', base, ptrs', LabelsOf(texts[j])) {
      CoveredExtend(t, t', base, ptrs, ptrs', LabelsOf(texts[j]));
    }
    if Known(texts, n) && Strip(texts[n]) != [] {
      KnownIsCovered(t, base, ptrs, texts, n);
    }
  }

  lemma NothingCovered(m: seq<byte>, base: nat, texts: seq<seq<byte>>)
    ensures AllCovered(m, base, [], texts, 0)
  {}

  /** As long as not more than twenty names are new, there is room for the next. */
  lemma RoomForOne(m: seq<byte>, base: nat, ptrs: seq<nat>, texts: seq<seq<byte>>, n: nat)
    requires n < |texts| && NewNames(texts, |texts|) <= 20 && AllCovered(m, base, ptrs, texts, n)
    requires Strip(texts[n]) != [] ==> LabelsOf(texts[n]) != []
    ensures |ptrs| <= 20
    ensures Strip(texts[n]) == [] || |ptrs| < 20 || Covered(m, base, ptrs, LabelsOf(texts[n]))
  {
    hide Strip, LabelsOf, Covered, Known;
    NewNamesMonotone(texts, n, |texts|);
    NewNamesMonotone(texts, n + 1, |texts|);
    if Known(texts, n) && Strip(texts[n]) != [] {
      KnownIsCovered(m, base, ptrs, texts, n);
    }
  }

  /** The octets names and record data may take up at most. */
  function Bound(texts: seq<seq<byte>>, data: seq<seq<byte>>, n: nat): nat
    requires n <= |texts| == |data|
  {
    if n == 0 then 0 else Bound(texts, data, n - 1) + |texts[n - 1]| + 2 + |data[n - 1]|
  }

  lemma {:induction false} BoundMonotone(texts: seq<seq<byte>>, data: seq<seq<byte>>, j: nat, n: nat)
    requires j <= n <= |texts| == |data|
    ensures Bound(texts, data, j) <= Bound(texts, data, n)
    decreases n
  {
    if j < n {
      BoundMonotone(texts, data, j, n - 1);
    }
  }

  /** The first `n` names stand in the message. */
  ghost predicate Entered(written: seq<Entry>, starts: seq<nat>, texts: seq<seq<byte>>, n: nat) {
    && |written| == |starts| == n <= |texts|
    && forall j :: 0 <= j < n ==> written[j] == Entry(starts[j], LabelsOf(texts[j]))
  }

  lemma EnterOne(written: seq<Entry>, starts: seq<nat>, texts: seq<seq<byte>>, n: nat, at: nat)
    requires n < |texts| && |written| == n + 1
    requires Entered(written[..n], starts, texts, n) && written[n] == Entry(at, LabelsOf(texts[n]))
    ensures Entered(written, starts + [at], texts, n + 1)
  {
    forall j | 0 <= j < n + 1 ensures written[j] == Entry((starts + [at])[j], LabelsOf(texts[j])) {
      if j < n {
        assert written[j] == written[..n][j];
      }
    }
  }

  /** Between any two calls, everything the compressor has written decodes in the message as it is now. */
  lemma AllDecode(c: DnCompressor, starts: seq<nat>, texts: seq<seq<byte>>, n: nat)
    requires c.Valid() && Entered(c.written, starts, texts, n)
    ensures forall j :: 0 <= j < n ==> Decodes(c.mem[..], c.base, starts[j], texts[j])
  {
    hide Stands, Table, Decodes, LabelsOf;
    forall j | 0 <= j < n ensures Decodes(c.mem[..], c.base, starts[j], texts[j]) {
      assert Stands(c.Msg(), c.base, c.written[j]);
      StandsDecodes(c.Msg(), c.mem[..], c.base, starts[j], texts[j]);
    }
  }

  /**
   * Write names, each followed by record data. Whatever the names share, each of
   * them decodes to its own text, and goes on doing so as later names are written.
   */
  method WriteNames(c: DnCompressor, texts: seq<seq<byte>>, data: seq<seq<byte>>) returns (starts: seq<nat>, end: nat)
    requires c.Valid() && c.Idle() && c.dnptrs == [] && c.written == [] && c.used == c.base
    requires 0 < |texts| == |data| && texts[0] != [46] && NewNames(texts, |texts|) <= 20
    requires forall j :: 0 <= j < |texts| ==> Legal(texts[j])
    requires c.base + Bound(texts, data, |texts|) <= c.mem.Length
    requires Bound(texts, data, |texts|) <= POINTER_LIMIT
    modifies c, c.mem, c.lens
    ensures c.Valid() && |starts| == |texts| && starts[0] == c.base
    ensures forall j :: 0 <= j < |texts| ==> c.base <= starts[j] < end <= c.mem.Length
    ensures forall j :: 0 <= j < |texts| ==> Decodes(c.mem[..], c.base, starts[j], texts[j])
    ensures forall x :: 0 <= x < c.base ==> c.mem[x] == old(c.mem[x])
  {
    hide Table, Stands, WellCut, LabelsOf, Strip, Decodes, Covered, AllCovered, NewNames, Legal;
    NothingCovered(c.Msg(), c.base, texts);
    LegalExactly(texts[0]);
    starts, end := [], c.base;
    var i := 0;
    while i < |texts|
      invariant 0 <= i == |starts| <= |texts| && c.Valid() && c.Idle() && Entered(c.written, starts, texts, i)
      invariant c.used <= end <= c.base + Bound(texts, data, i) && c.base <= end <= c.mem.Length
      invariant AllCovered(c.Msg(), c.base, c.dnptrs, texts, i)
      invariant (i > 0 ==> starts[0] == c.base && c.dnptrs != [] && c.dnptrs[0] == c.base)
      invariant i == 0 ==> end == c.base && c.dnptrs == []
      invariant forall j :: 0 <= j < i ==> c.base <= starts[j] < end
      invariant forall x :: 0 <= x < c.base ==> c.mem[x] == old(c.mem[x])
    {
      BoundMonotone(texts, data, i + 1, |texts|);
      LegalExactly(texts[i]);
      LegalHasLabels(texts[i]);
      RoomForOne(c.Msg(), c.base, c.dnptrs, texts, i);
      ghost var before, t, ptrs := c.written, c.Msg(), c.dnptrs;
      var next := WriteRecord(c, end, texts[i], data[i]);
      CoverOne(t, c.Msg(), c.base, ptrs, c.dnptrs, texts, i);
      assert c.written[..i] == before;
      EnterOne(c.written, starts, texts, i, end);
      starts, end, i := starts + [end], next, i + 1;
    }
    AllDecode(c, starts, texts, i);
  }

  // ---- Reading back ----

  /** Where a run closes does not depend on what is before it. */
  lemma {:induction false} RunEndFrom(m: seq<byte>, p: nat, q: nat)
    requires p + q <= |m| && RunEnd(m, p + q) < |m|
    ensures p <= RunEnd(m, p + q) && RunEnd(m[p..], q) == RunEnd(m, p + q) - p
    decreases |m| - q
  {
    if 0 < m[p + q] < 64 {
      RunEndMonotone(m, p + q + 1 + m[p + q]);
      RunEndFrom(m, p, q + 1 + m[p + q]);
    }
  }

  /** Skipping the name at `p`. */
  method Skip(mem: array<byte>, p: nat) returns (skipped: bool, size: nat)
    requires RunEnd(mem[..], p) < mem.Length && p + Extent(mem[..], p) <= mem.Length
    ensures skipped <==> mem[RunEnd(mem[..], p)] == 0 || mem[RunEnd(mem[..], p)] == 0xc0
    ensures size == if skipped then Extent(mem[..], p) else 0
  {
    ghost var m := mem[..];
    RunEndMonotone(m, p);
    RunEndFrom(m, p, 0);
    assert m[p..] == mem[p..];
    hide RunEnd;
    var rest;
    skipped, rest := SkipDn(mem[p..]);
    size := mem.Length - p - |rest|;
  }

  /** What can be read fits into the message where it stands. */
  lemma ReadFits(m: seq<byte>, base: nat, p: nat)
    requires Read(m, base, p, p).end != Wild
    ensures RunEnd(m, p) < |m| && p + Extent(m, p) <= |m|
  {
    ReadCloses(m, base, p, p);
    RunEndMonotone(m, p);
    hide Read, RunEnd;
  }

  /**
   * Both decompressors and `skip_dn` on anything that can be read: the two texts
   * are the same, so are the two verdicts, and all three agree on the number of
   * octets; `skip_dn` gives up on a pointer that does not begin with 0xc0. The text
   * is that of the name exactly when no later pointer leads to a zero octet.
   */
  method ReadThreeWays(mem: array<byte>, base: nat, p: nat)
    returns (dn: seq<byte>, r: Result<nat>, spanDn: seq<byte>, ok: bool, next: nat, skipped: bool, size: nat)
    requires Read(mem[..], base, p, p).end != Wild && |Ahead(Read(mem[..], base, p, p))| <= MAX_NAME
    ensures spanDn == dn && (ok <==> r.Ok?)
    ensures r.Ok? ==> next == p + r.value
    ensures r.Ok? && skipped ==> size == r.value
    ensures r == if Read(mem[..], base, p, p).end == Root then Ok(next - p) else Err(IllegalByteSequence)
    ensures RunEnd(mem[..], p) < mem.Length && next == p + Extent(mem[..], p)
    ensures skipped <==> mem[RunEnd(mem[..], p)] == 0 || mem[RunEnd(mem[..], p)] == 0xc0
    ensures size == if skipped then next - p else 0
    ensures Name(mem[..], base, p).end != Wild ==>
              (PointersSafe(mem[..], base, p, p) <==> dn == Text(Name(mem[..], base, p).labels))
    ensures Name(mem[..], base, p).end == Root && PointersSafe(mem[..], base, p, p) ==> ok
  {
    ghost var m := mem[..];
    if Name(m, base, p).end != Wild {
      ReadIsNameExactly(m, base, p, p);
    }
    ReadFits(m, base, p);
    hide Walk, Read, NoRootPointer, Text, PointersSafe, RunEnd, Extent;
    var d := new DnDecompressor(mem, base);
    r := d.DecompressAt(p);
    dn := d.Dn();
    ok, next := d.DecompressSpan(p, mem.Length - p);
    spanDn := d.Dn();
    skipped, size := Skip(mem, p);
  }

  lemma DecodesReadable(m: seq<byte>, base: nat, p: nat, text: seq<byte>)
    requires Decodes(m, base, p, text) && WellCut(text)
    ensures Read(m, base, p, p).end == Root && Ahead(Read(m, base, p, p)) == Shown(text) && |Shown(text)| <= MAX_NAME
  {}

  /** Decompress the names at `starts`. */
  method ReadNames(mem: array<byte>, base: nat, starts: seq<nat>, ghost texts: seq<seq<byte>>) returns (back: seq<seq<byte>>)
    requires |starts| == |texts|
    requires forall j :: 0 <= j < |texts| ==> WellCut(texts[j]) && Decodes(mem[..], base, starts[j], texts[j])
    ensures |back| == |starts| && forall j :: 0 <= j < |starts| ==> back[j] == Shown(texts[j])
  {
    hide WellCut, Decodes, Shown, Ahead, Read;
    ghost var m := mem[..];
    var d := new DnDecompressor(mem, base);
    back := [];
    while |back| < |starts|
      invariant |back| <= |starts| && d.Valid() && fresh(d) && fresh(d.buf)
      invariant mem[..] == m
      invariant forall j :: 0 <= j < |back| ==> back[j] == Shown(texts[j])
    {
      DecodesReadable(m, base, starts[|back|], texts[|back|]);
      var r := d.DecompressAt(starts[|back|]);
      back := back + [d.Dn()];
    }
  }

  /** Every name of a message comes back: the root as nothing, any other with a final dot whether it had one or not. */
  method RoundTrip(mem: array<byte>, base: nat, texts: seq<seq<byte>>, data: seq<seq<byte>>) returns (back: seq<seq<byte>>)
    requires 0 < |texts| == |data| && texts[0] != [46] && NewNames(texts, |texts|) <= 20
    requires forall j :: 0 <= j < |texts| ==> Legal(texts[j])
    requires base + Bound(texts, data, |texts|) <= mem.Length && Bound(texts, data, |texts|) <= POINTER_LIMIT
    modifies mem
    ensures |back| == |texts|
    ensures forall j :: 0 <= j < |texts| ==>
              texts[j] != [] && back[j] == if texts[j] == [46] then []
                                           else if texts[j][|texts[j]| - 1] == 46 then texts[j]
                                           else texts[j] + [46]
  {
    var c := new DnCompressor(mem, base);
    var starts, end := WriteNames(c, texts, data);
    forall j | 0 <= j < |texts| ensures texts[j] != [] && WellCut(texts[j]) {
      LegalExactly(texts[j]);
    }
    hide WellCut, Legal, Decodes;
    back := ReadNames(mem, base, starts, texts);
  }
}
