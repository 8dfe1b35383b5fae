/** Presentation form of a domain name: labels separated by dots. */
module DnsText {
  import opened Basics
  import opened DnsWire

  /** The first dot at or after `i`, or the end of the text. */
  function FindDot(s: seq<byte>, i: nat): (e: nat)
    requires i <= |s|
    ensures i <= e <= |s|
    ensures e < |s| ==> s[e] == DOT
    ensures forall x :: i <= x < e ==> s[x] != DOT
    decreases |s| - i
  {
    if i == |s| || s[i] == DOT then i else FindDot(s, i + 1)
  }

  /** The labels of the text from `i` on; adjacent or final dots give empty labels. */
  function SplitFrom(s: seq<byte>, i: nat): seq<Label>
    requires i <= |s|
    decreases |s| - i
  {
    var e := FindDot(s, i);
    if e == |s| then [s[i..e]] else [s[i..e]] + SplitFrom(s, e + 1)
  }

  function Split(s: seq<byte>): seq<Label> {
    SplitFrom(s, 0)
  }

  /** Where label `k` starts in the text, counting one dot after every label before it. */
  function Start(labels: seq<Label>, k: nat): nat
    requires k <= |labels|
  {
    if k == 0 then 0 else Start(labels, k - 1) + |labels[k - 1]| + 1
  }

  lemma {:induction false} StartShift(labels: seq<Label>, k: nat)
    requires 0 < k <= |labels|
    ensures Start(labels, k) == |labels[0]| + 1 + Start(labels[1..], k - 1)
  {
    if k > 1 {
      StartShift(labels, k - 1);
    }
  }

  lemma {:induction false} StartMonotone(labels: seq<Label>, j: nat, k: nat)
    requires j <= k <= |labels|
    ensures Start(labels, j) + (k - j) <= Start(labels, k)
    ensures forall i :: j <= i < k ==> Start(labels, j) + |labels[i]| + (k - j) <= Start(labels, k)
    decreases k
  {
    if j < k {
      StartMonotone(labels, j, k - 1);
    }
  }

  lemma {:induction false} SplitLength(s: seq<byte>, i: nat)
    requires i <= |s|
    ensures var a := SplitFrom(s, i); i + Start(a, |a|) == |s| + 1
    decreases |s| - i
  {
    var a, e := SplitFrom(s, i), FindDot(s, i);
    if e < |s| {
      assert a[1..] == SplitFrom(s, e + 1);
      SplitLength(s, e + 1);
      StartShift(a, |a|);
    }
  }

  /** The labels lie in the text at their starts, a dot before each but the first. */
  lemma {:induction false} SplitShape(s: seq<byte>, i: nat, k: nat, at: nat)
    requires i <= |s|
    requires k < |SplitFrom(s, i)| && at == i + Start(SplitFrom(s, i), k)
    ensures Holds(s, at, SplitFrom(s, i)[k])
    ensures k > 0 ==> 0 < at && s[at - 1] == DOT
    decreases |s| - i
  {
    if k > 0 {
      var a, e := SplitFrom(s, i), FindDot(s, i);
      assert a[1..] == SplitFrom(s, e + 1) && a[k] == SplitFrom(s, e + 1)[k - 1];
      StartShift(a, k);
      hide SplitFrom, Start;
      SplitShape(s, e + 1, k - 1, at);
    }
  }

  /** Label `k` lies in the text at its start, after a dot unless it is the first. */
  ghost predicate Placed(s: seq<byte>, a: seq<Label>, k: nat)
    requires k < |a|
  {
    && Holds(s, Start(a, k), a[k])
    && (k > 0 ==> 0 < Start(a, k) && s[Start(a, k) - 1] == DOT)
  }

  /** The text `s` is made of the labels `a`, with a dot between neighbours. */
  ghost predicate Spells(s: seq<byte>, a: seq<Label>) {
    && a != []
    && Start(a, |a|) == |s| + 1
    && forall k :: 0 <= k < |a| ==> Placed(s, a, k)
  }

  lemma SplitSpells(s: seq<byte>)
    ensures Spells(s, Split(s))
  {
    SplitLength(s, 0);
    forall k | 0 <= k < |Split(s)| ensures Placed(s, Split(s), k) {
      SplitShape(s, 0, k, Start(Split(s), k));
    }
  }

  /** The first label from `i` on, and the others. */
  lemma SplitStep(s: seq<byte>, i: nat, a: seq<Label>, k: nat)
    requires i <= |s| && k <= |a| && SplitFrom(s, i) == a[k..]
    ensures k < |a| && a[k] == s[i..FindDot(s, i)]
    ensures FindDot(s, i) == |s| ==> |a| == k + 1
    ensures FindDot(s, i) < |s| ==> SplitFrom(s, FindDot(s, i) + 1) == a[k + 1..] && k + 1 < |a|
  {
    var e := FindDot(s, i);
    assert a[k] == a[k..][0] && a[k + 1..] == a[k..][1..];
    if e < |s| {
      var rest := SplitFrom(s, e + 1);
      assert rest != [];
      hide SplitFrom;
    }
  }

  /** Splitting loses nothing: the labels written out are the text and a final dot. */
  lemma {:induction false} SplitText(s: seq<byte>, i: nat)
    requires i <= |s|
    ensures Text(SplitFrom(s, i)) == s[i..] + [DOT]
    decreases |s| - i
  {
    var e := FindDot(s, i);
    if e == |s| {
      assert SplitFrom(s, i)[1..] == [];
      assert s[i..e] == s[i..];
    } else {
      SplitText(s, e + 1);
      assert SplitFrom(s, i)[1..] == SplitFrom(s, e + 1);
      assert s[i..] == s[i..e] + [DOT] + s[e + 1..];
    }
  }

  /** Labels with a dot between neighbours. */
  function Dotted(labels: seq<Label>): seq<byte> {
    if labels == [] then [] else if |labels| == 1 then labels[0] else labels[0] + [DOT] + Dotted(labels[1..])
  }

  lemma {:induction false} FindDotIs(s: seq<byte>, i: nat, e: nat)
    requires i <= e <= |s| && (e < |s| ==> s[e] == DOT)
    requires forall x :: i <= x < e ==> s[x] != DOT
    ensures FindDot(s, i) == e
    decreases e - i
  {
    if i < e {
      FindDotIs(s, i + 1, e);
    }
  }

  lemma SplitOnce(s: seq<byte>, i: nat)
    requires i <= |s|
    ensures var e := FindDot(s, i);
            && e <= |s| && (e < |s| ==> s[e] == 46) && 46 !in s[i..e]
            && SplitFrom(s, i) == if e == |s| then [s[i..]] else [s[i..e]] + SplitFrom(s, e + 1)
  {
    var e := FindDot(s, i);
    assert e == |s| ==> s[i..e] == s[i..];
    forall x | 0 <= x < e - i ensures s[i..e][x] != 46 {
      assert s[i..e][x] == s[x + i];
    }
  }

  lemma DottedOnce(first: Label, rest: seq<Label>)
    requires rest != []
    ensures Dotted([first] + rest) == first + ([46] + Dotted(rest))
  {
    assert ([first] + rest)[1..] == rest;
    assert first + [46] + Dotted(rest) == first + ([46] + Dotted(rest));
  }

  lemma OneDotted(first: Label)
    ensures Dotted([first]) == first
  {}

  /** No label holds a dot. */
  predicate Dotless(labels: seq<Label>) {
    forall k :: 0 <= k < |labels| ==> 46 !in labels[k]
  }

  lemma DotlessOnce(first: Label, rest: seq<Label>)
    requires 46 !in first && Dotless(rest)
    ensures Dotless([first] + rest)
  {}

  lemma CutAround(s: seq<byte>, i: nat, e: nat)
    requires i <= e < |s| && s[e] == 46
    ensures s[i..] == s[i..e] + ([46] + s[e + 1..])
  {}

  /** Every text is its labels with a dot between neighbours, and no label holds a dot. */
  lemma {:induction false} SplitIsDotted(s: seq<byte>, i: nat)
    requires i <= |s|
    ensures Dotted(SplitFrom(s, i)) == s[i..] && SplitFrom(s, i) != [] && Dotless(SplitFrom(s, i))
    decreases |s| - i
  {
    var e := FindDot(s, i);
    SplitOnce(s, i);
    if e == |s| {
      assert s[i..e] == s[i..];
      OneDotted(s[i..]);
      return;
    }
    hide *;
    SplitIsDotted(s, e + 1);
    DottedOnce(s[i..e], SplitFrom(s, e + 1));
    DotlessOnce(s[i..e], SplitFrom(s, e + 1));
    CutAround(s, i, e);
  }

  lemma FirstDotted(s: seq<byte>, i: nat, l: Label, rest: seq<byte>)
    requires i <= |s| && DOT !in l && (s[i..] == l || s[i..] == l + [DOT] + rest)
    ensures var e := i + |l|;
            && FindDot(s, i) == e <= |s| && s[i..e] == l
            && (s[i..] == l ==> e == |s|)
            && (s[i..] != l ==> e < |s| && s[e + 1..] == rest)
  {
    var t, e := s[i..], i + |l|;
    assert t[..|l|] == l;
    forall x | i <= x < e ensures s[x] != DOT {
      assert s[x] == t[x - i] == l[x - i];
    }
    if t != l {
      assert s[e] == t[|l|] == DOT;
      assert s[e + 1..] == t[|l| + 1..];
    }
    FindDotIs(s, i, e);
  }

  lemma CutFirst(s: seq<byte>, i: nat, first: Label, rest: seq<Label>)
    requires i <= |s| && 46 !in first && rest != [] && s[i..] == Dotted([first] + rest)
    ensures var e := i + |first|; FindDot(s, i) == e < |s| && s[i..e] == first && s[e + 1..] == Dotted(rest)
  {
    DottedOnce(first, rest);
    hide Dotted, FindDot;
    assert first + ([46] + Dotted(rest)) == first + [46] + Dotted(rest);
    FirstDotted(s, i, first, Dotted(rest));
  }

  /** Labels without dots are what their text is cut into. */
  lemma {:induction false} SplitDotted(s: seq<byte>, i: nat, labels: seq<Label>)
    requires i <= |s| && labels != [] && s[i..] == Dotted(labels) && Dotless(labels)
    ensures SplitFrom(s, i) == labels
    decreases labels
  {
    hide Dotted, FindDot, SplitFrom;
    SplitOnce(s, i);
    assert 46 !in labels[0];
    if |labels| == 1 {
      assert labels == [labels[0]];
      OneDotted(labels[0]);
      FirstDotted(s, i, labels[0], []);
    } else {
      assert labels == [labels[0]] + labels[1..];
      CutFirst(s, i, labels[0], labels[1..]);
      SplitDotted(s, i + |labels[0]| + 1, labels[1..]);
    }
  }

  lemma LastOfBoth(a: seq<byte>, b: seq<byte>)
    requires b != []
    ensures (a + b)[|a + b| - 1] == b[|b| - 1]
  {}

  lemma {:induction false} LastOctet(labels: seq<Label>)
    requires labels != [] && NoEmpty(labels)
    ensures var s, l := Dotted(labels), labels[|labels| - 1]; s != [] && l != [] && s[|s| - 1] == l[|l| - 1]
  {
    assert labels[|labels| - 1] != [];
    if |labels| > 1 {
      LastOctet(labels[1..]);
      LastOfBoth(labels[0] + [DOT], Dotted(labels[1..]));
    }
  }

  /** The wire form of the first `k` labels, built from the front. */
  function WireUpTo(labels: seq<Label>, k: nat): seq<byte>
    requires Short(labels) && k <= |labels|
  {
    if k == 0 then [] else WireUpTo(labels, k - 1) + ([|labels[k - 1]| as byte] + labels[k - 1])
  }

  lemma {:induction false} WireUpToIsWire(labels: seq<Label>, k: nat)
    requires Short(labels) && k <= |labels|
    ensures WireUpTo(labels, k) == Wire(labels[..k])
    ensures |WireUpTo(labels, k)| == Start(labels, k)
  {
    if k > 0 {
      WireUpToIsWire(labels, k - 1);
      WireConcat(labels[..k - 1], [labels[k - 1]]);
      assert labels[..k] == labels[..k - 1] + [labels[k - 1]];
      assert Wire([labels[k - 1]]) == [|labels[k - 1]| as byte] + labels[k - 1] + Wire([labels[k - 1]][1..]);
      assert Wire([labels[k - 1]][1..]) == [];
    }
  }

  /** In wire form a length stands where each label starts, and the text elsewhere is moved by one. */
  lemma {:induction false} WireOctets(s: seq<byte>, a: seq<Label>, k: nat, j: nat)
    requires Spells(s, a) && Short(a) && j < k <= |a|
    ensures |WireUpTo(a, k)| == Start(a, k) <= |s| + 1
    ensures Start(a, j) < Start(a, j + 1) <= Start(a, k)
    ensures WireUpTo(a, k)[Start(a, j)] == |a[j]|
    ensures forall p {:trigger WireUpTo(a, k)[p]} :: Start(a, j) < p < Start(a, j + 1) ==> WireUpTo(a, k)[p] == s[p - 1]
    decreases k
  {
    WireUpToIsWire(a, k);
    WireUpToIsWire(a, k - 1);
    StartMonotone(a, j + 1, k);
    StartMonotone(a, k, |a|);
    if j < k - 1 {
      WireOctets(s, a, k - 1, j);
    } else {
      assert Placed(s, a, j);
      var i := Start(a, j);
      forall p | i < p < i + |a[j]| + 1 ensures WireUpTo(a, k)[p] == s[p - 1] {
        assert s[i..i + |a[j]|][p - 1 - i] == a[j][p - 1 - i];
      }
    }
  }

  // ---- Common suffixes of label sequences ----

  /** How many labels the first `n` of `a` and the first `o` of `b` share at their ends. */
  function CommonUpTo(a: seq<Label>, n: nat, b: seq<Label>, o: nat): (c: nat)
    requires n <= |a| && o <= |b|
    ensures c <= n && c <= o
  {
    if n == 0 || o == 0 || a[n - 1] != b[o - 1] then 0 else 1 + CommonUpTo(a, n - 1, b, o - 1)
  }

  /** How many labels `a` and `b` share at their ends. */
  function Common(a: seq<Label>, b: seq<Label>): (c: nat)
    ensures c <= |a| && c <= |b|
  {
    CommonUpTo(a, |a|, b, |b|)
  }

  lemma {:induction false} CommonUpToIsLongest(a: seq<Label>, n: nat, b: seq<Label>, o: nat, d: nat)
    requires d <= n <= |a| && d <= o <= |b|
    ensures a[n - d..n] == b[o - d..o] <==> d <= CommonUpTo(a, n, b, o)
  {
    if d > 0 {
      var x, y := a[n - d..n], b[o - d..o];
      if a[n - 1] == b[o - 1] {
        CommonUpToIsLongest(a, n - 1, b, o - 1, d - 1);
        assert x == a[n - d..n - 1] + [a[n - 1]];
        assert y == b[o - d..o - 1] + [b[o - 1]];
        assert x[..d - 1] == a[n - d..n - 1] && y[..d - 1] == b[o - d..o - 1];
      } else {
        assert x[d - 1] != y[d - 1];
      }
    }
  }

  /** `Common` counts a shared suffix, and there is no longer one. */
  lemma CommonIsLongest(a: seq<Label>, b: seq<Label>, d: nat)
    requires d <= |a| && d <= |b|
    ensures a[|a| - d..] == b[|b| - d..] <==> d <= Common(a, b)
  {
    CommonUpToIsLongest(a, |a|, b, |b|, d);
    assert a[|a| - d..|a|] == a[|a| - d..] && b[|b| - d..|b|] == b[|b| - d..];
  }

  /** The octets of text taken up by the last `c` labels and the dot before them. */
  function SuffixLen(labels: seq<Label>, c: nat): nat
    requires c <= |labels|
  {
    var total := Start(labels, |labels|);
    if c == 0 || labels == [] then 0
    else if c == |labels| then total - 1
    else StartMonotone(labels, |labels| - c, |labels|); total - Start(labels, |labels| - c)
  }

  lemma SuffixLenStep(labels: seq<Label>, c: nat)
    requires c < |labels|
    ensures SuffixLen(labels, c + 1)
         == SuffixLen(labels, c) + |labels[|labels| - c - 1]| + (if c + 1 < |labels| then 1 else 0)
  {
    StartMonotone(labels, |labels| - c, |labels|);
  }

  /** Sharing one more non-empty label makes the shared text strictly longer. */
  lemma SuffixLenGrows(labels: seq<Label>, c: nat, d: nat)
    requires c < d <= |labels|
    requires labels[|labels| - d] != []
    ensures SuffixLen(labels, c) < SuffixLen(labels, d)
  {
    var n := |labels|;
    StartMonotone(labels, n - d + 1, n - c);
    StartMonotone(labels, n - c, n);
    StartMonotone(labels, n - d, n);
  }
}
