/**
 * The head of a response: `SmallHeaderMap`, the two ways of rendering the head, and
 * `ResponseBuilder::sendto`.
 */
module Response {
  import opened Basics
  import opened Sendv

  type Text = seq<byte>

  const INLINE_CAPACITY := 8
  const KEY_SIZE := 40
  const VALUE_SIZE := 64
  const SERVER: Text := [83, 101, 114, 118, 101, 114]
  const CRLF: Text := [13, 10]
  const SP: Text := [32]
  const SEP: Text := [58, 32]
  const HEAD_BUFFER := 1024

  datatype Entry = Entry(key: Text, value: Text)

  // ---- Headers ----

  /** Small enough for an inline slot. */
  predicate Small(e: Entry) {
    |e.key| <= KEY_SIZE && |e.value| <= VALUE_SIZE
  }

  /** The first small entries, as many as there are slots. */
  function Inline(log: seq<Entry>): (s: seq<Entry>)
    ensures |s| <= INLINE_CAPACITY
  {
    if log == [] then []
    else
      var s, e := Inline(log[..|log| - 1]), log[|log| - 1];
      if |s| < INLINE_CAPACITY && Small(e) then s + [e] else s
  }

  /** All the others. */
  function Spilled(log: seq<Entry>): seq<Entry> {
    if log == [] then []
    else
      var e := log[|log| - 1];
      if |Inline(log[..|log| - 1])| < INLINE_CAPACITY && Small(e) then Spilled(log[..|log| - 1])
      else Spilled(log[..|log| - 1]) + [e]
  }

  predicate Has(log: seq<Entry>, key: Text) {
    exists i :: 0 <= i < |log| && log[i].key == key
  }

  /** No key twice. */
  predicate Distinct(log: seq<Entry>) {
    forall i, j :: 0 <= i < j < |log| ==> log[i].key != log[j].key
  }

  /** The entries a history of insertions leaves: for every key the first. */
  function Kept(history: seq<Entry>): seq<Entry> {
    if history == [] then []
    else
      var log, e := Kept(history[..|history| - 1]), history[|history| - 1];
      if Has(log, e.key) then log else log + [e]
  }

  /** The header slots and the overflow are what is kept, each in the order it came. */
  lemma {:induction false} KeptIsAll(log: seq<Entry>, e: Entry)
    ensures e in log <==> e in Inline(log) + Spilled(log)
    ensures |Inline(log) + Spilled(log)| == |log|
  {
    if log != [] {
      var before := log[..|log| - 1];
      KeptIsAll(before, e);
      assert log == before + [log[|log| - 1]];
      assert e in log <==> e in before || e == log[|log| - 1];
    }
  }

  lemma HasInParts(log: seq<Entry>, key: Text)
    ensures Has(log, key) <==> Has(Inline(log), key) || Has(Spilled(log), key)
  {
    if Has(log, key) {
      var i :| 0 <= i < |log| && log[i].key == key;
      KeptIsAll(log, log[i]);
    }
    if Has(Inline(log), key) {
      var i :| 0 <= i < |Inline(log)| && Inline(log)[i].key == key;
      KeptIsAll(log, Inline(log)[i]);
    }
    if Has(Spilled(log), key) {
      var i :| 0 <= i < |Spilled(log)| && Spilled(log)[i].key == key;
      KeptIsAll(log, Spilled(log)[i]);
    }
  }

  /** Every key inserted is kept, once. */
  lemma {:induction false} KeptKeys(history: seq<Entry>, key: Text)
    ensures Has(Kept(history), key) <==> Has(history, key)
    ensures Distinct(Kept(history))
  {
    if history != [] {
      var before, last := history[..|history| - 1], history[|history| - 1];
      KeptKeys(before, key);
      assert history == before + [last];
      PartsHave(before, [last], key);
      PartsHave(Kept(before), [last], key);
      PartsHave(Kept(before), [last], last.key);
      assert Has([last], key) <==> last.key == key by { assert [last][0] == last; }
    }
  }

  /** `e` is the first insertion with its key. */
  ghost predicate IsFirst(history: seq<Entry>, e: Entry) {
    exists i :: 0 <= i < |history| && history[i] == e && !Has(history[..i], e.key)
  }

  /** First wins: what is kept for a key is the first entry inserted with it, and only that. */
  lemma {:induction false} KeptIsFirst(history: seq<Entry>, e: Entry)
    ensures e in Kept(history) <==> IsFirst(history, e)
  {
    if history != [] {
      var n := |history| - 1;
      var before, last := history[..n], history[n];
      KeptIsFirst(before, e);
      KeptKeys(before, last.key);
      forall i | 0 <= i <= n ensures history[..n][..i] == history[..i] {}
      if IsFirst(before, e) {
        var i :| 0 <= i < n && before[i] == e && !Has(before[..i], e.key);
        assert history[i] == e && !Has(history[..i], e.key);
      }
      if IsFirst(history, e) {
        var i :| 0 <= i < |history| && history[i] == e && !Has(history[..i], e.key);
        if i < n {
          assert before[i] == e && !Has(before[..i], e.key);
        }
      }
      if last == e && !Has(before, e.key) {
        assert history[n] == e && !Has(history[..n], e.key);
      }
    }
  }

  lemma KeptStep(history: seq<Entry>, e: Entry)
    ensures Kept(history + [e]) == if Has(history, e.key) then Kept(history) else Kept(history) + [e]
  {
    KeptKeys(history, e.key);
    assert (history + [e])[..|history|] == history;
  }

  lemma PartsStep(log: seq<Entry>, e: Entry)
    ensures Inline(log + [e]) == if |Inline(log)| < INLINE_CAPACITY && Small(e) then Inline(log) + [e] else Inline(log)
    ensures Spilled(log + [e]) == if |Inline(log)| < INLINE_CAPACITY && Small(e) then Spilled(log) else Spilled(log) + [e]
  {
    assert (log + [e])[..|log|] == log;
  }

  /** How many of the first `i` entries have a key of at most 40 and a value of at most 64 octets. */
  function Fitting(log: seq<Entry>, i: nat): (n: nat)
    requires i <= |log|
    ensures n <= i
  {
    if i == 0 then 0
    else Fitting(log, i - 1) + if |log[i - 1].key| <= 40 && |log[i - 1].value| <= 64 then 1 else 0
  }

  function AtMostEight(n: nat): nat {
    if n < 8 then n else 8
  }

  /** Where entry `i` comes when all are listed: the first eight that fit come first, each in its turn, and then the others. */
  function Place(log: seq<Entry>, i: nat): nat
    requires i < |log|
  {
    var before := Fitting(log, i);
    if Fitting(log, i + 1) > before && before < 8 then before
    else AtMostEight(Fitting(log, |log|)) + (i - AtMostEight(before))
  }

  lemma {:induction false} PartsSizes(log: seq<Entry>, i: nat)
    requires i <= |log|
    ensures |Inline(log[..i])| == AtMostEight(Fitting(log, i))
    ensures |Spilled(log[..i])| == i - AtMostEight(Fitting(log, i))
  {
    if i > 0 {
      PartsSizes(log, i - 1);
      PartsStep(log[..i - 1], log[i - 1]);
      assert log[..i - 1] + [log[i - 1]] == log[..i];
    }
  }

  lemma {:induction false} PartsGrow(log: seq<Entry>, i: nat, j: nat)
    requires i <= j <= |log|
    ensures Inline(log[..i]) <= Inline(log[..j]) && Spilled(log[..i]) <= Spilled(log[..j])
  {
    if i < j {
      PartsGrow(log, i, j - 1);
      PartsStep(log[..j - 1], log[j - 1]);
      assert log[..j - 1] + [log[j - 1]] == log[..j];
    }
  }

  lemma EntryAdded(before: seq<Entry>, e: Entry, log: seq<Entry>, fitting: nat)
    requires Inline(before + [e]) <= Inline(log) && Spilled(before + [e]) <= Spilled(log)
    requires |Inline(before)| == AtMostEight(fitting)
    ensures if |e.key| <= 40 && |e.value| <= 64 && fitting < 8
            then Inline(before) + [e] <= Inline(log) else Spilled(before) + [e] <= Spilled(log)
  {
    PartsStep(before, e);
    hide Inline, Spilled;
  }

  /** What entry `i` adds to the slots or to the overflow. */
  lemma EntryAdds(log: seq<Entry>, i: nat)
    requires i < |log|
    ensures if |log[i].key| <= 40 && |log[i].value| <= 64 && Fitting(log, i) < 8
            then Inline(log[..i]) + [log[i]] <= Inline(log) else Spilled(log[..i]) + [log[i]] <= Spilled(log)
  {
    hide *;
    PartsSizes(log, i);
    PartsGrow(log, i + 1, |log|);
    assert log[..i] + [log[i]] == log[..i + 1] && log[..|log|] == log;
    EntryAdded(log[..i], log[i], log, Fitting(log, i));
  }

  lemma LastOfPrefix(a: seq<Entry>, e: Entry, whole: seq<Entry>)
    requires a + [e] <= whole
    ensures |a| < |whole| && whole[|a|] == e
  {
    assert (a + [e])[|a|] == e;
  }

  /** Every entry is listed at its place. */
  lemma PlacedExactly(log: seq<Entry>, i: nat)
    requires i < |log|
    ensures var all := Inline(log) + Spilled(log);
            |all| == |log| && Place(log, i) < |all| && all[Place(log, i)] == log[i]
  {
    PartsSizes(log, i);
    PartsSizes(log, |log|);
    EntryAdds(log, i);
    assert log[..|log|] == log;
    hide Inline, Spilled;
    if |log[i].key| <= 40 && |log[i].value| <= 64 && Fitting(log, i) < 8 {
      LastOfPrefix(Inline(log[..i]), log[i], Inline(log));
    } else {
      LastOfPrefix(Spilled(log[..i]), log[i], Spilled(log));
    }
  }

  /** What is kept was inserted in that order. */
  lemma {:induction false} KeptInOrder(history: seq<Entry>, a: nat, b: nat) returns (i: nat, j: nat)
    requires a < b < |Kept(history)|
    ensures i < j < |history| && Kept(history)[a] == history[i] && Kept(history)[b] == history[j]
    ensures !Has(history[..i], history[i].key) && !Has(history[..j], history[j].key)
  {
    var n := |history| - 1;
    var before := history[..n];
    forall x | 0 <= x <= n ensures before[..x] == history[..x] {}
    if b < |Kept(before)| {
      i, j := KeptInOrder(before, a, b);
    } else {
      KeptKeys(before, history[n].key);
      KeptIsFirst(before, Kept(before)[a]);
      hide Kept, Has;
      i :| 0 <= i < n && before[i] == Kept(before)[a] && !Has(before[..i], before[i].key);
      j := n;
    }
  }

  /** `SmallHeaderMap`: inline slots and an overflow list. */
  class SmallHeaderMap {
    const slots: array<Entry>
    var count: nat
    var overflow: seq<Entry>
    /** Every insertion so far, those that found the key taken too. */
    ghost var history: seq<Entry>

    ghost predicate Valid()
      reads this, slots
    {
      && slots.Length == INLINE_CAPACITY && count <= slots.Length
      && slots[..count] == Inline(Kept(history)) && overflow == Spilled(Kept(history))
    }

    /** The entries in the order they are rendered: inline slots first. */
    ghost function Contents(): seq<Entry>
      reads this, slots
      requires count <= slots.Length
    {
      slots[..count] + overflow
    }

    constructor ()
      ensures Valid() && history == [] && fresh(slots)
    {
      slots := new Entry[INLINE_CAPACITY](_ => Entry([], []));
      count, overflow, history := 0, [], [];
    }

    method Contains(key: Text) returns (found: bool)
      requires Valid()
      ensures found <==> Has(history, key)
      ensures found <==> Has(Contents(), key)
    {
      hide Kept, Inline, Spilled, Distinct;
      ghost var log := Kept(history);
      HasInParts(log, key);
      KeptKeys(history, key);
      PartsHave(slots[..count], overflow, key);
      var i := 0;
      while i < count
        invariant 0 <= i <= count
        invariant forall j :: 0 <= j < i ==> slots[j].key != key
      {
        if slots[i].key == key {
          assert slots[..count][i].key == key;
          return true;
        }
        i := i + 1;
      }
      assert !Has(slots[..count], key);
      i := 0;
      while i < |overflow|
        invariant 0 <= i <= |overflow|
        invariant forall j :: 0 <= j < i ==> overflow[j].key != key
      {
        if overflow[i].key == key {
          return true;
        }
        i := i + 1;
      }
      found := false;
    }

    /** Insert, unless the key is there. */
    method Emplace(key: Text, value: Text) returns (inserted: bool)
      requires Valid()
      modifies this, slots
      ensures Valid() && history == old(history) + [Entry(key, value)]
      ensures inserted <==> !Has(old(history), key)
    {
      hide Kept, Inline, Spilled, Has, Distinct;
      var e := Entry(key, value);
      var present := Contains(key);
      KeptStep(history, e);
      PartsStep(Kept(history), e);
      history := history + [e];
      if present {
        return false;
      }
      if count < INLINE_CAPACITY && |key| <= KEY_SIZE && |value| <= VALUE_SIZE {
        ghost var before := slots[..count];
        slots[count] := e;
        assert slots[..count + 1] == before + [e];
        count := count + 1;
      } else {
        overflow := overflow + [e];
      }
      inserted := true;
    }

    /** The order of the entries: each of those kept has its place, and there are no others. */
    lemma InOrder(i: nat)
      requires Valid() && i < |Kept(history)|
      ensures |Contents()| == |Kept(history)|
      ensures var place := Place(Kept(history), i);
              place < |Contents()| && Contents()[place] == Kept(history)[i]
    {
      PlacedExactly(Kept(history), i);
    }

    /** Number of entries. */
    method Size() returns (n: nat)
      requires Valid()
      ensures n == |Contents()|
    {
      n := count + |overflow|;
    }

    method EntryAt(index: nat) returns (e: Entry)
      requires Valid() && index < |Contents()|
      ensures e == Contents()[index]
    {
      e := if index < count then slots[index] else overflow[index - count];
    }
  }

  lemma PartsHave(a: seq<Entry>, b: seq<Entry>, key: Text)
    ensures Has(a + b, key) <==> Has(a, key) || Has(b, key)
  {
    if Has(a, key) {
      var i :| 0 <= i < |a| && a[i].key == key;
      assert (a + b)[i].key == key;
    }
    if Has(b, key) {
      var i :| 0 <= i < |b| && b[i].key == key;
      assert (a + b)[|a| + i].key == key;
    }
  }

  // ---- The head as text ----

  function Line(e: Entry): Text {
    e.key + (SEP + (e.value + CRLF))
  }

  function Lines(es: seq<Entry>): Text {
    if es == [] then [] else Line(es[0]) + Lines(es[1..])
  }

  /** The status line's three parts, and the name the server gives itself. */
  datatype Status = Status(version: Text, code: Text, message: Text, server: Text)

  /** What follows the header lines: the server's name unless a header gives it, and the empty line. */
  function Trailer(es: seq<Entry>, server: Text): Text {
    if Has(es, SERVER) then CRLF else SERVER + (SEP + (server + (CRLF + CRLF)))
  }

  function HeadText(st: Status, es: seq<Entry>): Text {
    st.version + (SP + (st.code + (SP + (st.message + (CRLF + (Lines(es) + Trailer(es, st.server)))))))
  }

  lemma LineFirst(es: seq<Entry>, i: nat, tail: Text)
    requires i < |es|
    ensures Lines(es[i..]) + tail == es[i].key + (SEP + (es[i].value + (CRLF + (Lines(es[i + 1..]) + tail))))
  {
    assert es[i..][1..] == es[i + 1..];
    var e, rest := es[i], Lines(es[i + 1..]);
    assert e.key + (SEP + (e.value + CRLF)) + rest + tail == e.key + (SEP + (e.value + (CRLF + (rest + tail))));
  }

  class ResponsePart {
    const status: Status
    const headers: SmallHeaderMap

    constructor (status: Status, headers: SmallHeaderMap)
      ensures this.status == status && this.headers == headers
    {
      this.status, this.headers := status, headers;
    }

    ghost function Head(): Text
      requires headers.Valid()
      reads headers, headers.slots
    {
      HeadText(status, headers.Contents())
    }

    /** `to_string`: the head, appended piece by piece to a string. */
    method ToString() returns (res: Text)
      requires headers.Valid()
      ensures res == Head()
    {
      ghost var es := headers.Contents();
      ghost var trailer := Trailer(es, status.server);
      hide Kept, Inline, Spilled, Has, Lines, Trailer;
      res := status.version + SP + status.code + SP + status.message + CRLF;
      ghost var line := res;
      assert headers.Contents()[0..] == headers.Contents();
      assert res + (Lines(es[0..]) + trailer) == HeadText(status, es);
      var n := headers.Size();
      var i := 0;
      while i < n
        invariant 0 <= i <= n == |es| && headers.Contents() == es && headers.Valid()
        invariant res + (Lines(es[i..]) + trailer) == HeadText(status, es)
      {
        var e := headers.EntryAt(i);
        LineFirst(es, i, trailer);
        Regroup(res, e, Lines(es[i + 1..]) + trailer);
        res := res + e.key + SEP + e.value + CRLF;
        i := i + 1;
      }
      NoLines(es[n..], trailer);
      var named := headers.Contains(SERVER);
      ServerLine(es, status.server, res);
      if !named {
        res := res + SERVER + SEP + status.server + CRLF;
      }
      res := res + CRLF;
    }

    /** The four pieces of a header line, or the six of the status line, as `render_head` puts them. */
    method AppendAll(buf: array<byte>, cap: nat, off: nat, pieces: seq<Text>, ghost text: Text, ghost tail: Text)
      returns (ok: bool, off': nat)
      requires cap <= buf.Length && Rendered(buf[..], cap, off, text, Nested(pieces, tail))
      modifies buf
      ensures ok ==> Rendered(buf[..], cap, off', text, tail)
      ensures !ok ==> |text| > cap
    {
      ok, off' := true, off;
      var i := 0;
      assert pieces[0..] == pieces;
      while i < |pieces|
        invariant 0 <= i <= |pieces| && Rendered(buf[..], cap, off', text, Nested(pieces[i..], tail))
      {
        var sv := pieces[i];
        assert pieces[i..][1..] == pieces[i + 1..];
        ok, off' := Append(buf, cap, off', sv, text, Nested(pieces[i + 1..], tail));
        if !ok {
          return;
        }
        i := i + 1;
      }
    }

    /** Append one piece, unless it does not fit. */
    method Append(buf: array<byte>, cap: nat, off: nat, sv: Text, ghost text: Text, ghost tail: Text)
      returns (ok: bool, off': nat)
      requires cap <= buf.Length && Rendered(buf[..], cap, off, text, sv + tail)
      modifies buf
      ensures ok ==> Rendered(buf[..], cap, off', text, tail)
      ensures !ok ==> |text| > cap
    {
      if off + |sv| > cap {
        return false, off;
      }
      ghost var before := buf[..off];
      forall x | 0 <= x < |sv| {
        buf[off + x] := sv[x];
      }
      ok, off' := true, off + |sv|;
      assert buf[..off'] == before + sv;
      assert before + (sv + tail) == before + sv + tail;
    }

    /**
     * `render_head`: the head, put into a buffer. It is there exactly when it fits;
     * otherwise the result is empty.
     */
    method RenderHead(buf: array<byte>, cap: nat) returns (n: nat)
      requires headers.Valid() && cap <= buf.Length
      modifies buf
      ensures n == if |Head()| <= cap then |Head()| else 0
      ensures |Head()| <= cap ==> buf[..n] == Head()
    {
      ghost var es, text := headers.Contents(), Head();
      ghost var trailer := Trailer(es, status.server);
      ghost var fields := Lines(es) + trailer;
      NestedStatus(status, fields);
      hide Kept, Inline, Spilled, Has, Lines, Trailer, Nested;
      assert buf[..0] + text == text;
      var ok, off := AppendAll(buf, cap, 0, [status.version, SP, status.code, SP, status.message, CRLF], text, fields);
      if !ok {
        return 0;
      }
      assert es[0..] == es;
      var size := headers.Size();
      var i := 0;
      while i < size
        invariant 0 <= i <= size == |es| && headers.Contents() == es && headers.Valid()
        invariant Rendered(buf[..], cap, off, text, Lines(es[i..]) + trailer)
      {
        var e := headers.EntryAt(i);
        LineFirst(es, i, trailer);
        NestedLine(e.key, e.value, Lines(es[i + 1..]) + trailer);
        ok, off := AppendAll(buf, cap, off, [e.key, SEP, e.value, CRLF], text, Lines(es[i + 1..]) + trailer);
        if !ok {
          return 0;
        }
        i := i + 1;
      }
      NoLines(es[size..], trailer);
      ok, n := RenderTrailer(buf, cap, off, text);
      if !ok {
        n := 0;
      }
    }

    /** The end of the head: the server's name unless a header gives it, and the empty line. */
    method RenderTrailer(buf: array<byte>, cap: nat, off: nat, ghost text: Text) returns (ok: bool, off': nat)
      requires headers.Valid() && cap <= buf.Length
      requires Rendered(buf[..], cap, off, text, Trailer(headers.Contents(), status.server))
      modifies buf
      ensures ok ==> off' == |text| <= cap && buf[..off'] == text
      ensures !ok ==> |text| > cap
    {
      hide Kept, Inline, Spilled, Has, Trailer, Nested;
      ServerNested(headers.Contents(), status.server);
      ok, off' := true, off;
      var named := headers.Contains(SERVER);
      if !named {
        ok, off' := AppendAll(buf, cap, off, [SERVER, SEP, status.server, CRLF], text, CRLF);
        if !ok {
          return;
        }
      }
      assert CRLF + [] == CRLF;
      ok, off' := Append(buf, cap, off', CRLF, text, []);
      assert ok ==> buf[..off'] + [] == buf[..off'];
    }
  }

  /** `text` is rendered up to `off`, and `rest` is still to come. */
  ghost predicate Rendered(buf: Text, cap: nat, off: nat, text: Text, rest: Text) {
    off <= cap <= |buf| && buf[..off] + rest == text
  }

  /** Pieces one after another, and then `tail`. */
  function Nested(pieces: seq<Text>, tail: Text): Text {
    if pieces == [] then tail else pieces[0] + Nested(pieces[1..], tail)
  }

  lemma NestedLine(a: Text, b: Text, tail: Text)
    ensures Nested([a, SEP, b, CRLF], tail) == a + (SEP + (b + (CRLF + tail)))
  {
    assert [a, SEP, b, CRLF][1..] == [SEP, b, CRLF] && [SEP, b, CRLF][1..] == [b, CRLF];
    assert [b, CRLF][1..] == [CRLF] && [CRLF][1..] == [];
    assert Nested([CRLF], tail) == CRLF + tail && Nested([b, CRLF], tail) == b + (CRLF + tail);
  }

  lemma NestedStatus(st: Status, tail: Text)
    ensures Nested([st.version, SP, st.code, SP, st.message, CRLF], tail)
         == st.version + (SP + (st.code + (SP + (st.message + (CRLF + tail)))))
  {
    var m, c: seq<Text> := [SP, st.message, CRLF], [st.code, SP, st.message, CRLF];
    assert m[1..] == [st.message, CRLF] && [st.message, CRLF][1..] == [CRLF] && [CRLF][1..] == [];
    assert Nested([CRLF], tail) == CRLF + tail && Nested([st.message, CRLF], tail) == st.message + (CRLF + tail);
    assert Nested(m, tail) == SP + (st.message + (CRLF + tail));
    assert c[1..] == m && [SP, st.code, SP, st.message, CRLF][1..] == c;
    assert [st.version, SP, st.code, SP, st.message, CRLF][1..] == [SP, st.code, SP, st.message, CRLF];
    assert Nested([SP, st.code, SP, st.message, CRLF], tail) == SP + (st.code + Nested(m, tail));
  }

  lemma ServerNested(es: seq<Entry>, server: Text)
    ensures Trailer(es, server) == if Has(es, SERVER) then CRLF else Nested([SERVER, SEP, server, CRLF], CRLF)
  {
    NestedLine(SERVER, server, CRLF);
  }

  lemma Regroup(res: Text, e: Entry, rest: Text)
    ensures res + (e.key + (SEP + (e.value + (CRLF + rest)))) == res + e.key + SEP + e.value + CRLF + rest
  {}

  lemma NoLines(es: seq<Entry>, tail: Text)
    requires es == []
    ensures Lines(es) + tail == tail
  {}

  lemma ServerLine(es: seq<Entry>, server: Text, res: Text)
    ensures res + Trailer(es, server) == (if Has(es, SERVER) then res else res + SERVER + SEP + server + CRLF) + CRLF
  {}

  // ---- Sending ----

  lemma HeadNotEmpty(st: Status, es: seq<Entry>)
    ensures HeadText(st, es) != []
  {}

  /** How head and body come out: how much of each was taken, and the error. */
  datatype Delivery = Delivery(head: nat, body: nat, ec: Option<Errc>)

  /** Head and body with a write each; the body follows unless the head's write failed. */
  function TwoWrites(headSize: nat, bodySize: nat, script: seq<Answer>): Delivery {
    var h := Written(headSize, script);
    if h.ec.Some? then Delivery(h.size, 0, h.ec)
    else
      var b := Written(bodySize, h.rest);
      Delivery(h.size, b.size, b.ec)
  }

  /**
   * When the head's write breaks off at answer number `k`: with no octet taken it
   * counts as a lost connection whatever the answer; otherwise its error is the one
   * reported and the body is not written, and without an error the body follows.
   */
  lemma HeadBreaks(headSize: nat, bodySize: nat, script: seq<Answer>, k: nat)
    requires BreaksAt(script, headSize, k)
    ensures var d, n := TwoWrites(headSize, bodySize, script), Octets(script, k);
            && d.head == n
            && (n == 0 ==> d == Delivery(0, 0, Some(NotConnected)))
            && (n > 0 && script[k].Failed? ==> d == Delivery(n, 0, Some(Other(script[k].code))))
            && (n > 0 && script[k] == Again(false) ==> d == Delivery(n, 0, Some(NotConnected)))
            && (n > 0 && script[k] == Nothing ==>
                  var b := Written(bodySize, script[k + 1..]); d == Delivery(n, b.size, b.ec))
  {
    Broken(headSize, 0, script, k);
    hide Octets, Going, Transfer;
  }

  /** When it does not, the whole head is taken and the body follows. */
  lemma HeadComesThrough(headSize: nat, bodySize: nat, script: seq<Answer>) returns (used: nat)
    requires headSize > 0 && Unbroken(script, headSize)
    ensures used <= |script| && Going(script, used) && (used < |script| ==> Octets(script, used) >= headSize)
    ensures forall k: nat :: k < used ==> Octets(script, k) < headSize
    ensures var b := Written(bodySize, script[used..]);
            TwoWrites(headSize, bodySize, script) == Delivery(headSize, b.size, b.ec)
  {
    used := Through(headSize, script);
  }

  /** The head as text: it is in the buffer on the stack if it has at most 1024 octets, and else in a string. */
  method TakeHead(part: ResponsePart) returns (head: Text, onStack: bool)
    requires part.headers.Valid()
    ensures head == part.Head() && (onStack <==> |head| <= 1024)
  {
    HeadNotEmpty(part.status, part.headers.Contents());
    hide Kept, Inline, Spilled, Has, HeadText;
    var buf := new byte[HEAD_BUFFER];
    var n := part.RenderHead(buf, HEAD_BUFFER);
    head, onStack := buf[..n], true;
    if head == [] {
      head := part.ToString();
      onStack := false;
    }
  }

  /** Head and body with a write each. */
  method SendTwice(kernel: Kernel, head: Text, body: Text) returns (size: nat, ec: Option<Errc>)
    requires head != [] && body != []
    modifies kernel
    ensures var d := TwoWrites(|head|, |body|, old(kernel.script));
            && ec == d.ec && size == d.head + d.body && d.head <= |head| && d.body <= |body|
            && kernel.sent == old(kernel.sent) + head[..d.head] + body[..d.body]
  {
    size, ec := WriteSpan(kernel, head);
    if ec.Some? {
      assert body[..0] == [];
      return;
    }
    var r;
    r, ec := WriteSpan(kernel, body);
    size := size + r;
  }

  /**
   * `sendto` with a body held as text: the head from the buffer, or from a string
   * when it does not fit, and then the body, in one scatter-gather write or in two.
   */
  method SendTo(part: ResponsePart, body: Text, kernel: Kernel, vectored: bool) returns (size: nat, ec: Option<Errc>)
    requires part.headers.Valid()
    modifies kernel
    ensures body == [] ==>
              && Outcome(size, ec, kernel.script) == Written(|part.Head()|, old(kernel.script))
              && kernel.sent == old(kernel.sent) + part.Head()[..size]
    ensures body != [] && vectored ==>
              && Outcome(size, ec, kernel.script) == Transfer(|part.Head() + body|, 0, old(kernel.script))
              && kernel.sent == old(kernel.sent) + (part.Head() + body)[..size]
    ensures body != [] && !vectored ==>
              var d := TwoWrites(|part.Head()|, |body|, old(kernel.script));
              && ec == d.ec && size == d.head + d.body && d.head <= |part.Head()| && d.body <= |body|
              && kernel.sent == old(kernel.sent) + part.Head()[..d.head] + body[..d.body]
  {
    var head, _ := TakeHead(part);
    HeadNotEmpty(part.status, part.headers.Contents());
    hide HeadText;
    if body == [] {
      size, ec := WriteSpan(kernel, head);
    } else if vectored {
      WholeTwo(head, body);
      size, ec := Send(kernel, [head, body]);
    } else {
      size, ec := SendTwice(kernel, head, body);
    }
  }

  lemma WholeOne(a: Text)
    ensures Whole([a]) == a
  {
    assert Flat([a], 0) == [] && [] + a == a;
  }

  lemma WholeTwo(a: Text, b: Text)
    ensures Whole([a, b]) == a + b
  {
    WholeOne(a);
    assert [a] + [b] == [a, b];
    WholeAppend([a], b);
  }

  // ---- When two writes leave a gap ----

  /** With `h` octets of the head and `b` of the body sent, part of the head is missing before the body. */
  predicate Gap(headSize: nat, h: nat, b: nat) {
    h < headSize && b > 0
  }

  /** What was sent is a prefix of head and body, whatever is in them, exactly when there is no gap. */
  lemma PrefixExactly(headSize: nat, bodySize: nat, h: nat, b: nat)
    requires h <= headSize && b <= bodySize
    ensures (forall head: Text, body: Text :: |head| == headSize && |body| == bodySize ==>
               head[..h] + body[..b] <= head + body)
            <==> !Gap(headSize, h, b)
  {
    if Gap(headSize, h, b) {
      var head: Text, body: Text := seq(headSize, _ => 0), seq(bodySize, _ => 1);
      assert (head[..h] + body[..b])[h] == 1 && (head + body)[h] == 0;
    } else {
      forall head: Text, body: Text | |head| == headSize && |body| == bodySize
        ensures head[..h] + body[..b] <= head + body
      {
        if b == 0 {
          assert head[..h] + body[..b] == (head + body)[..h];
        } else {
          assert head[..h] + body[..b] == (head + body)[..h + b];
        }
      }
    }
  }

  /**
   * Two writes leave a gap exactly when a write takes nothing after some of the head
   * and before all of it is taken, and the body's write takes something after that.
   */
  lemma GapExactly(headSize: nat, bodySize: nat, script: seq<Answer>)
    ensures var d := TwoWrites(headSize, bodySize, script);
            Gap(headSize, d.head, d.body) <==>
              exists k: nat :: HaltsAt(script, headSize, k) && 0 < Octets(script, k) && 0 < Written(bodySize, script[k + 1..]).size
  {
    var d, h := TwoWrites(headSize, bodySize, script), Transfer(headSize, 0, script);
    hide Octets, Going;
    if Gap(headSize, d.head, d.body) {
      var k := Short(headSize, 0, script);
      Broken(headSize, 0, script, k);
    }
    if k: nat :| HaltsAt(script, headSize, k) && 0 < Octets(script, k) && 0 < Written(bodySize, script[k + 1..]).size {
      Broken(headSize, 0, script, k);
    }
  }

  /** One octet of the head, a write that takes nothing, and then the whole body, without an error. */
  lemma GapRun(head: Text, body: Text)
    requires |head| > 1 && body != [] && head[1] != body[0]
    ensures TwoWrites(|head|, |body|, [Took(1), Nothing]) == Delivery(1, |body|, None)
    ensures !(head[..1] + body <= head + body)
  {
    var script: seq<Answer> := [Took(1), Nothing];
    assert Octets(script, 1) == 1 + Octets(script[1..], 0);
    assert HaltsAt(script, |head|, 1);
    Broken(|head|, 0, script, 1);
    assert Transfer(|body|, |body|, []) == Outcome(|body|, None, []);
    assert (head[..1] + body)[1] == body[0] && (head + body)[1] == head[1];
  }
}
