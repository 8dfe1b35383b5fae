/** What a response renders as its head, a message reads back. */
module ResponseParse {
  import opened Basics
  import opened HttpHead
  import Response

  type Entry = Response.Entry

  /** The line of a header, without its CRLF. */
  function Content(e: Entry): Text {
    e.key + (Response.SEP + e.value)
  }

  /** No line end in it. */
  predicate OneLine(t: Text) {
    forall i :: 0 <= i < |t| - 1 ==> !(t[i] == 13 && t[i + 1] == 10)
  }

  /** A header that survives being written and read: one line that fits a block, no colon in the key, no space before the value. */
  predicate Clean(e: Entry) {
    && OneLine(e.key + [58, 32] + e.value) && |e.key| + |e.value| + 4 <= 4096
    && 58 !in e.key && (e.value != [] ==> e.value[0] != 32)
  }

  lemma CleanContent(e: Entry)
    requires Clean(e)
    ensures OneLine(Content(e)) && |Content(e)| + 2 <= BLOCK && Content(e) == e.key + [58, 32] + e.value
  {
    assert Content(e) == e.key + [58, 32] + e.value;
    hide OneLine, Content;
  }

  /** The headers as a map, later ones over earlier ones. */
  function Collect(es: seq<Entry>, hs: map<Text, Text>): map<Text, Text> {
    if es == [] then hs else Collect(es[1..], hs[es[0].key := es[0].value])
  }

  /** With every key once, the map is exactly the entries. */
  lemma {:induction false} CollectsAll(es: seq<Entry>, hs: map<Text, Text>, key: Text)
    requires Response.Distinct(es)
    ensures Response.Has(es, key) ==>
              key in Collect(es, hs) && Response.Entry(key, Collect(es, hs)[key]) in es
    ensures !Response.Has(es, key) ==>
              (key in Collect(es, hs) <==> key in hs) && (key in hs ==> Collect(es, hs)[key] == hs[key])
  {
    if es != [] {
      assert forall i :: 0 <= i < |es[1..]| ==> es[1..][i] == es[i + 1];
      CollectsAll(es[1..], hs[es[0].key := es[0].value], key);
      if Response.Has(es, key) {
        var i :| 0 <= i < |es| && es[i].key == key;
        if i > 0 {
          assert es[1..][i - 1].key == key;
        }
      }
      if Response.Has(es[1..], key) {
        var i :| 0 <= i < |es[1..]| && es[1..][i].key == key;
        assert es[i + 1].key == key;
      }
    }
  }

  /** No entry from `i` on has that key. */
  predicate NoneFrom(es: seq<Entry>, i: nat, key: Text) {
    forall j :: i <= j < |es| ==> es[j].key != key
  }

  /** The value for a key is that of the last entry with it. */
  lemma {:induction false} CollectsLast(es: seq<Entry>, hs: map<Text, Text>, key: Text)
    ensures NoneFrom(es, 0, key) ==>
              (key in Collect(es, hs) <==> key in hs) && (key in hs ==> Collect(es, hs)[key] == hs[key])
    ensures forall i :: 0 <= i < |es| && es[i].key == key && NoneFrom(es, i + 1, key) ==>
              key in Collect(es, hs) && Collect(es, hs)[key] == es[i].value
  {
    if es != [] {
      var rest := es[1..];
      assert forall j :: 0 <= j < |rest| ==> rest[j] == es[j + 1];
      CollectsLast(rest, hs[es[0].key := es[0].value], key);
      assert NoneFrom(es, 1, key) <==> NoneFrom(rest, 0, key) by {
        assert forall j :: 1 <= j < |es| ==> es[j] == rest[j - 1];
      }
      forall i | 0 <= i < |es| && es[i].key == key && NoneFrom(es, i + 1, key)
        ensures key in Collect(es, hs) && Collect(es, hs)[key] == es[i].value
      {
        if i > 0 {
          assert rest[i - 1].key == key && NoneFrom(rest, i, key);
        }
      }
    }
  }

  /** An entry with that key, and none later. */
  lemma {:induction false} LastWith(es: seq<Entry>, n: nat, key: Text) returns (i: nat)
    requires n <= |es| && NoneFrom(es, n, key) && !NoneFrom(es, 0, key)
    ensures i < |es| && es[i].key == key && NoneFrom(es, i + 1, key)
  {
    if es[n - 1].key == key {
      i := n - 1;
    } else {
      i := LastWith(es, n - 1, key);
    }
  }

  /** A line that stands at `at` ends where it should. */
  lemma LineEnds(s: Text, at: nat, line: Text, rest: Text)
    requires at <= |s| && s[at..] == line + (Response.CRLF + rest) && OneLine(line)
    ensures Crlf(s, at) == at + |line| && at + |line| + 2 <= |s|
    ensures s[at..at + |line|] == line && s[at + |line| + 2..] == rest
  {
    var t, e := s[at..], at + |line|;
    assert s[e] == t[|line|] == CR && s[e + 1] == t[|line| + 1] == LF;
    forall x | at <= x < e ensures !EndsLine(s, x) {
      assert !EndsLine(line, x - at);
      assert s[x] == t[x - at] && s[x + 1] == t[x - at + 1];
    }
    CrlfFrom(s, at, e);
    assert t[..|line|] == line && t[|line| + 2..] == rest;
  }

  lemma {:induction false} FindsFirst(s: Text, c: byte, i: nat, e: nat)
    requires i <= e < |s| && s[e] == c && forall x :: i <= x < e ==> s[x] != c
    ensures Find(s, c, i) == e
    decreases e - i
  {
    if i < e {
      FindsFirst(s, c, i + 1, e);
    }
  }

  /** A clean header line reads as its key and its value. */
  lemma HeaderReads(e: Entry)
    requires Clean(e)
    ensures Header(Content(e)) == Some((e.key, e.value))
  {
    var l, k := Content(e), |e.key|;
    FindsFirst(l, COLON, 0, k);
    assert l[k + 1] == SPACE;
    assert FindNot(l, SPACE, k + 1) == FindNot(l, SPACE, k + 2);
    assert e.value != [] ==> l[k + 2] == e.value[0];
    assert FindNot(l, SPACE, k + 2) == k + 2;
    assert l[..k] == e.key && l[k + 2..] == e.value;
  }

  /** The line of a header, followed by anything, is taken as that header. */
  ghost predicate ReadsBack(e: Entry, rest: Text) {
    var line := e.key + [58, 32] + e.value;
    var s := line + ([13, 10] + rest);
    Fits(s, 0) && Crlf(s, 0) == |line| && Header(line) == Some((e.key, e.value))
  }

  lemma CleanReadsBack(e: Entry, rest: Text)
    requires Clean(e)
    ensures ReadsBack(e, rest)
  {
    var line := Content(e);
    var s := line + ([13, 10] + rest);
    CleanContent(e);
    assert s[0..] == s;
    LineEnds(s, 0, line, rest);
    HeaderReads(e);
    hide Crlf, Header, Clean, OneLine, Content;
  }

  lemma NoLineEndBefore(line: Text, rest: Text)
    requires Crlf(line + ([13, 10] + rest), 0) == |line|
    ensures OneLine(line)
  {
    var s := line + ([13, 10] + rest);
    forall i | 0 <= i < |line| - 1 ensures !(line[i] == 13 && line[i + 1] == 10) {
      assert !EndsLine(s, i);
      assert s[i] == line[i] && s[i + 1] == line[i + 1];
    }
    hide Crlf;
  }

  /** A header survives being written and read if and only if it is clean. */
  lemma CleanExactly(e: Entry, rest: Text)
    ensures ReadsBack(e, rest) <==> Clean(e)
  {
    var line := e.key + [58, 32] + e.value;
    HeaderParts(line);
    if Clean(e) {
      CleanReadsBack(e, rest);
    }
    if ReadsBack(e, rest) {
      NoLineEndBefore(line, rest);
    }
    hide Crlf, Header, OneLine;
  }

  lemma LineSplit(es: seq<Entry>, tail: Text)
    requires es != []
    ensures Response.Lines(es) + tail == Content(es[0]) + (Response.CRLF + (Response.Lines(es[1..]) + tail))
    ensures |Response.Lines(es)| == |Content(es[0])| + 2 + |Response.Lines(es[1..])|
  {
    hide Response.Line, Content;
    LineIsContent(es[0]);
  }

  lemma LineIsContent(e: Entry)
    ensures Response.Line(e) == Content(e) + Response.CRLF
  {}

  lemma ContentFits(s: Text, at: nat, e: Entry, end: nat)
    requires at <= end && end + 2 <= |s| && Crlf(s, at) == end && s[at..end] == Content(e) && Clean(e)
    ensures Fits(s, at) && at < end
  {
    hide Crlf, OneLine;
    assert |s[at..end]| == end - at;
  }

  /** Reading one header line. */
  lemma OneHeader(s: Text, at: nat, hs: map<Text, Text>, end: nat, key: Text, value: Text)
    requires at <= |s| && Fits(s, at) && at < end == Crlf(s, at)
    requires Header(s[at..end]) == Some((key, value))
    ensures Headers(s, at, hs) == Headers(s, end + 2, hs[key := value])
  {}

  lemma NoneLeft()
    ensures Response.Lines([]) == []
  {}

  lemma EmptyLine(s: Text, at: nat, hs: map<Text, Text>, rest: Text)
    requires at <= |s| && s[at..] == Response.CRLF + rest
    ensures Headers(s, at, hs) == Head(Complete, hs, at + 2)
  {
    assert [] + (Response.CRLF + rest) == Response.CRLF + rest;
    LineEnds(s, at, [], rest);
    HeadersStep(s, at, hs);
    hide Headers;
  }

  /** Header lines and the empty line behind them read as those headers. */
  lemma {:induction false} LinesRead(s: Text, at: nat, es: seq<Entry>, hs: map<Text, Text>, rest: Text)
    requires at <= |s| && s[at..] == Response.Lines(es) + (Response.CRLF + rest)
    requires forall i :: 0 <= i < |es| ==> Clean(es[i])
    ensures Headers(s, at, hs) == Head(Complete, Collect(es, hs), at + |Response.Lines(es)| + 2)
    decreases es
  {
    hide Headers, Header, Crlf, Response.Lines, OneLine, Clean;
    if es == [] {
      NoneLeft();
      assert [] + (Response.CRLF + rest) == Response.CRLF + rest;
      EmptyLine(s, at, hs, rest);
    } else {
      LineSplit(es, Response.CRLF + rest);
      CleanContent(es[0]);
      LineEnds(s, at, Content(es[0]), Response.Lines(es[1..]) + (Response.CRLF + rest));
      ContentFits(s, at, es[0], at + |Content(es[0])|);
      HeaderReads(es[0]);
      OneHeader(s, at, hs, at + |Content(es[0])|, es[0].key, es[0].value);
      LinesRead(s, at + |Content(es[0])| + 2, es[1..], hs[es[0].key := es[0].value], rest);
    }
  }

  /** The headers with the server's own, as they are rendered. */
  function Rendered(es: seq<Entry>, server: Text): seq<Entry> {
    if Response.Has(es, Response.SERVER) then es else es + [Response.Entry(Response.SERVER, server)]
  }

  function StatusLine(st: Response.Status): Text {
    st.version + (Response.SP + (st.code + (Response.SP + st.message)))
  }

  lemma {:induction false} LinesAppend(es: seq<Entry>, e: Entry)
    ensures Response.Lines(es + [e]) == Response.Lines(es) + Response.Line(e)
    ensures Response.Lines(es + [e]) == Response.Lines(es) + (e.key + [58, 32] + e.value + [13, 10])
  {
    assert Response.Line(e) == e.key + [58, 32] + e.value + [13, 10];
    hide Response.Line;
    if es == [] {
      assert es + [e] == [e] && [e][1..] == [];
      assert Response.Line(e) + [] == Response.Line(e);
    } else {
      LinesAppend(es[1..], e);
      assert (es + [e])[1..] == es[1..] + [e];
      assert Response.Lines(es + [e]) == Response.Line(es[0]) + (Response.Lines(es[1..]) + Response.Line(e));
    }
  }

  /** The rendered head is its status line, its header lines and an empty line. */
  lemma HeadIsLines(st: Response.Status, es: seq<Entry>)
    ensures Response.HeadText(st, es)
         == StatusLine(st) + (Response.CRLF + (Response.Lines(Rendered(es, st.server)) + (Response.CRLF + [])))
  {
    var fields := Response.Lines(es) + Response.Trailer(es, st.server);
    FieldsAreLines(es, st.server);
    hide Response.Lines, Response.Trailer, Rendered, Response.Has;
    StatusThen(st, fields);
  }

  lemma FieldsAreLines(es: seq<Entry>, server: Text)
    ensures Response.Lines(es) + Response.Trailer(es, server) == Response.Lines(Rendered(es, server)) + (Response.CRLF + [])
  {
    if !Response.Has(es, Response.SERVER) {
      var e := Response.Entry(Response.SERVER, server);
      LinesAppend(es, e);
      hide Response.Has, Response.Lines;
      assert Response.Trailer(es, server) == Response.Line(e) + (Response.CRLF + []);
    } else {
      assert Response.CRLF + [] == Response.CRLF;
    }
  }

  lemma StatusThen(st: Response.Status, fields: Text)
    ensures st.version + (Response.SP + (st.code + (Response.SP + (st.message + (Response.CRLF + fields)))))
         == StatusLine(st) + (Response.CRLF + fields)
  {}

  /** A head that is rendered and read back gives the status line and the headers, and ends where the body begins. */
  lemma RenderedHeadReads(st: Response.Status, es: seq<Entry>, body: Text, verdict: Text -> Option<Errc>, failure: Option<Errc>)
    requires OneLine(StatusLine(st)) && |StatusLine(st)| + 2 <= BLOCK && verdict(StatusLine(st)) == None
    requires forall i :: 0 <= i < |Rendered(es, st.server)| ==> Clean(Rendered(es, st.server)[i])
    ensures var head := Response.HeadText(st, es);
            WholeHead(head + body, 0, verdict, failure)
              == Message(None, Some(StatusLine(st)), Head(Complete, Collect(Rendered(es, st.server), map[]), |head|))
  {
    var line, rs := StatusLine(st), Rendered(es, st.server);
    var fields := Response.Lines(rs) + (Response.CRLF + body);
    var s := Response.HeadText(st, es) + body;
    HeadIsLines(st, es);
    hide Response.HeadText, Response.Lines, StatusLine, Rendered, Clean;
    assert s[0..] == line + (Response.CRLF + fields);
    LineEnds(s, 0, line, fields);
    LinesRead(s, |line| + 2, rs, map[], body);
    hide Headers, Collect;
  }

  /**
   * Header lines, some perhaps with the same key, and an empty line: every key
   * that occurs is read, with the value of the last line that has it.
   */
  lemma LastLineCounts(s: Text, at: nat, es: seq<Entry>, rest: Text, key: Text)
    requires at <= |s| && s[at..] == Response.Lines(es) + ([13, 10] + rest)
    requires forall i :: 0 <= i < |es| ==> Clean(es[i])
    ensures var h := Headers(s, at, map[]);
            && h.end == Complete && h.stop == |s| - |rest|
            && (key in h.headers <==> exists i :: 0 <= i < |es| && es[i].key == key)
            && forall i :: 0 <= i < |es| && es[i].key == key && (forall j :: i < j < |es| ==> es[j].key != key) ==>
                 key in h.headers && h.headers[key] == es[i].value
  {
    LinesRead(s, at, es, map[], rest);
    CollectsLast(es, map[], key);
    if !NoneFrom(es, 0, key) {
      var i := LastWith(es, |es|, key);
    }
    hide Headers, Collect, Clean, Response.Lines;
    assert |s[at..]| == |s| - at;
  }

  lemma Cut(a: Text, b: Text)
    requires 32 !in a
    ensures var line := a + ([32] + b);
            Find(line, 32, 0) == |a| && line[..|a|] == a && line[|a| + 1..] == b
  {
    var line := a + ([32] + b);
    assert forall x :: 0 <= x < |a| ==> line[x] == a[x];
    FindsFirst(line, 32, 0, |a|);
  }

  lemma {:induction false} FindBehind(line: Text, at: nat, i: nat)
    requires at + i <= |line|
    ensures Find(line, 32, at + i) == at + Find(line[at..], 32, i)
    decreases |line| - i
  {
    if at + i < |line| {
      FindBehind(line, at, i + 1);
    }
  }

  /** A line cut at its first two spaces. */
  ghost predicate IsCut(line: Text, version: Text, code: Text, message: Text) {
    var first := Find(line, 32, 0);
    && first < |line|
    && var second := Find(line, 32, first + 1);
       && second < |line|
       && line[..first] == version && line[first + 1..second] == code && line[second + 1..] == message
  }

  lemma Pieces(line: Text, a: Text, b: Text)
    requires line == a + ([32] + b)
    ensures |line| == |a| + 1 + |b| && line[..|a|] == a && line[|a| + 1..] == b
  {}

  lemma CutTwice(line: Text, a: Text, b: Text, c: Text)
    requires line == a + ([32] + (b + ([32] + c)))
    requires Find(line, 32, 0) == |a| && Find(line[|a| + 1..], 32, 0) == |b|
    ensures IsCut(line, a, b, c)
  {
    hide *;
    FindBehind(line, |a| + 1, 0);
    var behind := b + ([32] + c);
    Pieces(line, a, behind);
    Pieces(behind, b, c);
    SliceBehind(line, |a| + 1, |b|);
    CutAt(line, a, b, c);
  }

  lemma CutAt(line: Text, a: Text, b: Text, c: Text)
    requires Find(line, 32, 0) == |a| && |a| + 1 + |b| < |line| && Find(line, 32, |a| + 1) == |a| + 1 + |b|
    requires line[..|a|] == a && line[|a| + 1..|a| + 1 + |b|] == b && line[|a| + 1 + |b| + 1..] == c
    ensures IsCut(line, a, b, c)
  {
    hide Find;
  }

  lemma SliceBehind(line: Text, at: nat, n: nat)
    requires at + n + 1 <= |line|
    ensures line[at..][..n] == line[at..at + n] && line[at..][n + 1..] == line[at + n + 1..]
  {}

  /** A status line cut at its first two spaces, when neither the version nor the code has one. */
  lemma StatusLineCut(st: Response.Status)
    requires 32 !in st.version && 32 !in st.code
    ensures IsCut(StatusLine(st), st.version, st.code, st.message)
  {
    var behind := st.code + ([32] + st.message);
    Cut(st.version, behind);
    Cut(st.code, st.message);
    hide Find, IsCut;
    assert StatusLine(st)[|st.version| + 1..] == behind;
    CutTwice(StatusLine(st), st.version, st.code, st.message);
  }

  /** No entry is called `Server`. */
  predicate Unnamed(es: seq<Entry>) {
    forall i :: 0 <= i < |es| ==> es[i].key != [83, 101, 114, 118, 101, 114]
  }

  lemma UnnamedHasNot(es: seq<Entry>)
    ensures Unnamed(es) <==> !Response.Has(es, Response.SERVER)
  {}

  /**
   * Round trip: a response is rendered and its head read back. The first line, cut
   * at its first two spaces, is the version, the code and the message; the headers
   * are exactly those of the response and, if none of them is called `Server`, that
   * one with the server's own name; and reading ends where the body begins.
   */
  lemma ResponseReads(st: Response.Status, es: seq<Entry>, body: Text, verdict: Text -> Option<Errc>, failure: Option<Errc>)
    requires 32 !in st.version && 32 !in st.code && Response.Distinct(es)
    requires var line := st.version + [32] + st.code + [32] + st.message;
             OneLine(line) && |line| + 2 <= 4096 && verdict(line) == None
    requires forall i :: 0 <= i < |es| ==> Clean(es[i])
    requires Unnamed(es) ==> Clean(Response.Entry([83, 101, 114, 118, 101, 114], st.server))
    ensures var head := Response.HeadText(st, es);
            var w := WholeHead(head + body, 0, verdict, failure);
            && w.code == None && w.rest.end == Complete && w.rest.stop == |head|
            && w.line == Some(st.version + [32] + st.code + [32] + st.message)
            && IsCut(w.line.value, st.version, st.code, st.message)
            && AreHeaders(w.rest.headers, es, st.server)
  {
    var line, rs := StatusLine(st), Rendered(es, st.server);
    assert line == st.version + [32] + st.code + [32] + st.message;
    StatusLineCut(st);
    UnnamedHasNot(es);
    assert forall i :: 0 <= i < |rs| ==> Clean(rs[i]);
    RenderedHeadReads(st, es, body, verdict, failure);
    HeadersAre(es, st.server);
    hide WholeHead, StatusLine, Rendered, Clean, Collect, Response.HeadText, AreHeaders, Find;
  }

  /** The entries, and the server's own name if none of them is called `Server`. */
  ghost predicate AreHeaders(hs: map<Text, Text>, es: seq<Entry>, server: Text) {
    var name := [83, 101, 114, 118, 101, 114];
    && (forall i :: 0 <= i < |es| ==> es[i].key in hs && hs[es[i].key] == es[i].value)
    && (forall key :: key in hs && key != name ==> exists i :: 0 <= i < |es| && es[i].key == key)
    && (Unnamed(es) ==> name in hs && hs[name] == server)
    && (!Unnamed(es) ==> name in hs)
  }

  lemma HeadersAre(es: seq<Entry>, server: Text)
    requires Response.Distinct(es)
    ensures AreHeaders(Collect(Rendered(es, server), map[]), es, server)
  {
    var rs, name := Rendered(es, server), [83, 101, 114, 118, 101, 114];
    UnnamedHasNot(es);
    forall i | 0 <= i < |es| ensures es[i].key in Collect(rs, map[]) && Collect(rs, map[])[es[i].key] == es[i].value {
      assert rs[i] == es[i];
      assert NoneFrom(rs, i + 1, es[i].key);
      CollectsLast(rs, map[], es[i].key);
    }
    forall key | key in Collect(rs, map[]) && key != name ensures exists i :: 0 <= i < |es| && es[i].key == key {
      CollectsLast(rs, map[], key);
      var j :| 0 <= j < |rs| && rs[j].key == key;
      assert rs[j] == es[j];
    }
    if Unnamed(es) {
      assert rs[|es|] == Response.Entry(name, server) && NoneFrom(rs, |es| + 1, name);
      CollectsLast(rs, map[], name);
    }
    hide Collect;
  }
}
