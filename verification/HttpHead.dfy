/**
 * The head of an HTTP message, read from the whole stream at once: a first line
 * and header lines, each closed by CRLF and no longer than a block, up to an empty
 * line. This is what reading in pieces has to agree with.
 */
module HttpHead {
  import opened Basics

  const BLOCK := 4096
  const CR: byte := 13
  const LF: byte := 10
  const COLON: byte := 58
  const SPACE: byte := 32

  type Text = seq<byte>

  /** CRLF stands at `i`. */
  predicate EndsLine(s: Text, i: nat) {
    i + 1 < |s| && s[i] == CR && s[i + 1] == LF
  }

  /** Where CRLF stands at or after `i`, or the end. */
  function Crlf(s: Text, i: nat): (e: nat)
    requires i <= |s|
    ensures i <= e <= |s|
    ensures e < |s| ==> EndsLine(s, e)
    ensures forall x :: i <= x < e ==> !EndsLine(s, x)
    decreases |s| - i
  {
    if i == |s| || EndsLine(s, i) then i else Crlf(s, i + 1)
  }

  /** The first `c` at or after `i`, or the end. */
  function Find(s: Text, c: byte, i: nat): (e: nat)
    requires i <= |s|
    ensures i <= e <= |s| && (e < |s| ==> s[e] == c)
    ensures forall x :: i <= x < e ==> s[x] != c
    decreases |s| - i
  {
    if i == |s| || s[i] == c then i else Find(s, c, i + 1)
  }

  /** The first octet other than `c` at or after `i`, or the end. */
  function FindNot(s: Text, c: byte, i: nat): (e: nat)
    requires i <= |s|
    ensures i <= e <= |s| && (e < |s| ==> s[e] != c)
    ensures forall x :: i <= x < e ==> s[x] == c
    decreases |s| - i
  {
    if i == |s| || s[i] != c then i else FindNot(s, c, i + 1)
  }

  /** A header line: what is before the first colon, and what is behind it and its spaces. */
  function Header(line: Text): Option<(Text, Text)> {
    var colon := Find(line, COLON, 0);
    if colon == |line| then None else Some((line[..colon], line[FindNot(line, SPACE, colon + 1)..]))
  }

  /** A header line is split at its first colon, and the spaces behind that are skipped; a line without one is none. */
  lemma HeaderParts(line: Text)
    ensures Header(line).None? <==> 58 !in line
    ensures Header(line).Some? ==>
              var (key, value) := Header(line).value;
              && 58 !in key && (value != [] ==> value[0] != 32)
              && exists spaces: Text :: line == key + [58] + spaces + value && forall i :: 0 <= i < |spaces| ==> spaces[i] == 32
  {
    var colon := Find(line, 58, 0);
    if colon < |line| {
      var start := FindNot(line, 32, colon + 1);
      var spaces := line[colon + 1..start];
      assert line == line[..colon] + [58] + spaces + line[start..];
    }
  }

  /** How reading a head ends. */
  datatype End = Complete | Malformed | TooLong | Ended

  /** A head as read: how it ended, its headers, and the position behind what was taken. */
  datatype Head = Head(end: End, headers: map<Text, Text>, stop: nat)

  /** A line that starts at `at` and can be taken. */
  predicate Fits(s: Text, at: nat)
    requires at <= |s|
  {
    Crlf(s, at) < |s| && Crlf(s, at) + 2 - at <= BLOCK
  }

  /** Why no line can be taken: it does not fit a block, or the stream ends first. */
  function NoLine(s: Text, at: nat): (end: End)
    requires at <= |s|
    ensures end.TooLong? || end.Ended?
  {
    if |s| - at >= BLOCK then TooLong else Ended
  }

  /** The header lines from `at` on. */
  function Headers(s: Text, at: nat, hs: map<Text, Text>): (h: Head)
    requires at <= |s|
    ensures at <= h.stop <= |s|
    decreases |s| - at
  {
    var e := Crlf(s, at);
    if !Fits(s, at) then Head(NoLine(s, at), hs, at)
    else if e == at then Head(Complete, hs, e + 2)
    else match Header(s[at..e])
         case None => Head(Malformed, hs, at)
         case Some((k, v)) => Headers(s, e + 2, hs[k := v])
  }

  /** The error a head ends with; none for a complete one. */
  function Code(end: End, failure: Option<Errc>): Option<Errc> {
    match end
    case Complete => None
    case Malformed => Some(IllegalByteSequence)
    case TooLong => Some(IllegalByteSequence)
    case Ended => Some(if failure.Some? then failure.value else NotConnected)
  }

  lemma Codes(failure: Option<Errc>)
    ensures Code(Complete, failure) == None && Code(Malformed, failure) == Some(IllegalByteSequence)
  {}

  /** A first line and what follows it. */
  datatype Message = Message(code: Option<Errc>, line: Option<Text>, rest: Head)

  /** The line at `at`, without its CRLF. */
  function LineAt(s: Text, at: nat): Text
    requires at <= |s|
  {
    s[at..Crlf(s, at)]
  }

  /** What becomes of the first line: the error, and the position behind what was taken. */
  ghost predicate FirstLine(s: Text, at: nat, verdict: Text -> Option<Errc>, failure: Option<Errc>, ec: Option<Errc>, stop: nat)
    requires at <= |s|
  {
    if !Fits(s, at) then ec == Code(NoLine(s, at), failure) && stop == at
    else ec == verdict(LineAt(s, at)) && stop == if ec.None? then Crlf(s, at) + 2 else at
  }

  lemma NoFirstLine(s: Text, at: nat, verdict: Text -> Option<Errc>, failure: Option<Errc>)
    requires at <= |s| && !Fits(s, at)
    ensures FirstLine(s, at, verdict, failure, Code(NoLine(s, at), failure), at)
    ensures Code(NoLine(s, at), failure).Some?
  {}

  /** The head at `at`, given the verdict on first lines and how the stream fails at its end. */
  function WholeHead(s: Text, at: nat, verdict: Text -> Option<Errc>, failure: Option<Errc>): (w: Message)
    requires at <= |s|
    ensures at <= w.rest.stop <= |s|
    ensures w.code.None? ==> at < w.rest.stop
  {
    var e := Crlf(s, at);
    if !Fits(s, at) then Message(Code(NoLine(s, at), failure), None, Head(NoLine(s, at), map[], at))
    else if verdict(s[at..e]).Some? then Message(verdict(s[at..e]), None, Head(Ended, map[], at))
    else
      var h := Headers(s, e + 2, map[]);
      Message(Code(h.end, failure), Some(s[at..e]), h)
  }

  /** A head is its first line and then its headers. */
  lemma WholeStep(s: Text, at: nat, verdict: Text -> Option<Errc>, failure: Option<Errc>, ec: Option<Errc>, stop: nat)
    requires at <= |s| && FirstLine(s, at, verdict, failure, ec, stop)
    ensures at <= stop <= |s|
    ensures var w := WholeHead(s, at, verdict, failure);
            if ec.Some? then w.code == ec && w.line == None && w.rest.headers == map[] && !w.rest.end.Malformed? && w.rest.stop == stop
            else
              && w.line == Some(LineAt(s, at)) && w.rest == Headers(s, stop, map[])
              && w.code == Code(w.rest.end, failure)
  {}

  lemma NoMoreHeaders(s: Text, at: nat, hs: map<Text, Text>)
    requires at <= |s| && !Fits(s, at)
    ensures Headers(s, at, hs) == Head(NoLine(s, at), hs, at)
  {}

  // ---- Errors ----

  /** Carriage return and line feed stand at `x`. */
  predicate CrLfAt(s: Text, x: nat) {
    x + 1 < |s| && s[x] == 13 && s[x + 1] == 10
  }

  /** No line that is closed within 4096 octets starts at `at`. */
  predicate NoLineAt(s: Text, at: nat) {
    forall x: nat :: at <= x && x + 2 <= at + 4096 ==> !CrLfAt(s, x)
  }

  lemma NoLineFits(s: Text, at: nat)
    requires at <= |s|
    ensures NoLineAt(s, at) <==> !Fits(s, at)
  {
    var e := Crlf(s, at);
    assert forall x: nat :: CrLfAt(s, x) <==> EndsLine(s, x);
    hide Crlf;
    if Fits(s, at) {
      assert CrLfAt(s, e);
    }
  }

  /** Why reading ends where no line can be taken. */
  lemma DueError(s: Text, at: nat, verdict: Text -> Option<Errc>, failure: Option<Errc>, origin: nat)
    requires at <= |s|
    requires var w := WholeHead(s, at, verdict, failure);
             if w.rest.end.Malformed? then origin <= |s| && Fits(s, origin) else origin == w.rest.stop
    ensures var w := WholeHead(s, at, verdict, failure);
            w.code.Some? ==>
              if NoLineAt(s, origin) then
                w.code == if |s| - origin >= 4096 then Some(IllegalByteSequence)
                          else if failure.Some? then failure else Some(NotConnected)
              else if w.line.Some? then w.code == Some(IllegalByteSequence)
              else origin == at && w.code == verdict(LineAt(s, at))
  {
    NoLineFits(s, origin);
    var w := WholeHead(s, at, verdict, failure);
    if Fits(s, at) && verdict(s[at..Crlf(s, at)]).None? {
      HeadersEnd(s, Crlf(s, at) + 2, map[]);
    }
    hide Crlf, Headers, NoLineAt;
  }

  /** Headers that end before they are complete end where no line fits, or at a malformed line. */
  lemma {:induction false} HeadersEnd(s: Text, at: nat, hs: map<Text, Text>)
    requires at <= |s|
    ensures var h := Headers(s, at, hs);
            (h.end.TooLong? || h.end.Ended?) ==> !Fits(s, h.stop) && h.end == NoLine(s, h.stop)
    decreases |s| - at
  {
    hide Crlf, Header, Fits, Headers;
    if !Fits(s, at) {
      NoMoreHeaders(s, at, hs);
    } else {
      FitsInside(s, at);
      HeadersStep(s, at, hs);
      var e := Crlf(s, at);
      if at < e && Header(s[at..e]).Some? {
        var kv := Header(s[at..e]).value;
        HeadersEnd(s, e + 2, hs[kv.0 := kv.1]);
      }
    }
  }

  lemma FitsInside(s: Text, at: nat)
    requires at <= |s| && Fits(s, at)
    ensures at <= Crlf(s, at) && Crlf(s, at) + 2 <= |s|
  {
    assert EndsLine(s, Crlf(s, at));
    hide Crlf;
  }

  /** The heads one after another, and the error the last of them ends with. */
  function Heads(s: Text, at: nat, verdict: Text -> Option<Errc>, failure: Option<Errc>): (seq<(Text, map<Text, Text>)>, Errc)
    requires at <= |s|
    decreases |s| - at
  {
    var w := WholeHead(s, at, verdict, failure);
    if w.code.Some? then ([], w.code.value)
    else
      var (rest, code) := Heads(s, w.rest.stop, verdict, failure);
      ([(w.line.value, w.rest.headers)] + rest, code)
  }

  /** The octets of the longest of these heads, as far as each is taken. */
  function LongestHead(s: Text, at: nat, verdict: Text -> Option<Errc>, failure: Option<Errc>): nat
    requires at <= |s|
    decreases |s| - at
  {
    var w := WholeHead(s, at, verdict, failure);
    var n := w.rest.stop - at;
    if w.code.Some? then n
    else
      var rest := LongestHead(s, w.rest.stop, verdict, failure);
      if n >= rest then n else rest
  }

  lemma HeadsStep(s: Text, at: nat, verdict: Text -> Option<Errc>, failure: Option<Errc>)
    requires at <= |s|
    ensures var w := WholeHead(s, at, verdict, failure);
            if w.code.Some? then
              Heads(s, at, verdict, failure) == ([], w.code.value) && LongestHead(s, at, verdict, failure) == w.rest.stop - at
            else
              && at < w.rest.stop <= |s| && w.line.Some? && !w.rest.end.Malformed?
              && Heads(s, at, verdict, failure).0 == [(w.line.value, w.rest.headers)] + Heads(s, w.rest.stop, verdict, failure).0
              && Heads(s, at, verdict, failure).1 == Heads(s, w.rest.stop, verdict, failure).1
              && LongestHead(s, at, verdict, failure) >= LongestHead(s, w.rest.stop, verdict, failure)
              && LongestHead(s, at, verdict, failure) >= w.rest.stop - at
  {}

  // ---- Reading in pieces ----

  datatype Step = Done | Bad | More

  /** One pass over a window: how it ended, the headers, and how far it came. */
  datatype Scanned = Scanned(step: Step, headers: map<Text, Text>, pos: nat)

  function Scan(w: Text, pos: nat, hs: map<Text, Text>): (r: Scanned)
    requires pos <= |w|
    ensures pos <= r.pos <= |w|
    decreases |w| - pos
  {
    var e := Crlf(w, pos);
    if e == |w| then Scanned(More, hs, pos)
    else if e == pos then Scanned(Done, hs, e + 2)
    else match Header(w[pos..e])
         case None => Scanned(Bad, hs, pos)
         case Some((k, v)) => Scan(w, e + 2, hs[k := v])
  }

  /** `w` is what is in the window: the stream from `at` on, as far as it has come. */
  predicate Window(s: Text, at: nat, w: Text) {
    at + |w| <= |s| && s[at..at + |w|] == w
  }

  lemma WindowSlice(s: Text, at: nat, w: Text, i: nat, j: nat)
    requires Window(s, at, w) && i <= j <= |w|
    ensures s[at + i..at + j] == w[i..j]
  {
    forall k | 0 <= k < j - i ensures s[at + i..at + j][k] == w[i..j][k] {
      assert s[at..at + |w|][i + k] == w[i + k];
    }
  }

  lemma {:induction false} CrlfFrom(s: Text, i: nat, e: nat)
    requires i <= e && EndsLine(s, e)
    requires forall x :: i <= x < e ==> !EndsLine(s, x)
    ensures Crlf(s, i) == e
    decreases e - i
  {
    if i < e {
      CrlfFrom(s, i + 1, e);
    }
  }

  /** A line that is whole in the window is that line of the stream. */
  lemma CrlfInWindow(s: Text, at: nat, w: Text, pos: nat)
    requires Window(s, at, w) && pos <= |w|
    ensures Crlf(w, pos) < |w| ==> Crlf(s, at + pos) == at + Crlf(w, pos)
    ensures Crlf(w, pos) == |w| ==> Crlf(s, at + pos) + 2 > at + |w|
  {
    var e := Crlf(w, pos);
    forall x | at <= x < at + |w| ensures EndsLine(w, x - at) ==> EndsLine(s, x)
    {
      assert s[at..at + |w|][x - at] == w[x - at];
      assert x + 1 < at + |w| ==> s[at..at + |w|][x + 1 - at] == w[x + 1 - at];
    }
    forall x | at <= x && x + 1 < at + |w| ensures EndsLine(s, x) ==> EndsLine(w, x - at)
    {
      assert s[at..at + |w|][x - at] == w[x - at] && s[at..at + |w|][x + 1 - at] == w[x + 1 - at];
    }
    if e < |w| {
      assert EndsLine(s, at + e) by { assert EndsLine(w, at + e - at); }
      CrlfFrom(s, at + pos, at + e);
    } else {
      forall x | at + pos <= x && x + 1 < at + |w| ensures !EndsLine(s, x) {
        assert !EndsLine(w, x - at);
      }
    }
  }

  /** A first line that is whole in the window. */
  lemma FirstLineInWindow(s: Text, at: nat, w: Text, verdict: Text -> Option<Errc>, failure: Option<Errc>)
    requires Window(s, at, w) && |w| <= BLOCK && Crlf(w, 0) < |w|
    ensures var e := Crlf(w, 0);
            && Crlf(s, at) == at + e && LineAt(s, at) == w[..e]
            && FirstLine(s, at, verdict, failure, verdict(w[..e]), if verdict(w[..e]).None? then at + e + 2 else at)
  {
    hide Crlf, Fits, Window;
    SameLine(s, at, w, 0);
  }

  /** What a pass over the window says about the stream. */
  ghost predicate Agrees(s: Text, at: nat, w: Text, pos: nat, hs: map<Text, Text>, r: Scanned)
    requires at + |w| <= |s| && pos <= |w| && r.pos <= |w|
  {
    && (r.step.Done? ==> Headers(s, at + pos, hs) == Head(Complete, r.headers, at + r.pos))
    && (r.step.Bad? ==> Headers(s, at + pos, hs) == Head(Malformed, r.headers, at + r.pos))
    && (r.step.More? ==> Headers(s, at + pos, hs) == Headers(s, at + r.pos, r.headers) && Crlf(w, r.pos) == |w|)
    && (r.pos == pos || r.pos >= Crlf(w, pos) + 2)
  }

  /** The next line in the window is the next line of the stream. */
  lemma SameLine(s: Text, at: nat, w: Text, pos: nat)
    requires Window(s, at, w) && |w| <= BLOCK && pos <= |w| && Crlf(w, pos) < |w|
    ensures var e := Crlf(w, pos);
            && Fits(s, at + pos) && Crlf(s, at + pos) == at + e
            && s[at + pos..at + e] == w[pos..e]
  {
    CrlfInWindow(s, at, w, pos);
    WindowSlice(s, at, w, pos, Crlf(w, pos));
  }

  lemma HeadersStep(s: Text, at: nat, hs: map<Text, Text>)
    requires at <= |s| && Fits(s, at)
    ensures var e := Crlf(s, at);
            Headers(s, at, hs) ==
              if e == at then Head(Complete, hs, e + 2)
              else if Header(s[at..e]).None? then Head(Malformed, hs, at)
              else Headers(s, e + 2, hs[Header(s[at..e]).value.0 := Header(s[at..e]).value.1])
  {}

  lemma ScanStep(w: Text, pos: nat, hs: map<Text, Text>)
    requires pos <= |w|
    ensures var e := Crlf(w, pos);
            Scan(w, pos, hs) ==
              if e == |w| then Scanned(More, hs, pos)
              else if e == pos then Scanned(Done, hs, e + 2)
              else if Header(w[pos..e]).None? then Scanned(Bad, hs, pos)
              else Scan(w, e + 2, hs[Header(w[pos..e]).value.0 := Header(w[pos..e]).value.1])
  {}

  /** A pass over the window does what reading the whole stream does, as far as it comes. */
  lemma {:induction false} ScanAgrees(s: Text, at: nat, w: Text, pos: nat, hs: map<Text, Text>)
    requires Window(s, at, w) && |w| <= BLOCK && pos <= |w|
    ensures Agrees(s, at, w, pos, hs, Scan(w, pos, hs))
    decreases |w| - pos
  {
    hide Crlf, Header, Fits, Headers, Scan;
    var e := Crlf(w, pos);
    ScanStep(w, pos, hs);
    if e < |w| {
      SameLine(s, at, w, pos);
      HeadersStep(s, at + pos, hs);
      if pos < e && Header(w[pos..e]).Some? {
        ScanAgrees(s, at, w, e + 2, hs[Header(w[pos..e]).value.0 := Header(w[pos..e]).value.1]);
      }
    }
  }

  /** Reading from `at` with the headers `hs` is done, or is reading on from `at'` with `hs'`. */
  ghost predicate Progress(s: Text, at: nat, hs: map<Text, Text>, step: Step, at': nat, hs': map<Text, Text>) {
    && at <= at' <= |s|
    && var h := Headers(s, at, hs);
       match step
       case Done => h == Head(Complete, hs', at')
       case Bad => h.end == Malformed && h.headers == hs' && at' == at <= h.stop && Fits(s, at)
       case More => h == Headers(s, at', hs')
  }

  /** A malformed line that is met is behind a first line that is whole in the window. */
  lemma BadFits(s: Text, at: nat, w: Text, hs: map<Text, Text>)
    requires Window(s, at, w) && |w| <= BLOCK && Scan(w, 0, hs).step.Bad?
    ensures Fits(s, at)
  {
    hide Crlf, Window, Fits;
    assert Crlf(w, 0) < |w|;
    SameLine(s, at, w, 0);
  }

  /** What a pass over the window amounts to, when the window is moved on by it unless a line is malformed. */
  lemma PassProgresses(s: Text, at: nat, w: Text, hs: map<Text, Text>)
    requires Window(s, at, w) && |w| <= BLOCK
    ensures var r := Scan(w, 0, hs);
            && Progress(s, at, hs, r.step, if r.step.Bad? then at else at + r.pos, r.headers)
            && (r.pos == 0 || at + r.pos >= Crlf(s, at) + 2)
            && (r.step.More? ==> Crlf(w[r.pos..], 0) == |w[r.pos..]|)
  {
    if Scan(w, 0, hs).step.Bad? {
      BadFits(s, at, w, hs);
    }
    hide Crlf, Headers, Scan, Fits, Window;
    ScanAgrees(s, at, w, 0, hs);
    CrlfInWindow(s, at, w, 0);
    RestOfWindow(w, Scan(w, 0, hs).pos);
  }

  lemma NoProgress(s: Text, at: nat, hs: map<Text, Text>)
    requires at <= |s|
    ensures Progress(s, at, hs, More, at, hs)
  {}

  /** Where reading stands after one more pass, and how it ends if it does. */
  lemma ProgressOn(s: Text, at: nat, hs: map<Text, Text>, at1: nat, hs1: map<Text, Text>, step: Step, at2: nat, hs2: map<Text, Text>)
    requires Progress(s, at, hs, More, at1, hs1) && Progress(s, at1, hs1, step, at2, hs2)
    ensures step.More? ==> Progress(s, at, hs, More, at2, hs2)
    ensures step.Done? ==> Headers(s, at, hs) == Head(Complete, hs2, at2)
    ensures step.Bad? ==> var h := Headers(s, at, hs); h.end == Malformed && h.headers == hs2 && at <= at2 <= h.stop && Fits(s, at2)
    ensures step.More? && !Fits(s, at2) ==> Headers(s, at, hs) == Head(NoLine(s, at2), hs2, at2)
    ensures at2 <= |s|
  {
    if step.More? && !Fits(s, at2) {
      NoMoreHeaders(s, at2, hs2);
    }
    hide Headers, Fits, Crlf;
  }

  lemma RestOfWindow(w: Text, pos: nat)
    requires pos <= |w|
    ensures Crlf(w, pos) == |w| ==> Crlf(w[pos..], 0) == |w[pos..]|
  {
    var w', e := w[pos..], Crlf(w[pos..], 0);
    assert EndsLine(w', e) ==> EndsLine(w, pos + e);
  }

  /** A full window without a line end: the line does not fit. */
  lemma FullWindow(s: Text, at: nat, w: Text)
    requires Window(s, at, w) && |w| == BLOCK && Crlf(w, 0) == |w|
    ensures !Fits(s, at) && NoLine(s, at) == TooLong
  {
    CrlfInWindow(s, at, w, 0);
  }

  /** The stream is at its end and the window holds no line end. */
  lemma LastWindow(s: Text, at: nat, w: Text)
    requires Window(s, at, w) && at + |w| == |s| && |w| < BLOCK && Crlf(w, 0) == |w|
    ensures !Fits(s, at) && NoLine(s, at) == Ended
  {
    CrlfInWindow(s, at, w, 0);
  }

  // ---- The code's view of a header line ----

  lemma {:induction false} FindInLine(w: Text, c: byte, pos: nat, e: nat, i: nat)
    requires pos + i <= e <= |w|
    ensures var f := Find(w[pos..e], c, i);
            if Find(w, c, pos + i) < e then pos + f == Find(w, c, pos + i) else f == e - pos
    decreases e - pos - i
  {
    if pos + i < e {
      assert w[pos..e][i] == w[pos + i];
      FindInLine(w, c, pos, e, i + 1);
    }
  }

  lemma {:induction false} FindNotInLine(w: Text, c: byte, pos: nat, e: nat, i: nat)
    requires pos + i <= e < |w| && w[e] != c
    ensures FindNot(w, c, pos + i) == pos + FindNot(w[pos..e], c, i)
    decreases e - pos - i
  {
    if pos + i < e {
      assert w[pos..e][i] == w[pos + i];
      FindNotInLine(w, c, pos, e, i + 1);
    }
  }

  /** Searching the window from the start of a line finds the parts of that line. */
  lemma HeaderInWindow(w: Text, pos: nat)
    requires pos <= |w| && pos < Crlf(w, pos) < |w|
    ensures var e, colon := Crlf(w, pos), Find(w, COLON, pos);
            if colon == |w| || colon > e then Header(w[pos..e]).None?
            else
              && colon < e
              && var vstart := FindNot(w, SPACE, colon + 1);
                 && vstart <= e && Crlf(w, vstart) == e
                 && Header(w[pos..e]) == Some((w[pos..colon], w[vstart..e]))
  {
    hide Crlf, Find, FindNot;
    var e, colon := Crlf(w, pos), Find(w, COLON, pos);
    FindInLine(w, COLON, pos, e, 0);
    if colon < |w| && colon <= e {
      ValueInWindow(w, pos, colon);
    }
  }

  lemma ValueInWindow(w: Text, pos: nat, colon: nat)
    requires pos <= |w| && pos < Crlf(w, pos) < |w|
    requires pos <= colon < Crlf(w, pos)
    requires Find(w[pos..Crlf(w, pos)], COLON, 0) == colon - pos
    ensures var e, vstart := Crlf(w, pos), FindNot(w, SPACE, colon + 1);
            && vstart <= e && Crlf(w, vstart) == e
            && Header(w[pos..e]) == Some((w[pos..colon], w[vstart..e]))
  {
    hide Crlf, Find, FindNot;
    var e := Crlf(w, pos);
    FindNotInLine(w, SPACE, pos, e, colon + 1 - pos);
    var vstart := FindNot(w, SPACE, colon + 1);
    CrlfFrom(w, vstart, e);
    assert w[pos..e][..colon - pos] == w[pos..colon];
    assert w[pos..e][vstart - pos..] == w[vstart..e];
  }
}
