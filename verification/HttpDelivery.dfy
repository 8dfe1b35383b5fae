/**
 * Where reading a head leaves off, for every way the stream can be cut into pieces.
 * Positions are positions in the stream; `base` is what stands at the start of the
 * active block, `o` what the window starts with, `p` how far the stream has come.
 */
module HttpDelivery {
  import opened Basics
  import opened HttpHead

  /** The size of the next piece when there is room for `room` octets; in the end every piece is as large as it can be. */
  function Piece(script: seq<nat>, room: nat): (n: nat)
    requires room > 0
    ensures 0 < n <= room
  {
    if script == [] || script[0] > room then room else if script[0] == 0 then 1 else script[0]
  }

  function Rest(script: seq<nat>): seq<nat> {
    if script == [] then [] else script[1..]
  }

  /** The block, its window and the stream fit together. */
  predicate Reading(s: Text, base: nat, o: nat, p: nat) {
    base <= o <= p <= |s| && p <= base + BLOCK
  }

  /** No more octets can be had: a line has filled the block, or the stream is at its end. */
  predicate Stuck(s: Text, base: nat, o: nat, p: nat) {
    (p == base + BLOCK && o == base) || p == |s|
  }

  /** The start of the active block once there is room in it: a full block is left for one that starts with the window. */
  function NextBase(base: nat, o: nat, p: nat): nat {
    if p == base + BLOCK then o else base
  }

  /** How far the stream has come with one more piece. */
  function NextEnd(s: Text, base: nat, p: nat, script: seq<nat>): (q: nat)
    requires p < |s| && p < base + BLOCK
    ensures p < q <= |s| && q <= base + BLOCK
  {
    p + Piece(script, (if base + BLOCK < |s| then base + BLOCK else |s|) - p)
  }

  /** One more piece has come, into the block that has room for it. */
  predicate Fetched(s: Text, base: nat, o: nat, p: nat, script: seq<nat>, base': nat, p': nat, script': seq<nat>) {
    && !Stuck(s, base, o, p) && base' == NextBase(base, o, p) && p < |s| && p < base' + BLOCK
    && p' == NextEnd(s, base', p, script) && script' == Rest(script)
  }

  /** Where reading headers leaves off: with the window where it was when a line is malformed. */
  function Land(s: Text, base: nat, o: nat, p: nat, script: seq<nat>): nat
    requires Reading(s, base, o, p)
    decreases |s| - p
  {
    var r := Scan(s[o..p], 0, map[]);
    var o' := if r.step.Bad? then o else o + r.pos;
    if !r.step.More? || Stuck(s, base, o', p) then o'
    else
      var base' := NextBase(base, o', p);
      Land(s, base', o', NextEnd(s, base', p, script), Rest(script))
  }

  /** The line at `at` is whole in what has come. */
  predicate Come(s: Text, at: nat, p: nat)
    requires at <= |s|
  {
    Crlf(s, at) < |s| && Crlf(s, at) + 2 <= p
  }

  /** Where reading a head leaves off. */
  function LandHead(s: Text, at: nat, p: nat, verdict: Text -> Option<Errc>, script: seq<nat>): nat
    requires Reading(s, at, at, p)
    decreases |s| - p
  {
    if Come(s, at, p) then
      if verdict(LineAt(s, at)).Some? then at else Land(s, at, Crlf(s, at) + 2, p, script)
    else if Stuck(s, at, at, p) then at
    else LandHead(s, at, NextEnd(s, at, p, script), verdict, Rest(script))
  }

  /** The headers seen so far make no difference to how far a pass comes. */
  lemma {:induction false} ScanAnyHeaders(w: Text, pos: nat, hs: map<Text, Text>, hs': map<Text, Text>)
    requires pos <= |w|
    ensures Scan(w, pos, hs).step == Scan(w, pos, hs').step && Scan(w, pos, hs).pos == Scan(w, pos, hs').pos
    decreases |w| - pos
  {
    hide Crlf, Header, Scan;
    ScanStep(w, pos, hs);
    ScanStep(w, pos, hs');
    var e := Crlf(w, pos);
    if pos < e < |w| && Header(w[pos..e]).Some? {
      var kv := Header(w[pos..e]).value;
      ScanAnyHeaders(w, e + 2, hs[kv.0 := kv.1], hs'[kv.0 := kv.1]);
    }
  }

  /** One round of the loop over the headers. */
  lemma LandStep(s: Text, base: nat, o: nat, p: nat, script: seq<nat>, hs: map<Text, Text>)
    requires Reading(s, base, o, p)
    ensures var r := Scan(s[o..p], 0, hs);
            var o' := if r.step.Bad? then o else o + r.pos;
            && Reading(s, base, o', p)
            && if !r.step.More? || Stuck(s, base, o', p) then Land(s, base, o, p, script) == o'
               else
                 var base' := NextBase(base, o', p);
                 && Reading(s, base', o', p) && p < |s| && p < base' + BLOCK
                 && Land(s, base, o, p, script) == Land(s, base', o', NextEnd(s, base', p, script), Rest(script))
  {
    hide Scan, Piece;
    ScanAnyHeaders(s[o..p], 0, hs, map[]);
  }

  /** Reading goes on after a pass that has not come to an end, and one more piece. */
  lemma LandOn(s: Text, base: nat, o: nat, p: nat, script: seq<nat>, hs: map<Text, Text>, o': nat,
               base': nat, p': nat, script': seq<nat>)
    requires Reading(s, base, o, p) && Scan(s[o..p], 0, hs).step.More? && o' == o + Scan(s[o..p], 0, hs).pos
    requires Fetched(s, base, o', p, script, base', p', script')
    ensures Reading(s, base', o', p') && Land(s, base', o', p', script') == Land(s, base, o, p, script)
  {
    hide Scan, Piece;
    LandStep(s, base, o, p, script, hs);
  }

  /** Reading leaves off. */
  lemma LandEnd(s: Text, base: nat, o: nat, p: nat, script: seq<nat>, hs: map<Text, Text>, o': nat)
    requires Reading(s, base, o, p)
    requires var r := Scan(s[o..p], 0, hs);
             && o' == (if r.step.Bad? then o else o + r.pos)
             && (!r.step.More? || Stuck(s, base, o', p))
    ensures Land(s, base, o, p, script) == o'
  {
    hide Scan, Piece;
    LandStep(s, base, o, p, script, hs);
  }

  /** The first line is whole in the window when it has come. */
  lemma ComeInWindow(s: Text, at: nat, w: Text)
    requires HttpHead.Window(s, at, w)
    ensures Come(s, at, at + |w|) <==> Crlf(w, 0) < |w|
  {
    CrlfInWindow(s, at, w, 0);
    assert Crlf(w, 0) < |w| ==> EndsLine(w, Crlf(w, 0));
    hide Crlf;
  }

  lemma LandHeadOn(s: Text, at: nat, p: nat, verdict: Text -> Option<Errc>, script: seq<nat>, base': nat, p': nat, script': seq<nat>)
    requires Reading(s, at, at, p) && !Come(s, at, p) && Fetched(s, at, at, p, script, base', p', script')
    ensures base' == at && Reading(s, at, at, p')
    ensures LandHead(s, at, p', verdict, script') == LandHead(s, at, p, verdict, script)
  {
    hide Crlf, Piece;
  }

  lemma LandHeadEnd(s: Text, at: nat, p: nat, verdict: Text -> Option<Errc>, script: seq<nat>)
    requires Reading(s, at, at, p)
    ensures !Come(s, at, p) && Stuck(s, at, at, p) ==> LandHead(s, at, p, verdict, script) == at
    ensures Come(s, at, p) && verdict(LineAt(s, at)).Some? ==> LandHead(s, at, p, verdict, script) == at
    ensures Come(s, at, p) && verdict(LineAt(s, at)).None? ==>
              Reading(s, at, Crlf(s, at) + 2, p) && LandHead(s, at, p, verdict, script) == Land(s, at, Crlf(s, at) + 2, p, script)
  {
    hide Crlf, Land, LineAt;
  }

  // ---- A malformed header line ----

  /** The header line that starts at or after `o` and is not whole in what has come. */
  function Unfinished(s: Text, o: nat, p: nat): (u: nat)
    requires o <= |s|
    ensures o <= u <= |s| && !Come(s, u, p)
    decreases |s| - o
  {
    if Come(s, o, p) then Unfinished(s, Crlf(s, o) + 2, p) else o
  }

  /** What is not whole later was not whole before. */
  lemma {:induction false} UnfinishedOn(s: Text, o: nat, p: nat, q: nat)
    requires o <= |s| && p <= q
    ensures Unfinished(s, Unfinished(s, o, p), q) == Unfinished(s, o, q)
    decreases |s| - o
  {
    hide Crlf;
    if Come(s, o, p) {
      UnfinishedOn(s, Crlf(s, o) + 2, p, q);
    }
  }

  /** Reading from `o` comes to a malformed line at `stop` that ends at `end`. */
  ghost predicate Spoilt(s: Text, o: nat, stop: nat, end: nat) {
    && o <= stop <= |s|
    && Headers(s, o, map[]).end == Malformed && Headers(s, o, map[]).stop == stop
    && Crlf(s, stop) + 2 == end <= |s| && end <= stop + BLOCK
  }

  lemma {:induction false} HeadersAny(s: Text, o: nat, hs: map<Text, Text>, hs': map<Text, Text>)
    requires o <= |s|
    ensures Headers(s, o, hs).end == Headers(s, o, hs').end && Headers(s, o, hs).stop == Headers(s, o, hs').stop
    decreases |s| - o
  {
    if Fits(s, o) {
      HeadersStep(s, o, hs);
      HeadersStep(s, o, hs');
      var e := Crlf(s, o);
      if o < e && Header(s[o..e]).Some? {
        var kv := Header(s[o..e]).value;
        HeadersAny(s, e + 2, hs[kv.0 := kv.1], hs'[kv.0 := kv.1]);
      }
    }
  }

  /** The first line of what is spoilt fits a block; it is the malformed one, or what follows it is spoilt alike. */
  lemma SpoiltStep(s: Text, o: nat, stop: nat, end: nat)
    requires Spoilt(s, o, stop, end)
    ensures Fits(s, o) && (if o == stop then Crlf(s, o) + 2 == end else Spoilt(s, Crlf(s, o) + 2, stop, end))
  {
    hide Headers, Crlf, Header;
    if !Fits(s, o) {
      NoMoreHeaders(s, o, map[]);
    } else {
      HeadersStep(s, o, map[]);
      var e := Crlf(s, o);
      if o < e && Header(s[o..e]).Some? {
        var kv := Header(s[o..e]).value;
        HeadersAny(s, e + 2, map[kv.0 := kv.1], map[]);
      }
    }
  }

  /** Whatever is not whole before the malformed line is comes to that line as well. */
  lemma {:induction false} SpoiltOn(s: Text, o: nat, p: nat, stop: nat, end: nat)
    requires Spoilt(s, o, stop, end) && p < end
    ensures Spoilt(s, Unfinished(s, o, p), stop, end)
    decreases |s| - o
  {
    SpoiltStep(s, o, stop, end);
    hide Spoilt, Crlf;
    if Come(s, o, p) {
      SpoiltOn(s, Crlf(s, o) + 2, p, stop, end);
    }
  }

  lemma {:induction false} CrlfMonotone(s: Text, i: nat, j: nat)
    requires i <= j <= |s|
    ensures Crlf(s, i) <= Crlf(s, j)
    decreases j - i
  {
    if i < j {
      CrlfMonotone(s, i + 1, j);
    }
  }

  /** How far a pass over the window comes. */
  lemma {:induction false} ScanComes(s: Text, o: nat, w: Text, pos: nat, hs: map<Text, Text>)
    requires HttpHead.Window(s, o, w) && |w| <= BLOCK && pos <= |w|
    ensures var r := Scan(w, pos, hs);
            && (r.step.More? ==> o + r.pos == Unfinished(s, o + pos, o + |w|))
            && (r.step.Bad? ==> Come(s, o + r.pos, o + |w|))
    decreases |w| - pos
  {
    hide Crlf, Header, Scan, Fits, HttpHead.Window;
    ScanStep(w, pos, hs);
    CrlfInWindow(s, o, w, pos);
    var e := Crlf(w, pos);
    if e < |w| {
      SameLine(s, o, w, pos);
      assert Come(s, o + pos, o + |w|);
      if pos < e && Header(w[pos..e]).Some? {
        var kv := Header(w[pos..e]).value;
        ScanComes(s, o, w, e + 2, hs[kv.0 := kv.1]);
      }
    }
  }

  lemma SpoiltPass(s: Text, o: nat, w: Text, r: Scanned, stop: nat, end: nat)
    requires Spoilt(s, o, stop, end) && o + |w| <= |s| && r.pos <= |w| && Agrees(s, o, w, 0, map[], r)
    requires r.step.More? ==> !Come(s, o + r.pos, o + |w|)
    requires r.step.Bad? ==> Come(s, o + r.pos, o + |w|)
    ensures r.step == if o + |w| >= end then Bad else More
  {
    hide Crlf, Header, Headers, Fits;
    assert o + 0 == o;
    match r.step
    case Done =>
    case Bad =>
    case More => CrlfMonotone(s, o + r.pos, stop);
  }

  /** A pass meets the malformed line when all of it has come, and not before. */
  lemma SpoiltScan(s: Text, o: nat, p: nat, stop: nat, end: nat)
    requires Spoilt(s, o, stop, end) && o <= p <= |s| && p <= o + BLOCK
    ensures var r := Scan(s[o..p], 0, map[]);
            if p >= end then r.step == Bad else r.step == More && o + r.pos == Unfinished(s, o, p)
  {
    hide Crlf, Header, Scan, Headers, Fits, Unfinished, Spoilt, Agrees, Come;
    var w := s[o..p];
    ScanAgrees(s, o, w, 0, map[]);
    ScanComes(s, o, w, 0, map[]);
    SpoiltPass(s, o, w, Scan(w, 0, map[]), stop, end);
  }

  /** One round of the loop, with a malformed line to come. */
  lemma SpoiltLand(s: Text, base: nat, o: nat, p: nat, script: seq<nat>, stop: nat, end: nat)
    requires Reading(s, base, o, p) && Spoilt(s, o, stop, end)
    ensures p >= end ==> Land(s, base, o, p, script) == o
    ensures p < end ==>
              var u := Unfinished(s, o, p);
              var base' := NextBase(base, u, p);
              && Spoilt(s, u, stop, end) && (p == base + BLOCK ==> base < u)
              && Reading(s, base', u, p) && p < base' + BLOCK
              && Land(s, base, o, p, script) == Land(s, base', u, NextEnd(s, base', p, script), Rest(script))
  {
    hide Land, Scan, Crlf, Unfinished, Rest, NextEnd;
    SpoiltScan(s, o, p, stop, end);
    LandStep(s, base, o, p, script, map[]);
    if p < end {
      SpoiltOn(s, o, p, stop, end);
      SpoiltStep(s, Unfinished(s, o, p), stop, end);
    }
  }

  /**
   * What the window starts with when the block that takes the octet before `end` has
   * just been begun: that block starts with the line that was not whole then.
   */
  function Carried(s: Text, base: nat, o: nat, end: nat): nat
    requires o <= |s|
    decreases |s| - base
  {
    var u := Unfinished(s, o, base + BLOCK);
    if end <= base + BLOCK then o
    else if u <= base || base >= |s| then u
    else Carried(s, u, u, end)
  }

  /** The lowest place to leave off at: with the line before the malformed one given back if it is still in the window. */
  function Lowest(s: Text, base: nat, o: nat, p: nat, end: nat): nat
    requires o <= |s|
  {
    if p >= end then o else Carried(s, base, Unfinished(s, o, p), end)
  }

  /** One more piece in the same block can only move the lowest place up, and only if it stops short of `end`. */
  lemma CarriedOn(s: Text, base: nat, o: nat, q: nat, end: nat)
    requires o <= |s| && q <= base + BLOCK
    ensures Carried(s, base, o, end) <= Lowest(s, base, o, q, end)
    ensures q >= end || end > base + BLOCK ==> Carried(s, base, o, end) == Lowest(s, base, o, q, end)
  {
    UnfinishedOn(s, o, q, base + BLOCK);
    hide Unfinished;
  }

  /** A block that starts with the window. */
  lemma CarriedOver(s: Text, base: nat, o: nat, p: nat, end: nat)
    requires o <= |s| && p == base + BLOCK < end
    requires base < Unfinished(s, o, p) && base < |s|
    ensures Carried(s, base, Unfinished(s, o, p), end) == Carried(s, Unfinished(s, o, p), Unfinished(s, o, p), end)
  {
    UnfinishedOn(s, o, p, p);
    hide Unfinished;
  }

  /** However the rest of the stream is cut up, reading leaves off between the lowest place and the malformed line. */
  lemma {:induction false} LandsBetween(s: Text, base: nat, o: nat, p: nat, script: seq<nat>, stop: nat, end: nat)
    requires Reading(s, base, o, p) && Spoilt(s, o, stop, end)
    ensures Lowest(s, base, o, p, end) <= Land(s, base, o, p, script) <= stop
    ensures script == [] ==> Land(s, base, o, p, script) == Lowest(s, base, o, p, end)
    decreases |s| - p
  {
    hide Land, Crlf, Unfinished, Carried;
    SpoiltLand(s, base, o, p, script, stop, end);
    if p < end {
      var u := Unfinished(s, o, p);
      var base' := NextBase(base, u, p);
      var q := NextEnd(s, base', p, script);
      hide Spoilt;
      LandsBetween(s, base', u, q, Rest(script), stop, end);
      if p == base + BLOCK {
        CarriedOver(s, base, o, p, end);
      }
      CarriedOn(s, base', u, q, end);
      Bounded(s, u, stop, end);
    }
  }

  lemma Bounded(s: Text, u: nat, stop: nat, end: nat)
    requires Spoilt(s, u, stop, end)
    ensures u <= stop < end <= |s|
  {}

  /** One octet before its end only the malformed line is not whole. */
  lemma {:induction false} OnlyTheLast(s: Text, o: nat, stop: nat, end: nat)
    requires Spoilt(s, o, stop, end)
    ensures 0 < end && Unfinished(s, o, end - 1) == stop
    decreases |s| - o
  {
    SpoiltStep(s, o, stop, end);
    Bounded(s, o, stop, end);
    if o < stop {
      Bounded(s, Crlf(s, o) + 2, stop, end);
      OnlyTheLast(s, Crlf(s, o) + 2, stop, end);
    }
  }

  /** The next `n` pieces are single octets. */
  predicate Ones(script: seq<nat>, n: nat) {
    |script| >= n && forall i :: 0 <= i < n ==> script[i] == 1
  }

  lemma OnesStep(s: Text, base: nat, p: nat, script: seq<nat>, n: nat)
    requires Ones(script, n) && n > 0 && p < |s| && p < base + BLOCK
    ensures NextEnd(s, base, p, script) == p + 1 && Ones(Rest(script), n - 1)
  {}

  /** Octet by octet, reading leaves off at the malformed line. */
  lemma {:induction false} OctetByOctet(s: Text, base: nat, o: nat, p: nat, script: seq<nat>, stop: nat, end: nat)
    requires Reading(s, base, o, p) && Spoilt(s, o, stop, end) && p < end
    requires Ones(script, end - p)
    ensures Land(s, base, o, p, script) == stop
    decreases |s| - p
  {
    hide Land, Crlf, Unfinished, NextEnd, Rest, Ones, Headers;
    SpoiltLand(s, base, o, p, script, stop, end);
    var u := Unfinished(s, o, p);
    var base' := NextBase(base, u, p);
    OnesStep(s, base', p, script, end - p);
    if p + 1 < end {
      OctetByOctet(s, base', u, p + 1, Rest(script), stop, end);
    } else {
      OnlyTheLast(s, o, stop, end);
      SpoiltLand(s, base', u, p + 1, Rest(script), stop, end);
    }
  }

  // ---- From the first line on ----

  /** Where the header lines of the head at `at` start. */
  function HeadersAt(s: Text, at: nat): nat
    requires at <= |s|
  {
    Crlf(s, at) + 2
  }

  /** The head at `at` has a malformed header line at `stop` that ends at `end`. */
  ghost predicate SpoiltHead(s: Text, at: nat, verdict: Text -> Option<Errc>, stop: nat, end: nat) {
    && at <= |s| && Fits(s, at) && verdict(LineAt(s, at)).None?
    && Spoilt(s, HeadersAt(s, at), stop, end)
  }

  lemma OtherwiseMalformed(s: Text, at: nat, verdict: Text -> Option<Errc>, failure: Option<Errc>)
    requires at <= |s|
    ensures !Fits(s, at) || verdict(LineAt(s, at)).Some? ==> !WholeHead(s, at, verdict, failure).rest.end.Malformed?
  {
    hide Crlf, Headers, Code;
  }

  lemma MalformedIsBehind(s: Text, at: nat, verdict: Text -> Option<Errc>, failure: Option<Errc>)
    requires at <= |s| && WholeHead(s, at, verdict, failure).rest.end.Malformed?
    ensures Fits(s, at) && verdict(LineAt(s, at)).None? && HeadersAt(s, at) <= |s|
    ensures WholeHead(s, at, verdict, failure).rest == Headers(s, HeadersAt(s, at), map[])
  {
    hide Crlf, Headers, Code;
    OtherwiseMalformed(s, at, verdict, failure);
  }

  lemma {:induction false} MalformedFits(s: Text, o: nat, hs: map<Text, Text>)
    requires o <= |s| && Headers(s, o, hs).end == Malformed
    ensures Fits(s, Headers(s, o, hs).stop)
    decreases |s| - o
  {
    hide Crlf, Header, Headers;
    if !Fits(s, o) {
      NoMoreHeaders(s, o, hs);
    } else {
      HeadersStep(s, o, hs);
      var e := Crlf(s, o);
      if o < e && Header(s[o..e]).Some? {
        var kv := Header(s[o..e]).value;
        MalformedFits(s, e + 2, hs[kv.0 := kv.1]);
      }
    }
  }

  lemma SpoiltFrom(s: Text, o: nat)
    requires o <= |s| && Headers(s, o, map[]).end == Malformed
    ensures var stop := Headers(s, o, map[]).stop; Spoilt(s, o, stop, Crlf(s, stop) + 2)
  {
    hide Headers;
    MalformedFits(s, o, map[]);
    var e := Crlf(s, Headers(s, o, map[]).stop);
    assert EndsLine(s, e);
    hide Crlf;
  }

  lemma MalformedIsSpoilt(s: Text, at: nat, verdict: Text -> Option<Errc>, failure: Option<Errc>)
    requires at <= |s| && WholeHead(s, at, verdict, failure).rest.end.Malformed?
    ensures var stop := WholeHead(s, at, verdict, failure).rest.stop;
            SpoiltHead(s, at, verdict, stop, Crlf(s, stop) + 2)
  {
    hide Crlf, Headers, WholeHead, Fits, LineAt, Spoilt, HeadersAt;
    MalformedIsBehind(s, at, verdict, failure);
    SpoiltFrom(s, HeadersAt(s, at));
  }

  /** One round of the loop over the first line. */
  lemma HeadStep(s: Text, at: nat, p: nat, verdict: Text -> Option<Errc>, script: seq<nat>, stop: nat, end: nat)
    requires Reading(s, at, at, p) && SpoiltHead(s, at, verdict, stop, end)
    ensures var h := HeadersAt(s, at);
            && h <= stop < end <= |s|
            && if h <= p then Reading(s, at, h, p) && LandHead(s, at, p, verdict, script) == Land(s, at, h, p, script)
               else
                 && p < |s| && p < at + BLOCK && !Come(s, h, p)
                 && LandHead(s, at, p, verdict, script) == LandHead(s, at, NextEnd(s, at, p, script), verdict, Rest(script))
  {
    hide Crlf, Land, Headers, NextEnd, Rest;
  }

  /** However the stream is cut up, reading the head leaves off between these two places. */
  lemma {:induction false} HeadLandsBetween(s: Text, at: nat, p: nat, verdict: Text -> Option<Errc>, script: seq<nat>, stop: nat, end: nat)
    requires Reading(s, at, at, p) && SpoiltHead(s, at, verdict, stop, end)
    ensures var lowest := Lowest(s, at, HeadersAt(s, at), p, end);
            && lowest <= LandHead(s, at, p, verdict, script) <= stop
            && (script == [] ==> LandHead(s, at, p, verdict, script) == lowest)
    decreases |s| - p
  {
    var h := HeadersAt(s, at);
    HeadStep(s, at, p, verdict, script, stop, end);
    if h <= p {
      hide Crlf, LandHead, Land, Carried, Unfinished;
      LandsBetween(s, at, h, p, script, stop, end);
    } else {
      var q := NextEnd(s, at, p, script);
      hide Crlf, LandHead, Land, Carried, Headers;
      HeadLandsBetween(s, at, q, verdict, Rest(script), stop, end);
      CarriedOn(s, at, h, q, end);
    }
  }

  /** Octet by octet, it leaves off at the malformed line. */
  lemma {:induction false} HeadOctetByOctet(s: Text, at: nat, p: nat, verdict: Text -> Option<Errc>, script: seq<nat>, stop: nat, end: nat)
    requires Reading(s, at, at, p) && SpoiltHead(s, at, verdict, stop, end) && p < end
    requires Ones(script, end - p)
    ensures LandHead(s, at, p, verdict, script) == stop
    decreases |s| - p
  {
    HeadStep(s, at, p, verdict, script, stop, end);
    var h := HeadersAt(s, at);
    if h <= p {
      hide Crlf, LandHead, Land, Headers, Come, NextEnd, Rest, Ones, HeadersAt, Spoilt;
      OctetByOctet(s, at, h, p, script, stop, end);
    } else {
      hide Crlf, LandHead, Land, Headers, Come, NextEnd, Rest, Ones, HeadersAt, SpoiltHead;
      OnesStep(s, at, p, script, end - p);
      HeadOctetByOctet(s, at, p + 1, verdict, Rest(script), stop, end);
    }
  }

  /** Some way of cutting up the stream leaves off at the malformed line. */
  lemma ReachesIt(s: Text, at: nat, p: nat, verdict: Text -> Option<Errc>, stop: nat, end: nat) returns (script: seq<nat>)
    requires Reading(s, at, at, p) && SpoiltHead(s, at, verdict, stop, end) && p < end
    ensures LandHead(s, at, p, verdict, script) == stop
  {
    hide LandHead, Reading, SpoiltHead;
    script := seq(end - p, _ => 1);
    HeadOctetByOctet(s, at, p, verdict, script, stop, end);
  }

  /** When the malformed line has come as a whole before, nothing is left to be decided. */
  lemma AllCome(s: Text, at: nat, p: nat, verdict: Text -> Option<Errc>, script: seq<nat>, stop: nat, end: nat)
    requires Reading(s, at, at, p) && SpoiltHead(s, at, verdict, stop, end) && p >= end
    ensures LandHead(s, at, p, verdict, script) == HeadersAt(s, at)
  {
    HeadStep(s, at, p, verdict, script, stop, end);
    hide LandHead, Land, Crlf;
    SpoiltLand(s, at, HeadersAt(s, at), p, script, stop, end);
  }

  lemma HeadLands(s: Text, at: nat, p: nat, verdict: Text -> Option<Errc>, stop: nat, end: nat)
    requires Reading(s, at, at, p) && SpoiltHead(s, at, verdict, stop, end)
    ensures var lowest := Lowest(s, at, HeadersAt(s, at), p, end);
            && (forall script :: lowest <= LandHead(s, at, p, verdict, script) <= stop)
            && LandHead(s, at, p, verdict, []) == lowest
  {
    HeadStep(s, at, p, verdict, [], stop, end);
    hide LandHead, SpoiltHead, Lowest, HeadersAt;
    forall script ensures Lowest(s, at, HeadersAt(s, at), p, end) <= LandHead(s, at, p, verdict, script) <= stop {
      HeadLandsBetween(s, at, p, verdict, script, stop, end);
    }
    HeadLandsBetween(s, at, p, verdict, [], stop, end);
  }

  /**
   * Where reading leaves off in a head with a malformed header line: between that line
   * and the line the window starts with if the last piece is as large as it can be.
   * Every way of cutting up the stream leaves off at the malformed line exactly when
   * these two are the same; some way does unless they differ and the line had come
   * as a whole before.
   */
  lemma MalformedExactly(s: Text, at: nat, p: nat, verdict: Text -> Option<Errc>, failure: Option<Errc>)
    requires Reading(s, at, at, p) && WholeHead(s, at, verdict, failure).rest.end.Malformed?
    ensures var stop := WholeHead(s, at, verdict, failure).rest.stop;
            var lowest := Lowest(s, at, HeadersAt(s, at), p, Crlf(s, stop) + 2);
            && (forall script :: lowest <= LandHead(s, at, p, verdict, script) <= stop)
            && LandHead(s, at, p, verdict, []) == lowest
            && ((exists script :: LandHead(s, at, p, verdict, script) == stop) <==> p < Crlf(s, stop) + 2 || lowest == stop)
            && ((forall script :: LandHead(s, at, p, verdict, script) == stop) <==> lowest == stop)
  {
    MalformedIsSpoilt(s, at, verdict, failure);
    hide WholeHead, LandHead, SpoiltHead, Lowest, HeadersAt, Crlf;
    var stop := WholeHead(s, at, verdict, failure).rest.stop;
    HeadLands(s, at, p, verdict, stop, Crlf(s, stop) + 2);
    if p < Crlf(s, stop) + 2 {
      var script := ReachesIt(s, at, p, verdict, stop, Crlf(s, stop) + 2);
    } else {
      forall script ensures LandHead(s, at, p, verdict, script) == LandHead(s, at, p, verdict, []) {
        AllCome(s, at, p, verdict, script, stop, Crlf(s, stop) + 2);
        AllCome(s, at, p, verdict, [], stop, Crlf(s, stop) + 2);
      }
    }
  }

  // ---- Two deliveries of one stream ----

  const SPOILT_STREAM: Text := [71, 13, 10, 65, 58, 49, 13, 10, 66, 13, 10]

  lemma SpoiltStreamLines()
    ensures var s := SPOILT_STREAM;
            Crlf(s, 0) == 1 && Crlf(s, 3) == 6 && Crlf(s, 8) == 9
            && Header(s[3..6]) == Some(([65], [49])) && Header(s[8..9]) == None
  {
    var s := SPOILT_STREAM;
    CrlfFrom(s, 0, 1);
    CrlfFrom(s, 3, 6);
    CrlfFrom(s, 8, 9);
    var line: Text := [65, 58, 49];
    assert s[3..6] == line && line[1] == COLON && line[0] != COLON && line[2] != SPACE;
    assert Find(line, COLON, 0) == 1 && FindNot(line, SPACE, 2) == 2;
    assert line[..1] == [65] && line[2..] == [49];
    var rest: Text := [66];
    assert s[8..9] == rest && Find(rest, COLON, 0) == 1;
  }

  lemma SpoiltStreamHead(verdict: Text -> Option<Errc>)
    requires verdict([71]) == None
    ensures SpoiltHead(SPOILT_STREAM, 0, verdict, 8, 11) && HeadersAt(SPOILT_STREAM, 0) == 3
  {
    SpoiltStreamLines();
    var s := SPOILT_STREAM;
    assert s[0..1] == [71];
    hide Crlf, Header, Headers;
    HeadersStep(s, 3, map[]);
    HeadersStep(s, 8, map[[65] := [49]]);
  }

  /**
   * A first line, one good header line and a malformed one: delivered as one piece
   * reading leaves off before the good line, delivered octet by octet behind it.
   */
  lemma TwoDeliveries(verdict: Text -> Option<Errc>)
    requires verdict([71]) == None
    ensures LandHead(SPOILT_STREAM, 0, 0, verdict, []) == 3
    ensures LandHead(SPOILT_STREAM, 0, 0, verdict, seq(11, _ => 1)) == 8
  {
    SpoiltStreamHead(verdict);
    SpoiltStreamLines();
    hide Crlf, Header, Headers, LandHead, SpoiltHead, Land;
    HeadLandsBetween(SPOILT_STREAM, 0, 0, verdict, [], 8, 11);
    HeadOctetByOctet(SPOILT_STREAM, 0, 0, verdict, seq(11, _ => 1), 8, 11);
  }
}
