/**
 * `Message::read`: the head is read into a chain of blocks and parsed in a window
 * of the active block, in whatever pieces the reader delivers. When the block is
 * full the unconsumed tail is carried over to the next one, so that what was parsed
 * can stay where it is.
 */
module HttpMessage {
  import opened Basics
  import opened HttpHead
  import Delivery = HttpDelivery

  /** A source of octets. It delivers the stream in pieces by a script, and then fails or delivers nothing. */
  class Reader {
    const stream: Text
    const failure: Option<Errc>
    var pos: nat
    var script: seq<nat>

    constructor (stream: Text, failure: Option<Errc>, script: seq<nat>)
      ensures this.stream == stream && this.failure == failure && pos == 0 && this.script == script
    {
      this.stream, this.failure, pos, this.script := stream, failure, 0, script;
    }

    method Read(dst: array<byte>, off: nat, cap: nat) returns (r: Result<nat>)
      requires pos <= |stream| && cap > 0 && off + cap <= dst.Length
      modifies this`pos, this`script, dst
      ensures old(pos) == |stream| ==>
                pos == old(pos) && script == old(script) && r == (if failure.Some? then Err(failure.value) else Ok(0))
      ensures old(pos) < |stream| ==>
                && r == Ok(Delivery.Piece(old(script), if cap < |stream| - old(pos) then cap else |stream| - old(pos)))
                && pos == old(pos) + r.value <= |stream| && script == Delivery.Rest(old(script))
      ensures forall x :: 0 <= x < dst.Length ==>
                dst[x] == if off <= x < off + pos - old(pos) then stream[old(pos) + x - off] else old(dst[x])
    {
      if pos == |stream| {
        return if failure.Some? then Err(failure.value) else Ok(0);
      }
      var n := Delivery.Piece(script, if cap < |stream| - pos then cap else |stream| - pos);
      script := Delivery.Rest(script);
      forall i | 0 <= i < n {
        dst[off + i] := stream[pos + i];
      }
      pos := pos + n;
      r := Ok(n);
    }
  }

  /** A stretch of a block, the block named by its place in the chain. */
  datatype View = View(block: nat, off: nat, len: nat)

  /** The views of one header. */
  datatype Field = Field(key: View, value: View)

  const BLOCK_PAIR := BLOCK + 1

  /** How many octets are at least behind the active block after so many rotates. */
  predicate Behind(taken: nat, rotates: nat, carried: nat) {
    && taken >= BLOCK_PAIR * (rotates / 2)
    && (rotates > 0 ==> carried <= BLOCK && taken >= BLOCK - carried + BLOCK_PAIR * ((rotates - 1) / 2))
  }

  /**
   * The chain grows slowly: two rotates in a row put at least 4097 octets of the
   * head behind the active block, because a line that is carried over has to be
   * finished before the next rotate.
   */
  ghost predicate GrowsSlowly(s: Text, origin: nat, start: nat, rotates: nat, winBegin: nat, carried: nat) {
    && start + winBegin <= origin <= |s|
    && Behind(origin - winBegin - start, rotates, carried)
    && (rotates > 0 ==> if winBegin > 0 then winBegin > carried else Crlf(s, origin) + 2 > origin + carried)
  }

  /** Rotating with no line end in the window. */
  lemma RotateGrows(s: Text, origin: nat, start: nat, rotates: nat, winBegin: nat, carried: nat, w: Text)
    requires GrowsSlowly(s, origin, start, rotates, winBegin, carried) && 0 < winBegin <= BLOCK
    requires HttpHead.Window(s, origin, w) && |w| == BLOCK - winBegin && Crlf(w, 0) == |w|
    ensures GrowsSlowly(s, origin, start, rotates + 1, 0, |w|)
  {
    hide Crlf, Behind;
    CrlfInWindow(s, origin, w, 0);
    BehindStep(origin - winBegin - start, rotates, carried, winBegin);
  }

  /** Consuming nothing, or a whole line. */
  lemma ConsumeGrows(s: Text, origin: nat, start: nat, rotates: nat, winBegin: nat, carried: nat, n: nat)
    requires GrowsSlowly(s, origin, start, rotates, winBegin, carried) && origin + n <= |s|
    requires n == 0 || origin + n >= Crlf(s, origin) + 2
    ensures GrowsSlowly(s, origin + n, start, rotates, winBegin + n, carried)
  {
    hide Crlf, Behind;
  }
  /** One more rotate, after all that was carried over has been consumed, and an octet more. */
  lemma BehindStep(taken: nat, rotates: nat, carried: nat, winBegin: nat)
    requires Behind(taken, rotates, carried) && 0 < winBegin <= BLOCK
    requires rotates > 0 ==> winBegin > carried
    ensures Behind(taken + winBegin, rotates + 1, BLOCK - winBegin)
  {}

  class Message {
    /** The verdict on a first line: none when it is accepted. */
    const verdict: Text -> Option<Errc>

    var buffer: seq<array<byte>>
    ghost var repr: set<array<byte>>
    var winBlock: nat
    var winBegin: nat
    var winEnd: nat
    var line: View
    var headers: map<Text, Field>
    var content: View

    /** The position in the stream of what is at `winBegin`, and where the current head starts. */
    ghost var origin: nat
    ghost var start: nat
    /** How much the last rotate carried over. */
    ghost var carried: nat

    ghost predicate Shape()
      reads `buffer, `repr, `winBlock, `winBegin, `winEnd
    {
      && winBlock < |buffer| && winBegin <= winEnd <= BLOCK
      && (forall i :: 0 <= i < |buffer| ==> buffer[i] in repr && buffer[i].Length == BLOCK)
      && forall i, j :: 0 <= i < j < |buffer| ==> buffer[i] != buffer[j]
    }

    /** The window holds what comes next in the stream, up to what was delivered. */
    ghost predicate Synced(reader: Reader)
      reads `buffer, `repr, `winBlock, `winBegin, `winEnd, `origin, if winBlock < |buffer| then {buffer[winBlock]} else {}, reader`pos
    {
      && Shape()
      && winBegin <= origin && reader.pos == origin + winEnd - winBegin <= |reader.stream|
      && forall x :: winBegin <= x < winEnd ==> buffer[winBlock][x] == reader.stream[origin + x - winBegin]
    }

    /** The position in the stream of what is at the start of the active block. */
    ghost function Base(): nat
      requires winBegin <= origin
      reads `winBegin, `origin
    {
      origin - winBegin
    }

    function Window(): Text
      requires Shape()
      reads `buffer, `repr, `winBlock, `winBegin, `winEnd, if winBlock < |buffer| then {buffer[winBlock]} else {}
    {
      buffer[winBlock][winBegin..winEnd]
    }

    /** The view lies in memory that has been filled. */
    ghost predicate InPlace(v: View)
      reads `buffer, `winBlock, `winEnd
    {
      && v.block <= winBlock < |buffer| && v.off + v.len <= buffer[v.block].Length
      && (v.block == winBlock ==> v.off + v.len <= winEnd)
    }

    function TextOf(v: View): Text
      reads `buffer, if v.block < |buffer| then {buffer[v.block]} else {}
    {
      if v.block < |buffer| && v.off + v.len <= buffer[v.block].Length then buffer[v.block][v.off..v.off + v.len] else []
    }

    /** The view shows this text. */
    ghost predicate Sees(v: View, t: Text)
      reads `buffer, `winBlock, `winEnd, buffer
    {
      InPlace(v) && TextOf(v) == t
    }

    /** The views of the headers still show these headers. */
    ghost predicate Shows(hs: map<Text, Text>)
      reads `headers, `buffer, `winBlock, `winEnd, buffer
    {
      && headers.Keys == hs.Keys
      && forall k :: k in headers ==> Holds(headers[k], k, hs[k])
    }

    ghost predicate Holds(f: Field, key: Text, value: Text)
      reads `buffer, `winBlock, `winEnd, buffer
    {
      Sees(f.key, key) && Sees(f.value, value)
    }

    ghost predicate Slow(reader: Reader)
      reads `origin, `start, `carried, `winBlock, `winBegin
    {
      GrowsSlowly(reader.stream, origin, start, winBlock, winBegin, carried)
    }

    /** Have a block behind the active one. */
    method Grow()
      requires Shape()
      modifies this`buffer, this`repr
      ensures Shape() && winBlock + 1 < |buffer| && old(buffer) <= buffer && fresh(repr - old(repr))
      ensures Window() == old(Window())
      ensures forall v: View :: old(InPlace(v)) ==> InPlace(v) && TextOf(v) == old(TextOf(v))
      ensures |buffer| == if old(winBlock) + 1 == |old(buffer)| then |old(buffer)| + 1 else |old(buffer)|
    {
      if winBlock + 1 == |buffer| {
        var block := new byte[BLOCK];
        buffer, repr := buffer + [block], repr + {block};
      }
    }

    /** Copy the unconsumed tail to the front of the next block and go on there. */
    method CarryTail()
      requires Shape() && winBlock + 1 < |buffer| && winEnd == BLOCK
      modifies this`winBlock, this`winBegin, this`winEnd, this`carried, buffer[winBlock + 1]
      ensures Shape() && winBlock == old(winBlock) + 1 && winBegin == 0 && winEnd == carried == BLOCK - old(winBegin)
      ensures Window() == old(Window())
      ensures forall v: View :: old(InPlace(v)) ==> InPlace(v) && TextOf(v) == old(TextOf(v))
    {
      var tail := winEnd - winBegin;
      winBlock := winBlock + 1;
      var from, to := buffer[winBlock - 1], buffer[winBlock];
      forall x | 0 <= x < tail {
        to[x] := from[winBegin + x];
      }
      winBegin, winEnd, carried := 0, tail, tail;
      assert Window() == to[..tail] == old(from[winBegin..winEnd]);
      forall v: View | old(InPlace(v)) ensures InPlace(v) && TextOf(v) == old(TextOf(v)) {
        assert buffer[v.block] != to;
      }
    }

    /** Carry the unconsumed tail into the next block. */
    method Rotate() returns (ec: Option<Errc>)
      requires Shape() && winEnd == BLOCK
      modifies this`buffer, this`winBlock, this`winBegin, this`winEnd, this`carried, this`repr, repr
      ensures Shape() && |buffer| == (if ec.None? && old(winBlock) + 1 == |old(buffer)| then |old(buffer)| + 1 else |old(buffer)|)
      ensures ec == if old(winBegin) == 0 then Some(IllegalByteSequence) else None
      ensures Window() == old(Window())
      ensures ec.Some? ==> unchanged(this) && unchanged(old(repr))
      ensures ec.None? ==>
                && winBlock == old(winBlock) + 1 && winBegin == 0 && winEnd == carried == BLOCK - old(winBegin)
                && fresh(repr - old(repr))
      ensures forall v: View :: old(InPlace(v)) ==> InPlace(v) && TextOf(v) == old(TextOf(v))
    {
      if winEnd - winBegin == BLOCK {
        return Some(IllegalByteSequence);
      }
      Grow();
      hide TextOf;
      CarryTail();
      ec := None;
    }

    /** Rotate if the block is full. */
    method MakeRoom(reader: Reader) returns (ec: Option<Errc>)
      requires Synced(reader) && Crlf(Window(), 0) == |Window()| && Slow(reader)
      modifies this`buffer, this`winBlock, this`winBegin, this`winEnd, this`carried, this`repr, repr
      ensures Synced(reader) && Slow(reader) && Window() == old(Window())
      ensures ec.None? <==> winEnd < BLOCK
      ensures ec.Some? ==> ec == Some(IllegalByteSequence) && |Window()| == BLOCK
      ensures ec.Some? <==> old(winEnd) == BLOCK && old(winBegin) == 0
      ensures ec.None? ==> Base() == Delivery.NextBase(old(Base()), origin, reader.pos)
      ensures winBlock >= old(winBlock)
      ensures |buffer| == if |old(buffer)| <= winBlock then winBlock + 1 else |old(buffer)|
      ensures fresh(repr - old(repr))
      ensures forall v: View :: old(InPlace(v)) ==> InPlace(v) && TextOf(v) == old(TextOf(v))
    {
      if winEnd < BLOCK {
        return None;
      }
      SyncedWindow(reader);
      hide Crlf, GrowsSlowly;
      if winBegin > 0 {
        RotateGrows(reader.stream, origin, start, winBlock, winBegin, carried, Window());
      }
      ghost var w := Window();
      ec := Rotate();
      if ec.None? {
        WindowSynced(reader, w);
      }
    }

    lemma WindowSynced(reader: Reader, w: Text)
      requires Shape() && w == Window() && winBegin == 0 && HttpHead.Window(reader.stream, origin, w)
      requires reader.pos == origin + |w|
      ensures Synced(reader)
    {
      forall x | 0 <= x < winEnd ensures buffer[winBlock][x] == reader.stream[origin + x] {
        assert buffer[winBlock][x] == w[x];
      }
    }

    /** Read into the room behind the window. */
    method Fetch(reader: Reader) returns (ec: Option<Errc>)
      requires Synced(reader) && winEnd < BLOCK
      modifies this`winEnd, buffer[winBlock], reader`pos, reader`script
      ensures Synced(reader)
      ensures ec.Some? <==> old(reader.pos) == |reader.stream|
      ensures ec.None? ==>
                && reader.pos == Delivery.NextEnd(reader.stream, Base(), old(reader.pos), old(reader.script))
                && reader.script == Delivery.Rest(old(reader.script))
      ensures ec.Some? ==> reader.pos == old(reader.pos) == |reader.stream| && Window() == old(Window())
      ensures ec.Some? ==> ec == Code(Ended, reader.failure)
      ensures ec.None? ==> reader.pos > old(reader.pos)
      ensures forall v: View :: old(InPlace(v)) ==> InPlace(v) && TextOf(v) == old(TextOf(v))
    {
      var res := reader.Read(buffer[winBlock], winEnd, BLOCK - winEnd);
      if res.Err? {
        return Some(res.error);
      }
      if res.value == 0 {
        return Some(NotConnected);
      }
      winEnd := winEnd + res.value;
      ec := None;
    }

    /** Fetch more octets into the window; nothing that can be seen through a view is touched. */
    method Fill(reader: Reader) returns (ec: Option<Errc>)
      requires Synced(reader) && Crlf(Window(), 0) == |Window()| && Slow(reader)
      modifies this`buffer, this`winBlock, this`winBegin, this`winEnd, this`carried, this`repr, repr
      modifies reader`pos, reader`script
      ensures Synced(reader) && Slow(reader)
      ensures ec.Some? ==> !Fits(reader.stream, origin) && ec == Code(NoLine(reader.stream, origin), reader.failure)
      ensures ec.Some? <==> Delivery.Stuck(reader.stream, old(Base()), origin, old(reader.pos))
      ensures ec.None? ==>
                Delivery.Fetched(reader.stream, old(Base()), origin, old(reader.pos), old(reader.script), Base(), reader.pos, reader.script)
      ensures ec.None? ==> reader.pos > old(reader.pos)
      ensures winBlock >= old(winBlock)
      ensures |buffer| == if |old(buffer)| <= winBlock then winBlock + 1 else |old(buffer)|
      ensures fresh(repr - old(repr))
      ensures forall v: View :: old(InPlace(v)) ==> InPlace(v) && TextOf(v) == old(TextOf(v))
    {
      hide Crlf;
      ec := MakeRoom(reader);
      if ec.Some? {
        SyncedWindow(reader);
        FullWindow(reader.stream, origin, Window());
        return;
      }
      assert buffer[winBlock] in buffer;
      ec := Fetch(reader);
      if ec.Some? {
        SyncedWindow(reader);
        LastWindow(reader.stream, origin, Window());
      }
    }

    lemma WindowReading(reader: Reader)
      requires Synced(reader)
      ensures Shape() && winBegin <= origin && Base() == origin - winBegin
      ensures Delivery.Reading(reader.stream, Base(), origin, reader.pos)
    {}

    lemma SyncedWindow(reader: Reader)
      requires Synced(reader)
      ensures Shape() && HttpHead.Window(reader.stream, origin, Window())
      ensures |Window()| == winEnd - winBegin <= BLOCK && reader.pos == origin + |Window()| <= |reader.stream|
    {}

    constructor (verdict: Text -> Option<Errc>)
      ensures this.verdict == verdict && Shape() && |buffer| == 1 && fresh(repr)
      ensures winBegin == winEnd == 0 && origin == 0
    {
      this.verdict := verdict;
      var block := new byte[BLOCK];
      buffer, repr := [block], {block};
      winBlock, winBegin, winEnd := 0, 0, 0;
      line, headers, content := View(0, 0, 0), map[], View(0, 0, 0);
      origin, start, carried := 0, 0, 0;
    }

    /** On entry the unconsumed window moves to the front of the chain. */
    method Compact(reader: Reader)
      requires Synced(reader)
      modifies this`buffer, this`winBlock, this`winBegin, this`winEnd, this`start, repr
      ensures Synced(reader) && winBlock == 0 && winBegin == 0 && winEnd == old(winEnd - winBegin) && start == origin
      ensures |buffer| == |old(buffer)|
    {
      start := origin;
      var leftover := winEnd - winBegin;
      var block := buffer[winBlock];
      if winBegin != 0 {
        forall x | 0 <= x < leftover {
          block[x] := block[winBegin + x];
        }
      }
      if winBlock != 0 {
        buffer := buffer[0 := block][winBlock := buffer[0]];
      }
      winBlock, winBegin, winEnd := 0, 0, leftover;
    }

    lemma WindowView(i: nat, j: nat)
      requires Shape() && i <= j <= |Window()|
      ensures var v := View(winBlock, winBegin + i, j - i); InPlace(v) && TextOf(v) == Window()[i..j]
    {
      var v := View(winBlock, winBegin + i, j - i);
      forall x | 0 <= x < j - i ensures TextOf(v)[x] == Window()[i..j][x] {}
    }

    /** The entry of a header: a new key is a view of this line, the value is in any case. */
    method Insert(pos: nat, colon: nat, vstart: nat, vend: nat, ghost hs: map<Text, Text>)
      requires Shape() && Shows(hs) && pos <= colon && vstart <= vend && colon <= |Window()| && vend <= |Window()|
      modifies this`headers
      ensures Shows(hs[Window()[pos..colon] := Window()[vstart..vend]])
    {
      hide Shape, InPlace;
      var w := Window();
      WindowView(pos, colon);
      WindowView(vstart, vend);
      var key := w[pos..colon];
      var field := Field(
        if key in headers then headers[key].key else View(winBlock, winBegin + pos, colon - pos),
        View(winBlock, winBegin + vstart, vend - vstart));
      assert Holds(field, key, w[vstart..vend]);
      headers := headers[key := field];
    }

    /** The view of what lies behind the head. */
    method KeepContent(pos: nat)
      requires Shape() && pos <= |Window()|
      modifies this`content
      ensures Sees(content, Window()[pos..])
    {
      content := View(winBlock, winBegin + pos, winEnd - winBegin - pos);
      WindowView(pos, |Window()|);
      assert Window()[pos..|Window()|] == Window()[pos..];
    }

    /** Take the header lines that are whole in the window; `pos` is how far that is. */
    method ParseRest(w: Text, ghost hs: map<Text, Text>) returns (pos: nat, step: Step, ghost hs': map<Text, Text>)
      requires Shape() && Shows(hs) && w == Window()
      modifies this`headers, this`content
      ensures Scanned(step, hs', pos) == Scan(w, 0, hs) && Shows(hs')
      ensures pos <= |w| && (step.Done? ==> Sees(content, w[pos..]))
    {
      hide Scan, Crlf, Header, Find, FindNot, Shape, Shows, Sees;
      pos, hs' := 0, hs;
      while pos < |w|
        invariant pos <= |w| && Scan(w, pos, hs') == Scan(w, 0, hs) && Shows(hs')
        decreases |w| - pos
      {
        ScanStep(w, pos, hs');
        var end := Crlf(w, pos);
        if end == |w| {
          return pos, More, hs';
        } else if end == pos {
          KeepContent(pos + 2);
          return pos + 2, Done, hs';
        }
        HeaderInWindow(w, pos);
        var colon := Find(w, COLON, pos);
        if colon == |w| || colon > end {
          return pos, Bad, hs';
        }
        var vstart := FindNot(w, SPACE, colon + 1);
        var vend := Crlf(w, vstart);
        Insert(pos, colon, vstart, vend, hs');
        pos, hs' := vend + 2, hs'[w[pos..colon] := w[vstart..vend]];
      }
      ScanStep(w, pos, hs');
      step := More;
    }

    /** Move the window on: not at all, or at least behind the line it starts with. */
    method Consume(n: nat, reader: Reader)
      requires Synced(reader) && Slow(reader) && n <= winEnd - winBegin
      requires n == 0 || origin + n >= Crlf(reader.stream, origin) + 2
      modifies this`winBegin, this`origin
      ensures Synced(reader) && Slow(reader)
      ensures winBegin == old(winBegin) + n && origin == old(origin) + n && Window() == old(Window())[n..]
    {
      ConsumeGrows(reader.stream, origin, start, winBlock, winBegin, carried, n);
      hide Crlf, GrowsSlowly;
      winBegin, origin := winBegin + n, origin + n;
    }

    /** Take the first line if it is whole in the window, and ask for the verdict on it. */
    method ParseLine(reader: Reader) returns (step: Step, ec: Option<Errc>)
      requires Synced(reader) && Slow(reader)
      modifies this`line, this`winBegin, this`origin
      ensures Synced(reader) && Slow(reader)
      ensures step.More? <==> Crlf(old(Window()), 0) == |old(Window())|
      ensures !step.Done? ==> winBegin == old(winBegin) && origin == old(origin)
      ensures !step.More? ==> FirstLine(reader.stream, old(origin), verdict, reader.failure, ec, origin)
      ensures step.Done? <==> !step.More? && ec.None?
      ensures step.More? <==> !Delivery.Come(reader.stream, old(origin), reader.pos)
      ensures step.Bad? ==> verdict(LineAt(reader.stream, old(origin))).Some?
      ensures step.Done? ==>
                && verdict(LineAt(reader.stream, old(origin))).None?
                && origin == Crlf(reader.stream, old(origin)) + 2 && Base() == old(Base())
      ensures step.Done? ==> Sees(line, LineAt(reader.stream, old(origin)))
    {
      hide Crlf, Fits, FirstLine, LineAt, GrowsSlowly, Synced, Shape, Delivery.Come;
      SyncedWindow(reader);
      var w := Window();
      Delivery.ComeInWindow(reader.stream, origin, w);
      var e := Crlf(w, 0);
      if e == |w| {
        return More, None;
      }
      FirstLineInWindow(reader.stream, origin, w, verdict, reader.failure);
      if verdict(w[..e]).Some? {
        return Bad, verdict(w[..e]);
      }
      line := View(winBlock, winBegin, e);
      WindowView(0, e);
      Consume(e + 2, reader);
      return Done, None;
    }

    /** One round of the first loop: the first line is taken, or there is more of it. */
    method TryLine(reader: Reader) returns (more: bool, ec: Option<Errc>)
      requires Synced(reader) && Slow(reader) && winBegin == 0
      modifies this`buffer, this`winBlock, this`winBegin, this`winEnd, this`line, this`carried, this`origin
      modifies this`repr, repr, reader`pos, reader`script
      ensures Synced(reader) && Slow(reader)
      ensures |buffer| == if |old(buffer)| <= winBlock then winBlock + 1 else |old(buffer)|
      ensures winBlock >= old(winBlock) && fresh(repr - old(repr))
      ensures Delivery.Reading(reader.stream, old(origin), old(origin), old(reader.pos))
      ensures more ==> origin == old(origin) && winBegin == 0 && old(reader.pos) < reader.pos
      ensures more ==>
                && Delivery.Reading(reader.stream, origin, origin, reader.pos)
                && Delivery.LandHead(reader.stream, origin, reader.pos, verdict, reader.script)
                == Delivery.LandHead(reader.stream, old(origin), old(reader.pos), verdict, old(reader.script))
      ensures !more ==> FirstLine(reader.stream, old(origin), verdict, reader.failure, ec, origin)
      ensures !more && ec.Some? ==>
                origin == Delivery.LandHead(reader.stream, old(origin), old(reader.pos), verdict, old(reader.script))
      ensures !more && ec.None? ==>
                && Sees(line, LineAt(reader.stream, old(origin)))
                && Delivery.Reading(reader.stream, Base(), origin, reader.pos)
                && Delivery.Land(reader.stream, Base(), origin, reader.pos, reader.script)
                == Delivery.LandHead(reader.stream, old(origin), old(reader.pos), verdict, old(reader.script))
    {
      hide *;
      SyncedWindow(reader);
      WindowReading(reader);
      ghost var at, p, script := origin, reader.pos, reader.script;
      Delivery.LandHeadEnd(reader.stream, at, p, verdict, script);
      var step;
      step, ec := ParseLine(reader);
      if !step.More? {
        return false, ec;
      }
      SyncedWindow(reader);
      WindowReading(reader);
      ec := Fill(reader);
      if ec.Some? {
        NoFirstLine(reader.stream, at, verdict, reader.failure);
        return false, ec;
      }
      WindowReading(reader);
      Delivery.LandHeadOn(reader.stream, at, p, verdict, script, Base(), reader.pos, reader.script);
      more := true;
    }

    /** The first loop of `read`: until the first line is whole. */
    method ReadLine(reader: Reader) returns (ec: Option<Errc>)
      requires Synced(reader) && Slow(reader) && winBegin == 0
      modifies this`buffer, this`winBlock, this`winBegin, this`winEnd, this`line, this`carried, this`origin
      modifies this`repr, repr, reader`pos, reader`script
      ensures Synced(reader) && Slow(reader)
      ensures |buffer| == if |old(buffer)| <= winBlock then winBlock + 1 else |old(buffer)|
      ensures winBlock >= old(winBlock) && fresh(repr - old(repr))
      ensures FirstLine(reader.stream, old(origin), verdict, reader.failure, ec, origin)
      ensures Delivery.Reading(reader.stream, old(origin), old(origin), old(reader.pos))
      ensures ec.Some? ==>
                origin == Delivery.LandHead(reader.stream, old(origin), old(reader.pos), verdict, old(reader.script))
      ensures ec.None? ==>
                && Delivery.Reading(reader.stream, Base(), origin, reader.pos)
                && Delivery.Land(reader.stream, Base(), origin, reader.pos, reader.script)
                == Delivery.LandHead(reader.stream, old(origin), old(reader.pos), verdict, old(reader.script))
      ensures ec.None? ==> Sees(line, LineAt(reader.stream, old(origin)))
    {
      hide *;
      WindowReading(reader);
      SyncedWindow(reader);
      while true
        invariant Synced(reader) && Slow(reader) && origin == old(origin) && winBegin == 0
        invariant Delivery.Reading(reader.stream, origin, origin, reader.pos)
        invariant Delivery.LandHead(reader.stream, origin, reader.pos, verdict, reader.script)
               == Delivery.LandHead(reader.stream, old(origin), old(reader.pos), verdict, old(reader.script))
        invariant |buffer| == if |old(buffer)| <= winBlock then winBlock + 1 else |old(buffer)|
        invariant winBlock >= old(winBlock) && fresh(repr - old(repr))
        decreases |reader.stream| - reader.pos
      {
        SyncedWindow(reader);
        var more;
        more, ec := TryLine(reader);
        if !more {
          return;
        }
        SyncedWindow(reader);
      }
    }

    /** Parse header lines in the window and move it on, except when a line is malformed. */
    method TakeHeaders(reader: Reader, ghost hs: map<Text, Text>) returns (step: Step, ghost hs': map<Text, Text>)
      requires Synced(reader) && Slow(reader) && Shows(hs)
      modifies this`headers, this`content, this`winBegin, this`origin
      ensures Synced(reader) && Slow(reader) && Shows(hs')
      ensures Progress(reader.stream, old(origin), hs, step, origin, hs')
      ensures var r := Scan(reader.stream[old(origin)..reader.pos], 0, hs);
              && step == r.step && origin == (if step.Bad? then old(origin) else old(origin) + r.pos)
              && winBegin <= origin && Base() == old(Base())
      ensures step.More? ==> Crlf(Window(), 0) == |Window()|
      ensures step.Done? ==> Sees(content, Window())
    {
      hide *;
      SyncedWindow(reader);
      SyncedText(reader);
      WindowReading(reader);
      var w := Window();
      var pos;
      pos, step, hs' := ParseRest(w, hs);
      PassProgresses(reader.stream, origin, w, hs);
      if step.Bad? {
        return;
      }
      Consume(pos, reader);
      WindowReading(reader);
    }

    /** Fetch more octets; the first line and the headers taken so far stay as they are. */
    method FillBehind(reader: Reader, ghost hs: map<Text, Text>, ghost first: Text) returns (ec: Option<Errc>)
      requires Synced(reader) && Crlf(Window(), 0) == |Window()| && Slow(reader)
      requires Shows(hs) && Sees(line, first)
      modifies this`buffer, this`winBlock, this`winBegin, this`winEnd, this`carried, this`repr, repr
      modifies reader`pos, reader`script
      ensures Synced(reader) && Slow(reader) && Shows(hs) && Sees(line, first)
      ensures ec.Some? ==> !Fits(reader.stream, origin) && ec == Code(NoLine(reader.stream, origin), reader.failure)
      ensures ec.Some? <==> Delivery.Stuck(reader.stream, old(Base()), origin, old(reader.pos))
      ensures ec.None? ==>
                Delivery.Fetched(reader.stream, old(Base()), origin, old(reader.pos), old(reader.script), Base(), reader.pos, reader.script)
      ensures ec.None? ==> reader.pos > old(reader.pos)
      ensures |buffer| == if |old(buffer)| <= winBlock then winBlock + 1 else |old(buffer)|
      ensures winBlock >= old(winBlock) && fresh(repr - old(repr))
    {
      SyncedWindow(reader);
      hide Crlf, GrowsSlowly, Fits, Synced;
      ec := Fill(reader);
      forall k | k in headers ensures Holds(headers[k], k, hs[k]) {
        assert old(Holds(headers[k], k, hs[k]));
      }
      assert old(Sees(line, first));
    }

    /** The second loop of `read`: until the empty line. */
    method ReadHeaders(reader: Reader, ghost first: Text) returns (ec: Option<Errc>)
      requires Synced(reader) && Slow(reader) && Shows(map[]) && Sees(line, first)
      modifies this`buffer, this`winBlock, this`winBegin, this`winEnd, this`headers, this`content
      modifies this`carried, this`origin, this`repr, repr, reader`pos, reader`script
      ensures Synced(reader) && Slow(reader)
      ensures ec.None? ==> Sees(content, Window())
      ensures |buffer| == if |old(buffer)| <= winBlock then winBlock + 1 else |old(buffer)|
      ensures winBlock >= old(winBlock) && fresh(repr - old(repr))
      ensures var h := Headers(reader.stream, old(origin), map[]);
              && ec == Code(h.end, reader.failure) && Shows(h.headers)
              && (if h.end.Malformed? then old(origin) <= origin <= h.stop && Fits(reader.stream, origin) else origin == h.stop)
      ensures Sees(line, first)
      ensures origin == Delivery.Land(reader.stream, old(Base()), old(origin), old(reader.pos), old(reader.script))
    {
      hide *;
      SyncedWindow(reader);
      WindowReading(reader);
      NoProgress(reader.stream, origin, map[]);
      Codes(reader.failure);
      ghost var hs := map[];
      while true
        invariant Synced(reader) && Slow(reader) && Shows(hs) && Sees(line, first)
        invariant winBegin <= origin && Delivery.Reading(reader.stream, Base(), origin, reader.pos)
        invariant Delivery.Land(reader.stream, Base(), origin, reader.pos, reader.script)
               == Delivery.Land(reader.stream, old(Base()), old(origin), old(reader.pos), old(reader.script))
        invariant Progress(reader.stream, old(origin), map[], More, origin, hs)
        invariant |buffer| == if |old(buffer)| <= winBlock then winBlock + 1 else |old(buffer)|
        invariant winBlock >= old(winBlock) && fresh(repr - old(repr))
        decreases |reader.stream| - reader.pos
      {
        var step;
        SyncedWindow(reader);
        WindowReading(reader);
        ghost var at, before, base, p, script := origin, hs, Base(), reader.pos, reader.script;
        step, hs := TakeHeaders(reader, hs);
        ProgressOn(reader.stream, old(origin), map[], at, before, step, origin, hs);
        if step.Done? {
          Delivery.LandEnd(reader.stream, base, at, p, script, before, origin);
          return None;
        } else if step.Bad? {
          Delivery.LandEnd(reader.stream, base, at, p, script, before, origin);
          return Some(IllegalByteSequence);
        }
        ghost var next := origin;
        ec := FillBehind(reader, hs, first);
        if ec.Some? {
          Delivery.LandEnd(reader.stream, base, at, p, script, before, next);
          return;
        }
        SyncedWindow(reader);
        WindowReading(reader);
        Delivery.LandOn(reader.stream, base, at, p, script, before, next, Base(), reader.pos, reader.script);
      }
    }

    /**
     * Read one head. Whatever the pieces the stream comes in, the outcome is that
     * of the whole stream: the error, the first line, the headers as their views
     * show them, and, unless a header line is malformed, the position behind.
     */
    method Read(reader: Reader) returns (ec: Option<Errc>)
      requires Synced(reader)
      modifies this, repr, reader`pos, reader`script
      ensures Synced(reader) && fresh(repr - old(repr))
      ensures var w := WholeHead(reader.stream, old(origin), verdict, reader.failure);
              && ec == w.code && Shows(w.rest.headers)
              && (w.line.Some? ==> Sees(line, w.line.value))
              && (if w.rest.end.Malformed? then old(origin) <= origin <= w.rest.stop else origin == w.rest.stop)
      ensures ec.Some? && NoLineAt(reader.stream, origin) ==>
                ec == if |reader.stream| - origin >= 4096 then Some(IllegalByteSequence)
                      else if reader.failure.Some? then reader.failure else Some(NotConnected)
      ensures ec.Some? && !NoLineAt(reader.stream, origin) ==>
                if WholeHead(reader.stream, old(origin), verdict, reader.failure).line.Some? then ec == Some(IllegalByteSequence)
                else origin == old(origin) && ec == verdict(LineAt(reader.stream, origin))
      ensures old(reader.pos) <= old(origin) + BLOCK
      ensures origin == Delivery.LandHead(reader.stream, old(origin), old(reader.pos), verdict, old(reader.script))
      ensures ec.None? ==> Sees(content, reader.stream[origin..reader.pos])
      ensures old(origin) <= origin && winBlock <= 2 * ((origin - old(origin)) / 4097) + 1
      ensures |buffer| == if |old(buffer)| <= winBlock then winBlock + 1 else |old(buffer)|
    {
      hide *;
      SyncedWindow(reader);
      Compact(reader);
      headers := map[];
      NothingShown();
      StartSlow(reader);
      ghost var at := origin;
      ec := ReadLine(reader);
      WholeStep(reader.stream, at, verdict, reader.failure, ec, origin);
      NothingShown();
      if ec.None? {
        ec := ReadHeaders(reader, LineAt(reader.stream, at));
      }
      DueError(reader.stream, at, verdict, reader.failure, origin);
      FewRotates(reader);
      SyncedText(reader);
    }

    lemma SyncedText(reader: Reader)
      requires Synced(reader)
      ensures origin <= reader.pos <= |reader.stream| && Window() == reader.stream[origin..reader.pos]
    {}

    lemma NothingShown()
      requires headers == map[]
      ensures Shows(map[])
    {}

    lemma StartSlow(reader: Reader)
      requires Synced(reader) && winBlock == 0 && start == origin && winBegin == 0
      ensures Slow(reader)
    {}

    /** A head of `n` octets takes at most `2 * (n / 4097) + 1` rotates. */
    lemma FewRotates(reader: Reader)
      requires Slow(reader)
      ensures start <= origin && winBlock <= 2 * ((origin - start) / 4097) + 1
    {
      var n, taken := origin - start, origin - winBegin - start;
      assert n / BLOCK_PAIR >= taken / BLOCK_PAIR >= winBlock / 2;
    }

    /** The headers, as their views show them. */
    function HeaderTexts(): map<Text, Text>
      reads this, buffer
    {
      map k | k in headers :: TextOf(headers[k].value)
    }

    lemma ShownTexts(hs: map<Text, Text>)
      requires Shows(hs)
      ensures HeaderTexts() == hs
    {
      forall k | k in headers ensures TextOf(headers[k].value) == hs[k] {
        assert Holds(headers[k], k, hs[k]);
      }
    }

    /**
     * Read heads until one fails. The result is that of the whole stream, and the
     * chain is no longer than the longest head makes it, however many there are.
     */
    method ReadAll(reader: Reader) returns (heads: seq<(Text, map<Text, Text>)>, code: Errc)
      requires Synced(reader)
      modifies this, repr, reader`pos, reader`script
      ensures (heads, code) == Heads(reader.stream, old(origin), verdict, reader.failure)
      ensures origin <= |reader.stream| && (NoLineAt(reader.stream, origin) ==>
                code == if |reader.stream| - origin >= 4096 then IllegalByteSequence
                        else if reader.failure.Some? then reader.failure.value else NotConnected)
      ensures var longest := LongestHead(reader.stream, old(origin), verdict, reader.failure);
              |buffer| <= |old(buffer)| || |buffer| <= 2 * (longest / 4097) + 2
    {
      hide *;
      heads := [];
      SyncedWindow(reader);
      ghost var s, all := reader.stream, Heads(reader.stream, origin, verdict, reader.failure);
      ghost var longest := LongestHead(s, origin, verdict, reader.failure);
      while true
        invariant Synced(reader) && fresh(repr - old(repr)) && origin <= |s|
        invariant heads + Heads(s, origin, verdict, reader.failure).0 == all.0
        invariant Heads(s, origin, verdict, reader.failure).1 == all.1
        invariant LongestHead(s, origin, verdict, reader.failure) <= longest
        invariant |buffer| <= |old(buffer)| || |buffer| <= 2 * (longest / 4097) + 2
        decreases |s| - origin
      {
        ghost var at := origin;
        HeadsStep(s, at, verdict, reader.failure);
        var ec := Read(reader);
        SyncedWindow(reader);
        ghost var w := WholeHead(s, at, verdict, reader.failure);
        MoreRotates(origin - at, longest);
        if ec.Some? {
          assert heads + [] == heads;
          return heads, ec.value;
        }
        ShownTexts(w.rest.headers);
        SeenText(line, w.line.value);
        assert heads + [(w.line.value, w.rest.headers)] + Heads(s, origin, verdict, reader.failure).0 == all.0;
        heads := heads + [(TextOf(line), HeaderTexts())];
      }
    }

    lemma SeenText(v: View, t: Text)
      requires Sees(v, t)
      ensures TextOf(v) == t
    {}
  }

  lemma MoreRotates(n: nat, longest: nat)
    requires n <= longest
    ensures n / 4097 <= longest / 4097
  {}
}
