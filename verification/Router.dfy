/**
 * The router: a trie of path segments with exact entries and prefix handlers.
 * Nodes are values inside their parent's map, as in the source. Beside it stands
 * the flat reading: two maps, from whole paths and from path prefixes.
 */
module Router {
  import opened Basics

  type Path = string
  type Segment = string

  /** The first slash at or after `i`, or the end. */
  function FindSlash(path: Path, i: nat): (e: nat)
    requires i <= |path|
    ensures i <= e <= |path| && (e < |path| ==> path[e] == '/')
    ensures forall x :: i <= x < e ==> path[x] != '/'
    decreases |path| - i
  {
    if i == |path| || path[i] == '/' then i else FindSlash(path, i + 1)
  }

  predicate Rooted(path: Path) {
    path != "" && path[0] == '/'
  }

  /** What stands between the slashes; a final slash gives an empty last segment. */
  function Segments(path: Path): (segs: seq<Segment>)
    requires Rooted(path)
    ensures segs != []
  {
    var pos := FindSlash(path, 1);
    if pos == |path| then [path[1..]] else [path[1..pos]] + Segments(path[pos..])
  }

  function Join(segs: seq<Segment>): Path {
    if segs == [] then "" else "/" + segs[0] + Join(segs[1..])
  }

  /** A path is its segments, a slash before each. */
  lemma {:induction false} JoinSegments(path: Path)
    requires Rooted(path)
    ensures Join(Segments(path)) == path
  {
    var pos := FindSlash(path, 1);
    if pos < |path| {
      JoinSegments(path[pos..]);
      assert Segments(path)[1..] == Segments(path[pos..]);
      assert path == "/" + path[1..pos] + path[pos..];
    } else {
      assert Join(Segments(path)[1..]) == "";
      assert path == "/" + path[1..];
    }
  }

  /** No segment has a slash in it. */
  predicate Slashless(segs: seq<Segment>) {
    forall i :: 0 <= i < |segs| ==> '/' !in segs[i]
  }

  lemma {:induction false} SegmentsSlashless(path: Path)
    requires Rooted(path)
    ensures Slashless(Segments(path))
    decreases |path|
  {
    var pos := FindSlash(path, 1);
    if pos < |path| {
      SegmentsSlashless(path[pos..]);
    }
    hide Segments;
  }

  lemma {:induction false} SlashAt(path: Path, i: nat, e: nat)
    requires i <= e <= |path| && (forall x :: i <= x < e ==> path[x] != '/') && (e < |path| ==> path[e] == '/')
    ensures FindSlash(path, i) == e
    decreases e - i
  {
    if i < e {
      SlashAt(path, i + 1, e);
    }
  }

  lemma FirstCut(first: Segment, tail: Path)
    requires '/' !in first && (tail != "" ==> tail[0] == '/')
    ensures var path := "/" + first + tail;
            && FindSlash(path, 1) == |first| + 1
            && path[1..|first| + 1] == first && path[|first| + 1..] == tail
  {
    var path := "/" + first + tail;
    forall x | 1 <= x < |first| + 1 ensures path[x] != '/' {
      assert path[x] == first[x - 1];
    }
    assert tail != "" ==> path[|first| + 1] == tail[0];
    SlashAt(path, 1, |first| + 1);
  }

  lemma SegmentsCut(first: Segment, tail: Path)
    requires '/' !in first && (tail != "" ==> tail[0] == '/')
    ensures var path := "/" + first + tail;
            Rooted(path) && Segments(path) == [first] + if tail == "" then [] else Segments(tail)
  {
    FirstCut(first, tail);
    var path := "/" + first + tail;
    hide FindSlash;
    if tail == "" {
      assert path[1..] == path[1..|first| + 1];
    }
  }

  lemma {:induction false} JoinedSegments(segs: seq<Segment>)
    requires segs != [] && Slashless(segs)
    ensures Rooted(Join(segs)) && Segments(Join(segs)) == segs
  {
    hide Segments;
    if segs[1..] == [] {
      assert Join(segs[1..]) == "";
      SegmentsCut(segs[0], "");
      assert segs == [segs[0]];
    } else {
      JoinedSegments(segs[1..]);
      SegmentsCut(segs[0], Join(segs[1..]));
      assert segs == [segs[0]] + segs[1..];
    }
  }

  /** The segments of a path are the only ones without a slash in them that make up the path. */
  lemma SegmentsExactly(path: Path, segs: seq<Segment>)
    requires Rooted(path)
    ensures segs == Segments(path) <==> segs != [] && Slashless(segs) && Join(segs) == path
  {
    JoinSegments(path);
    SegmentsSlashless(path);
    if segs != [] && Slashless(segs) {
      JoinedSegments(segs);
    }
    hide Segments, Join;
  }

  datatype Node = Node(handlers: map<Segment, nat>, prefixHandler: nat, children: map<Segment, Node>)

  const EMPTY := Node(map[], 0, map[])

  /** The entry for a whole path. */
  function ExactAt(n: Node, segs: seq<Segment>): Option<nat>
    decreases segs
  {
    if segs == [] then None
    else if |segs| == 1 then if segs[0] in n.handlers then Some(n.handlers[segs[0]]) else None
    else if segs[0] in n.children then ExactAt(n.children[segs[0]], segs[1..]) else None
  }

  /** The handler for a prefix, 0 when there is none. */
  function PrefixAt(n: Node, segs: seq<Segment>): nat
    decreases segs
  {
    if segs == [] then n.prefixHandler
    else if segs[0] in n.children then PrefixAt(n.children[segs[0]], segs[1..]) else 0
  }

  /** The trie has a node at the end of these segments. */
  predicate HasNode(n: Node, segs: seq<Segment>)
    decreases segs
  {
    segs == [] || (segs[0] in n.children && HasNode(n.children[segs[0]], segs[1..]))
  }

  /** Exactly the nodes on the way to `at` have been added. */
  ghost predicate NodesTo(n: Node, n': Node, at: seq<Segment>) {
    forall segs :: HasNode(n', segs) <==> HasNode(n, segs) || segs <= at
  }

  lemma NoNodes(segs: seq<Segment>)
    ensures HasNode(EMPTY, segs) <==> segs == []
  {}

  lemma NodesBelow(n: Node, child: Node, at: seq<Segment>)
    requires at != [] && NodesTo(Child(n, at[0]), child, at[1..])
    ensures NodesTo(n, n.(children := n.children[at[0] := child]), at)
  {
    var n' := n.(children := n.children[at[0] := child]);
    forall segs ensures HasNode(n', segs) <==> HasNode(n, segs) || segs <= at {
      if segs != [] {
        NoNodes(segs[1..]);
        assert segs == [segs[0]] + segs[1..] && at == [at[0]] + at[1..];
        assert segs <= at <==> segs[0] == at[0] && segs[1..] <= at[1..];
        assert segs[0] == at[0] ==> (HasNode(Child(n, at[0]), segs[1..]) <==> HasNode(n, segs) || segs[1..] == []);
      }
    }
  }

  lemma NodesHere(n: Node)
    ensures NodesTo(n, n, [])
  {}

  /** The segments a prefix stands for: one final slash says nothing. */
  function PrefixSegments(path: Path): seq<Segment>
    requires Rooted(path)
  {
    DropEmpty(Segments(path))
  }

  function DropEmpty(segs: seq<Segment>): seq<Segment>
    requires segs != []
  {
    if segs[|segs| - 1] == "" then segs[..|segs| - 1] else segs
  }

  lemma SlashBehind(path: Path)
    requires Rooted(path)
    ensures Rooted(path + "/") && Segments(path + "/") == Segments(path) + [""]
  {
    JoinSegments(path);
    SegmentsSlashless(path);
    JoinAppend(Segments(path), "");
    hide Segments, Join;
    assert Join(Segments(path)) + "/" + "" == path + "/";
    SegmentsExactly(path + "/", Segments(path) + [""]);
  }

  lemma RootSegments()
    ensures Segments("/") == [""]
  {
    assert Join([""]) == "/" + "" + Join([]) == "/";
    SegmentsExactly("/", [""]);
  }

  /** A prefix means the same with a slash behind it as without, and "/" is the prefix of everything. */
  lemma PrefixWithSlash(path: Path)
    requires Rooted(path) && path[|path| - 1] != '/'
    ensures Rooted(path + "/") && PrefixSegments(path + "/") == PrefixSegments(path) == Segments(path)
    ensures PrefixSegments("/") == []
  {
    hide Segments;
    SlashBehind(path);
    RootSegments();
    LastSegment(path);
  }

  lemma {:induction false} JoinAppend(segs: seq<Segment>, s: Segment)
    ensures Join(segs + [s]) == Join(segs) + "/" + s
  {
    if segs == [] {
      assert segs + [s] == [s] && [s][1..] == [];
      assert Join([s]) == "/" + s + Join([]);
    } else {
      JoinAppend(segs[1..], s);
      assert (segs + [s])[1..] == segs[1..] + [s];
    }
  }

  /** The last segment is empty if and only if the path ends in a slash. */
  lemma {:induction false} LastSegment(path: Path)
    requires Rooted(path)
    ensures Segments(path)[|Segments(path)| - 1] == "" <==> path[|path| - 1] == '/'
    decreases |path|
  {
    SegmentsSplit(path);
    var pos := FindSlash(path, 1);
    hide Segments;
    if pos < |path| {
      LastSegment(path[pos..]);
      assert path[pos..][|path[pos..]| - 1] == path[|path| - 1];
    } else {
      assert path[1..] != "" ==> path[1..][|path| - 2] == path[|path| - 1];
    }
  }

  lemma SegmentsSplit(path: Path)
    requires Rooted(path)
    ensures var pos := FindSlash(path, 1);
            Segments(path) == if pos < |path| then [path[1..pos]] + Segments(path[pos..]) else [path[1..]]
  {}

  lemma DropEmptyBelow(first: Segment, rest: seq<Segment>)
    requires rest != []
    ensures DropEmpty([first] + rest) == [first] + DropEmpty(rest)
  {}

  lemma ChildLookups(n: Node, child: Node, s: Segment, segs: seq<Segment>)
    ensures var n' := n.(children := n.children[s := child]);
            && ExactAt(n', segs) ==
                 (if |segs| > 1 && segs[0] == s then ExactAt(child, segs[1..]) else ExactAt(n, segs))
            && PrefixAt(n', segs) ==
                 (if segs != [] && segs[0] == s then PrefixAt(child, segs[1..]) else PrefixAt(n, segs))
  {}

  lemma {:induction false} EmptyLookups(segs: seq<Segment>)
    ensures ExactAt(EMPTY, segs) == None && PrefixAt(EMPTY, segs) == 0
  {}

  /** The subtree a segment leads to. */
  function Child(n: Node, s: Segment): Node {
    if s in n.children then n.children[s] else EMPTY
  }

  lemma ChildStep(n: Node, segs: seq<Segment>)
    requires segs != []
    ensures |segs| > 1 ==> ExactAt(n, segs) == ExactAt(Child(n, segs[0]), segs[1..])
    ensures PrefixAt(n, segs) == PrefixAt(Child(n, segs[0]), segs[1..])
  {
    EmptyLookups(segs[1..]);
  }

  /** Two tries that read the same, but for one exact entry. */
  ghost predicate ExactSet(n: Node, n': Node, at: seq<Segment>, id: nat) {
    && (forall segs :: ExactAt(n', segs) == if segs == at then Some(id) else ExactAt(n, segs))
    && forall segs :: PrefixAt(n', segs) == PrefixAt(n, segs)
  }

  ghost predicate PrefixSet(n: Node, n': Node, at: seq<Segment>, id: nat) {
    && (forall segs :: ExactAt(n', segs) == ExactAt(n, segs))
    && forall segs :: PrefixAt(n', segs) == if segs == at then id else PrefixAt(n, segs)
  }

  function IdAt(n: Node, segs: seq<Segment>): nat {
    match ExactAt(n, segs) case Some(id) => id case None => 0
  }

  /** Changing an exact entry below a child changes that one entry. */
  lemma ExactSetBelow(n: Node, child: Node, segs: seq<Segment>, id: nat)
    requires |segs| > 1 && ExactSet(Child(n, segs[0]), child, segs[1..], id)
    ensures ExactSet(n, n.(children := n.children[segs[0] := child]), segs, id)
  {
    var n' := n.(children := n.children[segs[0] := child]);
    forall t ensures ExactAt(n', t) == (if t == segs then Some(id) else ExactAt(n, t)) && PrefixAt(n', t) == PrefixAt(n, t) {
      ChildLookups(n, child, segs[0], t);
      if t != [] {
        ChildStep(n, t);
        assert t == [t[0]] + t[1..] && segs == [segs[0]] + segs[1..];
      }
    }
  }

  lemma PrefixSetBelow(n: Node, child: Node, segs: seq<Segment>, id: nat)
    requires |segs| > 0 && PrefixSet(Child(n, segs[0]), child, segs[1..], id)
    ensures PrefixSet(n, n.(children := n.children[segs[0] := child]), segs, id)
  {
    var n' := n.(children := n.children[segs[0] := child]);
    forall t ensures ExactAt(n', t) == ExactAt(n, t) && PrefixAt(n', t) == (if t == segs then id else PrefixAt(n, t)) {
      ChildLookups(n, child, segs[0], t);
      if t != [] {
        ChildStep(n, t);
        assert t == [t[0]] + t[1..] && segs == [segs[0]] + segs[1..];
      }
    }
  }

  /** `add_exact`: the trie with an entry for the path, new ones being 0. */
  method AddExact(n: Node, path: Path) returns (n': Node)
    requires Rooted(path)
    ensures ExactSet(n, n', Segments(path), IdAt(n, Segments(path)))
    ensures NodesTo(n, n', Segments(path)[..|Segments(path)| - 1])
    decreases |path|
  {
    var pos := FindSlash(path, 1);
    ghost var segs := Segments(path);
    if pos < |path| {
      var sub := path[1..pos];
      assert segs == [sub] + Segments(path[pos..]) && segs[1..] == Segments(path[pos..]);
      var child := AddExact(if sub in n.children then n.children[sub] else EMPTY, path[pos..]);
      ChildStep(n, segs);
      ExactSetBelow(n, child, segs, IdAt(n, segs));
      assert segs[..|segs| - 1][1..] == segs[1..][..|segs| - 2] && segs[..|segs| - 1][0] == sub;
      NodesBelow(n, child, segs[..|segs| - 1]);
      return n.(children := n.children[sub := child]);
    }
    var sub := path[1..];
    assert segs[..0] == [];
    NodesHere(n);
    if sub in n.handlers {
      return n;
    }
    n' := n.(handlers := n.handlers[sub := 0]);
    NewEntry(n, sub);
  }

  lemma NewEntry(n: Node, s: Segment)
    ensures ExactSet(n, n.(handlers := n.handlers[s := 0]), [s], 0)
    ensures NodesTo(n, n.(handlers := n.handlers[s := 0]), [])
  {}

  /** `add_prefix`: the trie with a node for the prefix. */
  method AddPrefix(n: Node, path: Path) returns (n': Node)
    requires Rooted(path)
    ensures PrefixSet(n, n', PrefixSegments(path), PrefixAt(n, PrefixSegments(path)))
    ensures NodesTo(n, n', PrefixSegments(path))
    decreases |path|
  {
    if path == "/" {
      NodesHere(n);
      return n;
    }
    var pos := FindSlash(path, 1);
    var sub := path[1..pos];
    var child := if sub in n.children then n.children[sub] else EMPTY;
    ghost var segs := PrefixSegments(path);
    if pos < |path| {
      child := AddPrefix(child, path[pos..]);
    }
    PrefixSplit(path);
    ChildStep(n, segs);
    PrefixSetBelow(n, child, segs, PrefixAt(n, segs));
    NodesHere(child);
    NodesBelow(n, child, segs);
    n' := n.(children := n.children[sub := child]);
  }

  lemma PrefixBelow(segs: seq<Segment>, first: Segment, rest: seq<Segment>)
    requires rest != [] && segs == [first] + rest
    ensures DropEmpty(segs) != [] && DropEmpty(segs)[0] == first && DropEmpty(segs)[1..] == DropEmpty(rest)
  {
    DropEmptyBelow(first, rest);
    hide DropEmpty;
  }

  lemma PrefixSplit(path: Path)
    requires Rooted(path) && path != "/"
    ensures var pos := FindSlash(path, 1);
            && PrefixSegments(path) != [] && PrefixSegments(path)[0] == path[1..pos]
            && PrefixSegments(path)[1..] == if pos < |path| then PrefixSegments(path[pos..]) else []
  {
    hide Segments, FindSlash, DropEmpty;
    SegmentsSplit(path);
    var pos := FindSlash(path, 1);
    if pos < |path| {
      PrefixBelow(Segments(path), path[1..pos], Segments(path[pos..]));
    } else {
      LoneSegment(path[1..]);
      assert path[1..pos] == path[1..];
    }
  }

  lemma LoneSegment(s: Segment)
    requires s != ""
    ensures DropEmpty([s]) == [s]
  {}

  /** Writing through the reference `add_exact` returns. */
  method WriteExact(n: Node, segs: seq<Segment>, id: nat) returns (n': Node)
    requires ExactAt(n, segs).Some?
    ensures ExactSet(n, n', segs, id)
    decreases segs
  {
    if |segs| == 1 {
      n' := n.(handlers := n.handlers[segs[0] := id]);
      assert segs == [segs[0]];
    } else {
      var child := WriteExact(n.children[segs[0]], segs[1..], id);
      ExactSetBelow(n, child, segs, id);
      n' := n.(children := n.children[segs[0] := child]);
    }
  }

  /** Writing through the reference `add_prefix` returns. */
  method WritePrefix(n: Node, segs: seq<Segment>, id: nat) returns (n': Node)
    ensures PrefixSet(n, n', segs, id)
    decreases segs
  {
    if segs == [] {
      n' := n.(prefixHandler := id);
      forall t ensures ExactAt(n', t) == ExactAt(n, t) && PrefixAt(n', t) == (if t == [] then id else PrefixAt(n, t)) {}
    } else {
      var child := WritePrefix(Child(n, segs[0]), segs[1..], id);
      PrefixSetBelow(n, child, segs, id);
      n' := n.(children := n.children[segs[0] := child]);
    }
  }

  // ---- Routing ----

  /** The longest of the first `d` prefixes of the path that has a handler. */
  function LongestPrefix(n: Node, segs: seq<Segment>, d: nat): (k: Option<nat>)
    requires d <= |segs|
    ensures k.Some? ==> k.value <= d
  {
    if PrefixAt(n, segs[..d]) != 0 then Some(d)
    else if d == 0 then None else LongestPrefix(n, segs, d - 1)
  }

  /** Which entry a path is routed to, and how many of its segments lead to the node that has it. */
  datatype Match = Match(id: nat, depth: nat, exact: bool)

  /** The flat reading: the whole path, or else the longest prefix of all segments but the last. */
  function Flat(n: Node, segs: seq<Segment>): Option<Match>
    requires segs != []
  {
    if ExactAt(n, segs).Some? then Some(Match(ExactAt(n, segs).value, |segs| - 1, true))
    else match LongestPrefix(n, segs, |segs| - 1)
         case Some(d) => Some(Match(PrefixAt(n, segs[..d]), d, false))
         case None => None
  }

  lemma {:induction false} LongestPrefixBelow(n: Node, segs: seq<Segment>, d: nat)
    requires segs != [] && d < |segs|
    ensures var below := LongestPrefix(Child(n, segs[0]), segs[1..], d);
            LongestPrefix(n, segs, d + 1) ==
              if below.Some? then Some(below.value + 1) else if n.prefixHandler != 0 then Some(0) else None
  {
    ChildStep(n, segs[..d + 1]);
    assert segs[..d + 1][1..] == segs[1..][..d];
    if d > 0 {
      LongestPrefixBelow(n, segs, d - 1);
    } else {
      assert segs[..0] == [];
    }
  }

  lemma {:induction false} NothingBelowEmpty(segs: seq<Segment>, d: nat)
    requires d <= |segs|
    ensures LongestPrefix(EMPTY, segs, d) == None
  {
    EmptyLookups(segs[..d]);
    if d > 0 {
      NothingBelowEmpty(segs, d - 1);
    }
  }

  /** One level of the trie: descend, or else fall back to the node's own prefix handler. */
  lemma FlatStep(n: Node, segs: seq<Segment>)
    requires |segs| > 1
    ensures var below := Flat(Child(n, segs[0]), segs[1..]);
            Flat(n, segs) ==
              if below.Some? then Some(below.value.(depth := below.value.depth + 1))
              else if n.prefixHandler != 0 then Some(Match(n.prefixHandler, 0, false)) else None
    ensures segs[0] !in n.children ==> Flat(Child(n, segs[0]), segs[1..]) == None
  {
    var child := Child(n, segs[0]);
    ChildStep(n, segs);
    LongestPrefixBelow(n, segs, |segs| - 2);
    EmptyLookups(segs[1..]);
    NothingBelowEmpty(segs[1..], |segs| - 2);
    var below := LongestPrefix(child, segs[1..], |segs| - 2);
    if below.Some? {
      var d := below.value;
      LongestPrefixBound(child, segs[1..], |segs| - 2);
      ChildStep(n, segs[..d + 1]);
      assert segs[..d + 1][1..] == segs[1..][..d] && segs[..d + 1][0] == segs[0];
    }
    assert segs[..0] == [];
  }

  lemma {:induction false} LongestPrefixBound(n: Node, segs: seq<Segment>, d: nat)
    requires d <= |segs|
    ensures LongestPrefix(n, segs, d).Some? ==>
              var k := LongestPrefix(n, segs, d).value;
              k <= d && PrefixAt(n, segs[..k]) != 0 && forall j :: k < j <= d ==> PrefixAt(n, segs[..j]) == 0
    ensures LongestPrefix(n, segs, d).None? ==> forall j :: 0 <= j <= d ==> PrefixAt(n, segs[..j]) == 0
  {
    if d > 0 {
      LongestPrefixBound(n, segs, d - 1);
    }
  }

  class RouteContext {
    var currentPath: Path

    constructor (path: Path)
      ensures currentPath == path
    {
      currentPath := path;
    }
  }

  /**
   * `route`: descend while there is a slash, come back and fall to the prefix
   * handler when nothing is found below. The context is left with what remains
   * behind the matched node, or as it was.
   */
  method Route(n: Node, ctx: RouteContext) returns (id: Option<nat>)
    requires ctx.currentPath != ""
    modifies ctx
    ensures !Rooted(old(ctx.currentPath)) ==> id == None && ctx.currentPath == old(ctx.currentPath)
    ensures Rooted(old(ctx.currentPath)) ==>
              var segs := Segments(old(ctx.currentPath));
              match Flat(n, segs)
              case None => id == None && ctx.currentPath == old(ctx.currentPath)
              case Some(m) => id == Some(m.id) && m.depth < |segs| && ctx.currentPath == Join(segs[m.depth..])
    decreases |ctx.currentPath|
  {
    var path := ctx.currentPath;
    if path[0] != '/' {
      return None;
    }
    ghost var segs := Segments(path);
    JoinSegments(path);
    assert segs[0..] == segs;
    var pos := FindSlash(path, 1);
    if pos < |path| {
      var sub := path[1..pos];
      assert segs == [sub] + Segments(path[pos..]) && segs[1..] == Segments(path[pos..]);
      FlatStep(n, segs);
      if sub in n.children {
        ctx.currentPath := path[pos..];
        id := Route(n.children[sub], ctx);
        if id.Some? {
          ghost var d := Flat(n.children[sub], segs[1..]).value.depth;
          assert segs[d + 1..] == segs[1..][d..];
          return;
        }
        ctx.currentPath := path;
      }
    } else {
      var sub := path[1..];
      assert segs == [sub];
      assert segs[..0] == [];
      if sub in n.handlers {
        return Some(n.handlers[sub]);
      }
    }
    if n.prefixHandler != 0 {
      return Some(n.prefixHandler);
    }
    id := None;
  }

  lemma JoinHead(segs: seq<Segment>)
    requires segs != []
    ensures Join(segs) == "/" + segs[0] + Join(segs[1..])
  {}

  lemma Regroup(a: Path, b: Path, c: Path)
    ensures a + (b + c) == a + b + c
  {}

  lemma {:induction false} JoinTwo(a: seq<Segment>, b: seq<Segment>)
    ensures Join(a + b) == Join(a) + Join(b)
  {
    if a == [] {
      assert a + b == b && Join(a) + Join(b) == Join(b);
    } else {
      hide Join;
      JoinTwo(a[1..], b);
      JoinHead(a);
      JoinHead(a + b);
      assert (a + b)[1..] == a[1..] + b;
      Regroup("/" + a[0], Join(a[1..]), Join(b));
    }
  }

  /** What precedes the final context is the path to the matched node. */
  lemma JoinSplit(segs: seq<Segment>, d: nat)
    requires d <= |segs|
    ensures Join(segs) == Join(segs[..d]) + Join(segs[d..])
  {
    hide Join;
    JoinTwo(segs[..d], segs[d..]);
    assert segs[..d] + segs[d..] == segs;
  }
}
