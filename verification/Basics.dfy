/** Types shared by the models of the wire formats. */
module Basics {
  /** An octet. Wire data and text are sequences of octets. */
  type byte = x: int | 0 <= x < 256

  /** The error codes the modelled operations report. */
  datatype Errc =
    | InvalidArgument
    | IllegalByteSequence
    | NotConnected
    | Other(code: nat)

  datatype Option<+T> = None | Some(value: T)

  datatype Result<+T> = Ok(value: T) | Err(error: Errc)

  /** `s` starts with `t` at position `at`. */
  ghost predicate Holds<T>(s: seq<T>, at: nat, t: seq<T>) {
    at + |t| <= |s| && s[at..at + |t|] == t
  }

  lemma HoldsSplit<T>(s: seq<T>, at: nat, a: seq<T>, b: seq<T>)
    requires Holds(s, at, a + b)
    ensures Holds(s, at, a) && Holds(s, at + |a|, b)
  {
    var t := s[at..at + |a + b|];
    assert s[at..at + |a|] == t[..|a|] == a;
    assert s[at + |a|..at + |a| + |b|] == t[|a|..] == b;
  }

  lemma HeadTail<T>(s: seq<T>, t: seq<T>)
    requires s != []
    ensures [s[0]] + (s[1..] + t) == s + t
  {}

  lemma TakeDrop<T>(s: seq<T>, k: nat)
    requires k <= |s|
    ensures s[..k] + s[k..] == s
  {}
}
