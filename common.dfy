/** Values shared by the modules of the crawler model. */
module Common {

  datatype Option<+T> = None | Some(value: T)

  /** The outcome of a Python call that either returns a value or lets an
      exception escape to its caller. */
  datatype Attempt<+T> = Returned(value: T) | Raised

  type Url = string

  /** The body of a fetched page; the empty body is falsy in Python. */
  type Content = string

  /** One element of a parsed HTML document: its tag name and the value of
      its href attribute when the element carries one. */
  datatype Element = Element(tag: string, href: Option<string>)

  /** The platform resolver's answer for one host name, as
      `socket.gethostbyname` gives it: an address, or one of the two kinds of
      socket error (`socket.gaierror` is a subclass of `socket.error`). */
  datatype Lookup = Address(ip: string) | GaiError | SocketError

  predicate StartsWith(s: string, prefix: string) {
    |prefix| <= |s| && s[..|prefix|] == prefix
  }

  /** `xs` occurs in `ys` in the same order, possibly with gaps. */
  predicate IsSubsequence<T(==)>(xs: seq<T>, ys: seq<T>)
    decreases |ys|
  {
    if xs == [] then true
    else if ys == [] then false
    else if xs[|xs| - 1] == ys[|ys| - 1] then IsSubsequence(xs[..|xs| - 1], ys[..|ys| - 1])
    else IsSubsequence(xs, ys[..|ys| - 1])
  }

  lemma {:induction false} SubsequenceExtend<T>(xs: seq<T>, ys: seq<T>, y: T)
    requires IsSubsequence(xs, ys)
    ensures IsSubsequence(xs, ys + [y])
    decreases |ys|, 1
  {
    assert (ys + [y])[..|ys|] == ys;
    if xs != [] && xs[|xs| - 1] == y {
      SubsequenceDropLast(xs, ys);
    }
  }

  lemma {:induction false} SubsequenceDropLast<T>(xs: seq<T>, ys: seq<T>)
    requires xs != [] && IsSubsequence(xs, ys)
    ensures IsSubsequence(xs[..|xs| - 1], ys)
    decreases |ys|, 0
  {
    var init := ys[..|ys| - 1];
    assert init + [ys[|ys| - 1]] == ys;
    if xs[|xs| - 1] != ys[|ys| - 1] {
      SubsequenceDropLast(xs, init);
    }
    SubsequenceExtend(xs[..|xs| - 1], init, ys[|ys| - 1]);
  }
}
