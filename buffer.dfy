/**
 * The token buffer that every parser reads from. Only the tokens that are
 * still to be read matter to the parsers, so a buffer is the sequence of its
 * remaining tokens. A cursor is another read position over the same tokens:
 * `Cursor()` returns a fresh object whose reads never move the buffer.
 * Parsers accept either (Rust's `impl Buffer<char>`), so one class plays both roles.
 */
module Buffers {
  import opened Wrappers

  class Buffer<T> {
    /** The tokens not yet read from this buffer or cursor. */
    var rest: seq<T>

    constructor (tokens: seq<T>)
      ensures rest == tokens
    {
      rest := tokens;
    }

    /** `next()`: the head token, or None at the end of input; advances only this object. */
    method Next() returns (t: Option<T>)
      modifies this
      ensures old(rest) == [] ==> t == None && rest == []
      ensures old(rest) != [] ==> t == Some(old(rest)[0]) && rest == old(rest)[1..]
    {
      if rest == [] {
        t := None;
      } else {
        t := Some(rest[0]);
        rest := rest[1..];
      }
    }

    /** `cursor()`: an independent read position starting where this one stands. */
    method Cursor() returns (c: Buffer<T>)
      ensures fresh(c) && c.rest == rest
    {
      c := new Buffer(rest);
    }

    /** Reads n tokens, or all that remain, one `next()` at a time. */
    method Skip(n: nat)
      modifies this
      ensures rest == old(rest)[Min(n, |old(rest)|)..]
    {
      ghost var start := rest;
      var i := 0;
      while i < n && rest != []
        invariant i <= n && i <= |start|
        invariant rest == start[i..]
      {
        var _ := Next();
        i := i + 1;
      }
      assert i == Min(n, |start|);
    }
  }
}
