/**
 * `Tag<TAG>`: matches the literal string TAG. Both `peek` and `parse` read
 * `TAG.len()` tokens, and Rust's `str::len` is the UTF-8 byte length of TAG,
 * not its number of chars. The take count is therefore kept as a parameter
 * `n` of the underlying procedures: `Peek` and `Parse` pass `Utf8Len(tag)`
 * as the library does, `ParseByChars` passes `|tag|`.
 */
module Tags {
  import opened Wrappers
  import opened Buffers

  /** The value a successful parse returns; `process` hands it back unchanged. */
  datatype Tag = Tag(text: string)
  {
    function Process(): Tag
    {
      this
    }
  }

  /** Number of bytes in the UTF-8 encoding of c. */
  function Utf8Width(c: char): nat
  {
    if c as int < 0x80 then 1
    else if c as int < 0x800 then 2
    else if c as int < 0x1_0000 then 3
    else 4
  }

  predicate IsAscii(s: string)
  {
    forall i :: 0 <= i < |s| ==> s[i] as int < 0x80
  }

  /** `str::len`: the UTF-8 byte length; it equals the char count exactly for ASCII text. */
  function Utf8Len(s: string): (n: nat)
    ensures |s| <= n <= 4 * |s|
    ensures n == |s| <==> IsAscii(s)
  {
    if s == [] then 0
    else
      assert IsAscii(s) <==> s[0] as int < 0x80 && IsAscii(s[1..]) by {
        if s[0] as int < 0x80 && IsAscii(s[1..]) {
          forall i | 0 <= i < |s| ensures s[i] as int < 0x80 {
            if i > 0 { assert s[i] == s[1..][i - 1]; }
          }
        }
      }
      Utf8Width(s[0]) + Utf8Len(s[1..])
  }

  /** What `input.take(n)` collects: the next n tokens, or all that remain. */
  function Taken<T>(rest: seq<T>, n: nat): seq<T>
  {
    rest[..Min(n, |rest|)]
  }

  /** `parse` succeeds exactly when the collected tokens spell the tag. */
  predicate ParseAccepts(tag: string, n: nat, rest: string)
  {
    Taken(rest, n) == tag
  }

  /** Length of the longest common prefix of a and b. */
  function CommonPrefix<T(==)>(a: seq<T>, b: seq<T>): (k: nat)
    ensures k <= |a| && k <= |b|
    ensures a[..k] == b[..k]
    ensures k < |a| && k < |b| ==> a[k] != b[k]
  {
    if a == [] || b == [] || a[0] != b[0] then 0
    else
      var k := 1 + CommonPrefix(a[1..], b[1..]);
      assert a[..k] == [a[0]] + a[1..][..k - 1];
      assert b[..k] == [b[0]] + b[1..][..k - 1];
      k
  }

  /** Any i where a and b agree before i and part at i is their common prefix length. */
  lemma CommonPrefixAt<T>(a: seq<T>, b: seq<T>, i: nat)
    requires i <= |a| && i <= |b| && a[..i] == b[..i]
    requires i == |a| || i == |b| || a[i] != b[i]
    ensures CommonPrefix(a, b) == i
  {
  }

  datatype PeekOutcome = PeekOutcome(accepted: bool, pulled: nat)

  /**
   * `TAG.chars().eq(input.take(n))` with the number of tokens it pulls from
   * the input. `Iterator::eq` stops at the first char that differs (having
   * pulled it) or at the end of input; once the tag's chars run out it asks
   * `take(n)` for one more token, which reads the input again when n exceeds
   * the tag's char count, and succeeds only if that read finds the end.
   */
  function TagPeekOutcome(tag: string, n: nat, rest: string): (o: PeekOutcome)
    requires |tag| <= n
    ensures o.pulled <= |rest|
  {
    var k := CommonPrefix(tag, rest);
    if k < |tag| then PeekOutcome(false, if k < |rest| then k + 1 else k)
    else if n == |tag| || |rest| == |tag| then PeekOutcome(true, |tag|)
    else PeekOutcome(false, |tag| + 1)
  }

  /** Peek accepts exactly the inputs parse accepts, for any take count at least the char count. */
  lemma PeekAgreesWithParse(tag: string, n: nat, rest: string)
    requires |tag| <= n
    ensures TagPeekOutcome(tag, n, rest).accepted <==> ParseAccepts(tag, n, rest)
  {
  }

  /** With the char count as take count, parse accepts exactly the inputs that start with the tag. */
  lemma ParseByCharsAcceptsPrefix(tag: string, rest: string)
    ensures ParseAccepts(tag, |tag|, rest) <==> tag <= rest
  {
  }

  /**
   * With `TAG.len()` as take count, parse accepts an input that starts with
   * the tag only when the tag is ASCII or the input ends right after it.
   */
  lemma ParseAcceptsExactly(tag: string, rest: string)
    ensures ParseAccepts(tag, Utf8Len(tag), rest) <==> tag <= rest && (IsAscii(tag) || rest == tag)
  {
  }

  /** Parsing an ASCII tag from tag + rest takes exactly the tag and leaves rest. */
  lemma AsciiTagThenRest(tag: string, rest: string)
    requires IsAscii(tag)
    ensures ParseAccepts(tag, Utf8Len(tag), tag + rest)
    ensures Taken(tag + rest, Utf8Len(tag)) == tag
    ensures (tag + rest)[Min(Utf8Len(tag), |tag + rest|)..] == rest
  {
  }

  /** "é" is two UTF-8 bytes, so `Tag<"é">` does not match "éa" although the input starts with it. */
  lemma NonAsciiTagRejected()
    ensures "é" <= "éa" && !ParseAccepts("é", Utf8Len("é"), "éa")
  {
  }

  /** `{:?}` of a string, without Debug's escaping of quotes, backslashes and control chars. */
  function Quote(s: string): string
  {
    "\"" + s + "\""
  }

  /** The error `parse` reports when the collected text is not the tag: it names the tag first and ends with the quoted text found. */
  function TagError(tag: string, found: string): (r: string)
    ensures "failed to parse tag " + Quote(tag) + ", found " <= r
    ensures |r| == |tag| + |found| + 32
    ensures r[|r| - |found| - 2..] == Quote(found)
  {
    "failed to parse tag " + Quote(tag) + ", found " + Quote(found)
  }

  /** For one tag, the error text determines the text found. */
  lemma TagErrorNamesFound(tag: string, found: string, other: string)
    ensures TagError(tag, found) == TagError(tag, other) <==> found == other
  {
    if TagError(tag, found) == TagError(tag, other) {
      var k := |"failed to parse tag " + Quote(tag) + ", found "|;
      assert found == TagError(tag, found)[k + 1..|TagError(tag, found)| - 1];
    }
  }

  /** `Tag::peek` with take count n: pulls tokens from `input` (a cursor) as `Iterator::eq` does. */
  method PeekTaking(tag: string, n: nat, input: Buffer<char>) returns (ok: bool)
    requires |tag| <= n
    modifies input
    ensures var o := TagPeekOutcome(tag, n, old(input.rest));
            ok == o.accepted && input.rest == old(input.rest)[o.pulled..]
  {
    ghost var start := input.rest;
    var i := 0;
    // take(n) never runs out before the tag's chars do, as n >= |tag|
    while i < |tag|
      invariant i <= |tag| && i <= |start|
      invariant input.rest == start[i..]
      invariant tag[..i] == start[..i]
    {
      var t := input.Next();
      if t.None? {
        CommonPrefixAt(tag, start, i);
        return false;
      }
      if t.value != tag[i] {
        CommonPrefixAt(tag, start, i);
        return false;
      }
      assert tag[..i + 1] == tag[..i] + [tag[i]];
      assert start[..i + 1] == start[..i] + [start[i]];
      i := i + 1;
    }
    CommonPrefixAt(tag, start, |tag|);
    if n == |tag| {
      // take(n) is used up: eq compares two exhausted iterators
      return true;
    }
    var t := input.Next();
    ok := t.None?;
  }

  /** `Tag::parse` with take count n: collects up to n tokens into a string and compares it with the tag. */
  method ParseTaking(tag: string, n: nat, input: Buffer<char>) returns (r: Result<Tag, string>)
    modifies input
    ensures input.rest == old(input.rest)[Min(n, |old(input.rest)|)..]
    ensures r.Success? <==> ParseAccepts(tag, n, old(input.rest))
    ensures r.Success? ==> r.value == Tag(tag)
    ensures r.Failure? ==> r.error == TagError(tag, Taken(old(input.rest), n))
  {
    ghost var start := input.rest;
    var s := "";
    var left := n;
    while left > 0
      invariant |s| + left == n && |s| <= |start|
      invariant s == start[..|s|] && input.rest == start[|s|..]
    {
      var t := input.Next();
      if t.None? {
        break;
      }
      s := s + [t.value];
      left := left - 1;
    }
    assert s == Taken(start, n);
    if tag == s {
      r := Success(Tag(tag));
    } else {
      r := Failure(TagError(tag, s));
    }
  }

  /** `Tag<TAG>::peek` as written: takes `TAG.len()` (UTF-8 bytes) tokens from the cursor. */
  method Peek(tag: string, input: Buffer<char>) returns (ok: bool)
    modifies input
    ensures ok <==> ParseAccepts(tag, Utf8Len(tag), old(input.rest))
    ensures input.rest == old(input.rest)[TagPeekOutcome(tag, Utf8Len(tag), old(input.rest)).pulled..]
  {
    ok := PeekTaking(tag, Utf8Len(tag), input);
    PeekAgreesWithParse(tag, Utf8Len(tag), old(input.rest));
  }

  /** `Tag<TAG>::parse` as written: takes `TAG.len()` (UTF-8 bytes) tokens from the buffer. */
  method Parse(tag: string, input: Buffer<char>) returns (r: Result<Tag, string>)
    modifies input
    ensures input.rest == old(input.rest)[Min(Utf8Len(tag), |old(input.rest)|)..]
    ensures r.Success? <==> tag <= old(input.rest) && (IsAscii(tag) || old(input.rest) == tag)
    ensures r.Success? ==> r.value.Process() == Tag(tag)
    ensures r.Failure? ==> r.error == TagError(tag, Taken(old(input.rest), Utf8Len(tag)))
  {
    r := ParseTaking(tag, Utf8Len(tag), input);
    ParseAcceptsExactly(tag, old(input.rest));
  }

  /** The tag parser with the take count it evidently intends: one token per char of the tag. */
  method ParseByChars(tag: string, input: Buffer<char>) returns (r: Result<Tag, string>)
    modifies input
    ensures r.Success? <==> tag <= old(input.rest)
    ensures r.Success? ==> r.value == Tag(tag) && old(input.rest) == tag + input.rest
    ensures r.Failure? ==> r.error == TagError(tag, Taken(old(input.rest), |tag|))
  {
    r := ParseTaking(tag, |tag|, input);
    ParseByCharsAcceptsPrefix(tag, old(input.rest));
    if r.Success? {
      assert old(input.rest) == old(input.rest)[..|tag|] + old(input.rest)[|tag|..];
    }
  }

  /** The tag peek with the same corrected take count: it accepts exactly the inputs that start with the tag, and then has read the tag. */
  method PeekByChars(tag: string, input: Buffer<char>) returns (ok: bool)
    modifies input
    ensures ok <==> tag <= old(input.rest)
    ensures ok ==> old(input.rest) == tag + input.rest
  {
    ok := PeekTaking(tag, |tag|, input);
    PeekAgreesWithParse(tag, |tag|, old(input.rest));
    ParseByCharsAcceptsPrefix(tag, old(input.rest));
    if ok {
      assert old(input.rest) == old(input.rest)[..|tag|] + old(input.rest)[|tag|..];
    }
  }
}
