/**
 * One-character parsers: `OneOf<CHARS>` accepts a char that occurs in CHARS,
 * `OneInRange<lo..=hi>` a char c with lo <= c <= hi. Both peek and parse call
 * `next()` first, so they read exactly one token whenever one is left,
 * whether the test then succeeds or not.
 */
module OneOf {
  import opened Wrappers
  import opened Buffers
  import Tags

  /** `OneOf(c)`: the char read; `process` returns it. */
  datatype OneOf = OneOf(c: char)
  {
    function Process(): char
    {
      c
    }
  }

  /** `OneInRange(c)`: the char read; `process` returns it. */
  datatype OneInRange = OneInRange(c: char)
  {
    function Process(): char
    {
      c
    }
  }

  /** A `RangeInclusive<char>`: empty when lo > hi. */
  datatype CharRange = CharRange(lo: char, hi: char)
  {
    predicate Contains(c: char)
    {
      lo <= c <= hi
    }
  }

  /** The aliases `OneLowercase`, `OneUppercase` and `OneDigits`. */
  const Lowercase := CharRange('a', 'z')
  const Uppercase := CharRange('A', 'Z')
  const Digits := CharRange('0', '9')

  /** What a single read leaves of rest. */
  function Advanced<T>(rest: seq<T>): seq<T>
  {
    if rest == [] then [] else rest[1..]
  }

  /** `{:?}` of a char, without Debug's escaping. */
  function QuoteChar(c: char): string
  {
    "'" + [c] + "'"
  }

  /** `{:?}` of a `RangeInclusive<char>`. */
  function RangeDebug(r: CharRange): string
  {
    QuoteChar(r.lo) + "..=" + QuoteChar(r.hi)
  }

  function OneOfFound(chars: string, c: char): string
  {
    "error parsing one of " + Tags.Quote(chars) + ", found " + QuoteChar(c)
  }

  function OneOfEof(chars: string): string
  {
    "error parsing one of " + Tags.Quote(chars) + ", reached EOF"
  }

  function RangeFound(r: CharRange, c: char): string
  {
    "could not parse char in range " + RangeDebug(r) + ", found " + QuoteChar(c)
  }

  function RangeEof(r: CharRange): string
  {
    "could not parse char in range " + RangeDebug(r) + ", reached EOF"
  }

  /** `OneInRangeError`, declared as the error of `OneInRange::parse`, and its `Display`. */
  datatype OneInRangeError = OneInRangeError(range: CharRange, found: Option<char>)
  {
    function Display(): (r: string)
      ensures "error parsing one char in " + RangeDebug(range) + ", " <= r
      ensures found.None? <==> r[|r| - 3..] == "EOF"
      ensures found.Some? ==> r[|r| - 9..] == "found " + QuoteChar(found.value)
    {
      match found
      case Some(c) =>
        var t := "error parsing one char in " + RangeDebug(range) + ", found " + QuoteChar(c);
        assert t[|t| - 3] == '\'' != 'E';
        t
      case None => "error parsing one char in " + RangeDebug(range) + ", EOF"
    }
  }

  /** For one range, the displayed text determines what was found: another char, or EOF. */
  lemma DisplayNamesFound(r: CharRange, found: Option<char>, other: Option<char>)
    ensures OneInRangeError(r, found).Display() == OneInRangeError(r, other).Display() <==> found == other
  {
    var d, e := OneInRangeError(r, found).Display(), OneInRangeError(r, other).Display();
    if d == e && found.Some? && other.Some? {
      assert found.value == d[|d| - 2] && other.value == e[|e| - 2];
    }
  }

  /** The `Display` of `OneInRangeError` is never the text `OneInRange::parse` reports. */
  lemma RangeErrorTextsDiffer(r: CharRange, found: Option<char>)
    ensures OneInRangeError(r, found).Display() != RangeFound(r, if found.Some? then found.value else ' ')
    ensures OneInRangeError(r, found).Display() != RangeEof(r)
  {
  }

  /** `OneOf<CHARS>::peek`: reads one token from the cursor and tests membership in CHARS. */
  method OneOfPeek(chars: string, input: Buffer<char>) returns (ok: bool)
    modifies input
    ensures ok <==> old(input.rest) != [] && old(input.rest)[0] in chars
    ensures input.rest == Advanced(old(input.rest))
  {
    var t := input.Next();
    match t
    case Some(c) => ok := c in chars;
    case None => ok := false;
  }

  /** `OneOf<CHARS>::parse`: reads one token and returns it if CHARS contains it. */
  method OneOfParse(chars: string, input: Buffer<char>) returns (r: Result<OneOf, string>)
    modifies input
    ensures input.rest == Advanced(old(input.rest))
    ensures r.Success? <==> old(input.rest) != [] && old(input.rest)[0] in chars
    ensures r.Success? ==> r.value.Process() == old(input.rest)[0]
    ensures r.Failure? ==> r.error == if old(input.rest) == [] then OneOfEof(chars)
                                     else OneOfFound(chars, old(input.rest)[0])
  {
    var t := input.Next();
    match t
    case Some(c) =>
      if c in chars {
        r := Success(OneOf(c));
      } else {
        r := Failure(OneOfFound(chars, c));
      }
    case None =>
      r := Failure(OneOfEof(chars));
  }

  /** `OneInRange<CHAR_RANGE>::peek`: reads one token from the cursor and tests the inclusive range. */
  method OneInRangePeek(range: CharRange, input: Buffer<char>) returns (ok: bool)
    modifies input
    ensures ok <==> old(input.rest) != [] && range.lo <= old(input.rest)[0] <= range.hi
    ensures input.rest == Advanced(old(input.rest))
  {
    var t := input.Next();
    match t
    case Some(c) => ok := range.Contains(c);
    case None => ok := false;
  }

  /** `OneInRange<CHAR_RANGE>::parse`: reads one token and returns it if it lies in the range. */
  method OneInRangeParse(range: CharRange, input: Buffer<char>) returns (r: Result<OneInRange, string>)
    modifies input
    ensures input.rest == Advanced(old(input.rest))
    ensures r.Success? <==> old(input.rest) != [] && range.lo <= old(input.rest)[0] <= range.hi
    ensures r.Success? ==> r.value.Process() == old(input.rest)[0]
    ensures r.Failure? ==> r.error == if old(input.rest) == [] then RangeEof(range)
                                     else RangeFound(range, old(input.rest)[0])
  {
    var t := input.Next();
    match t
    case Some(c) =>
      if range.Contains(c) {
        r := Success(OneInRange(c));
      } else {
        r := Failure(RangeFound(range, c));
      }
    case None =>
      r := Failure(RangeEof(range));
  }

  /** On any input, peeking OneOf on a cursor agrees with parsing it from the buffer; the peek does not move the buffer. */
  method OneOfPeekMatchesParse(chars: string, text: string) returns (peeked: bool, parsed: bool, left: string)
    ensures peeked == parsed
    ensures parsed <==> text != [] && text[0] in chars
    ensures left == Advanced(text)
  {
    var input := new Buffer(text);
    var cursor := input.Cursor();
    peeked := OneOfPeek(chars, cursor);
    var r := OneOfParse(chars, input);
    parsed := r.Success?;
    left := input.rest;
  }

  /** On any input, peeking OneInRange on a cursor agrees with parsing it from the buffer. */
  method OneInRangePeekMatchesParse(range: CharRange, text: string) returns (peeked: bool, parsed: bool, left: string)
    ensures peeked == parsed
    ensures parsed <==> text != [] && range.lo <= text[0] <= range.hi
    ensures left == Advanced(text)
  {
    var input := new Buffer(text);
    var cursor := input.Cursor();
    peeked := OneInRangePeek(range, cursor);
    var r := OneInRangeParse(range, input);
    parsed := r.Success?;
    left := input.rest;
  }
}
