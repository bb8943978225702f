/** The usage example and the unit tests of `Tag`, as client methods over fresh buffers. */
module TagExamples {
  import opened Wrappers
  import opened Buffers
  import opened Tags

  /** Parsing "foobar" then "baz" from "foobarbaz" succeeds twice and reads everything. */
  method FooBarBaz() returns (first: Result<Tag, string>, second: Result<Tag, string>, left: string)
    ensures first == Success(Tag("foobar")) && second == Success(Tag("baz")) && left == ""
  {
    var input := new Buffer("foobarbaz");
    AsciiTagThenRest("foobar", "baz");
    first := Parse("foobar", input);
    AsciiTagThenRest("baz", "");
    second := Parse("baz", input);
    left := input.rest;
  }

  /** Parses one single-char ASCII tag from a buffer that starts with it. */
  method ParseOne(tag: string, input: Buffer<char>) returns (ok: bool)
    requires |tag| == 1 && tag[0] as int < 0x80 && tag <= input.rest
    modifies input
    ensures ok && input.rest == old(input.rest)[1..]
  {
    var r := Parse(tag, input);
    ok := r.Success?;
  }

  /** The eight bracket tags parsed in order consume "(){}[]<>" entirely. */
  method ParseBrackets() returns (all: bool, last: Option<char>)
    ensures all && last == None
  {
    var input := new Buffer("(){}[]<>");
    var ok0 := ParseOne("(", input);
    var ok1 := ParseOne(")", input);
    var ok2 := ParseOne("{", input);
    var ok3 := ParseOne("}", input);
    var ok4 := ParseOne("[", input);
    var ok5 := ParseOne("]", input);
    var ok6 := ParseOne("<", input);
    var ok7 := ParseOne(">", input);
    all := ok0 && ok1 && ok2 && ok3 && ok4 && ok5 && ok6 && ok7;
    last := input.Next();
  }

  /** Peeks one single-char ASCII tag on a cursor that starts with it; the cursor moves past it. */
  method PeekOne(tag: string, cursor: Buffer<char>) returns (ok: bool)
    requires |tag| == 1 && tag[0] as int < 0x80 && tag <= cursor.rest
    modifies cursor
    ensures ok && cursor.rest == old(cursor.rest)[1..]
  {
    ok := Peek(tag, cursor);
    assert CommonPrefix(tag, old(cursor.rest)) == 1 by {
      CommonPrefixAt(tag, old(cursor.rest), 1);
    }
  }

  /** Successive peeks on one cursor match consecutive tags; the buffer itself is not moved. */
  method PeekBrackets() returns (all: bool, last: Option<char>, buffered: string)
    ensures all && last == None && buffered == "(){}[]<>"
  {
    var input := new Buffer("(){}[]<>");
    var cursor := input.Cursor();
    var ok0 := PeekOne("(", cursor);
    var ok1 := PeekOne(")", cursor);
    var ok2 := PeekOne("{", cursor);
    var ok3 := PeekOne("}", cursor);
    var ok4 := PeekOne("[", cursor);
    var ok5 := PeekOne("]", cursor);
    var ok6 := PeekOne("<", cursor);
    var ok7 := PeekOne(">", cursor);
    all := ok0 && ok1 && ok2 && ok3 && ok4 && ok5 && ok6 && ok7;
    last := cursor.Next();
    buffered := input.rest;
  }

  /** "(" and ")" on "1" report the tag and the text read. */
  method ParseErrors() returns (open: Result<Tag, string>, close: Result<Tag, string>)
    ensures open == Failure("failed to parse tag \"(\", found \"1\"")
    ensures close == Failure("failed to parse tag \")\", found \"1\"")
  {
    assert Utf8Len("(") == 1 && Utf8Len(")") == 1 && "1"[..1] == "1";
    var input := new Buffer("1");
    open := Parse("(", input);
    input := new Buffer("1");
    close := Parse(")", input);
    assert TagError("(", "1") == "failed to parse tag \"(\", found \"1\"";
    assert TagError(")", "1") == "failed to parse tag \")\", found \"1\"";
  }

  /** The empty tag takes no token and always succeeds. */
  method EmptyTag(text: string) returns (r: Result<Tag, string>, left: string)
    ensures r == Success(Tag("")) && left == text
  {
    var input := new Buffer(text);
    r := Parse("", input);
    left := input.rest;
  }

  /** On any tag and text, peeking on a cursor accepts exactly when parsing from the buffer succeeds; the peek leaves the buffer where it was. */
  method TagPeekMatchesParse(tag: string, text: string) returns (peeked: bool, parsed: bool, left: string)
    ensures peeked == parsed
    ensures parsed <==> tag <= text && (IsAscii(tag) || text == tag)
    ensures left == text[Min(Utf8Len(tag), |text|)..]
  {
    var input := new Buffer(text);
    var cursor := input.Cursor();
    peeked := Peek(tag, cursor);
    var r := Parse(tag, input);
    parsed := r.Success?;
    left := input.rest;
  }
}
