/** The usage examples of the one-character parsers, as client methods over fresh buffers. */
module OneOfExamples {
  import opened Wrappers
  import opened Buffers
  import opened OneOf

  /** `OneOf<"-_">` on "-" yields '-'; on "a" it reports the set and the char found. */
  method DashOrUnderscore() returns (dash: Result<OneOf, string>, letter: Result<OneOf, string>)
    ensures dash.Success? && dash.value.Process() == '-'
    ensures letter == Failure("error parsing one of \"-_\", found 'a'")
  {
    var input := new Buffer("-");
    dash := OneOfParse("-_", input);
    input := new Buffer("a");
    letter := OneOfParse("-_", input);
    assert OneOfFound("-_", 'a') == "error parsing one of \"-_\", found 'a'";
  }

  /** `OneOf` at the end of input reports EOF. */
  method OneOfAtEof(chars: string) returns (r: Result<OneOf, string>)
    ensures r == Failure("error parsing one of \"" + chars + "\", reached EOF")
  {
    var input := new Buffer("");
    r := OneOfParse(chars, input);
    assert OneOfEof(chars) == "error parsing one of \"" + chars + "\", reached EOF";
  }

  /** `OneInRange<'0'..='9'>` on "12" yields '1' and leaves "2". */
  method DigitFromTwelve() returns (r: Result<OneInRange, string>, left: string)
    ensures r.Success? && r.value.Process() == '1' && left == "2"
  {
    var input := new Buffer("12");
    r := OneInRangeParse(CharRange('0', '9'), input);
    left := input.rest;
  }

  /** The aliases on their documented inputs: 'h' from "helloWorld", 'H' from "HELLOworld", '1' from "1024$". */
  method Aliases() returns (lower: Result<OneInRange, string>, upper: Result<OneInRange, string>, digit: Result<OneInRange, string>)
    ensures lower.Success? && lower.value.Process() == 'h'
    ensures upper.Success? && upper.value.Process() == 'H'
    ensures digit.Success? && digit.value.Process() == '1'
  {
    var input := new Buffer("helloWorld");
    lower := OneInRangeParse(Lowercase, input);
    input := new Buffer("HELLOworld");
    upper := OneInRangeParse(Uppercase, input);
    input := new Buffer("1024$");
    digit := OneInRangeParse(Digits, input);
  }

  /** A char outside the range is read and reported; the parse does not put it back. */
  method LowercaseRejectsUpper() returns (r: Result<OneInRange, string>, left: string)
    ensures r == Failure("could not parse char in range 'a'..='z', found 'W'")
    ensures left == "orld"
  {
    var input := new Buffer("World");
    r := OneInRangeParse(Lowercase, input);
    left := input.rest;
    assert RangeFound(Lowercase, 'W') == "could not parse char in range 'a'..='z', found 'W'";
  }
}
