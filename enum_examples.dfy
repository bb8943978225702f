/**
 * The derive applied to a two-variant enum whose variants each hold one tag:
 *
 *   enum Sign { Plus(Tag<"+">), Minus(Tag<"-">) }
 *
 * The tag fields are built from the `Tags` model of `Tag::peek` and
 * `Tag::parse`, so the derived procedures run on what those really do.
 */
module EnumExamples {
  import opened Wrappers
  import opened Buffers
  import opened Tags
  import opened EnumDerive

  /** `Tag<tag>` as a field of a derived enum: its peek on a cursor and its parse on a buffer. */
  function TagElement(tag: string): Element<char, string>
  {
    var n := Utf8Len(tag);
    Element(
      s => var o := TagPeekOutcome(tag, n, s); Peeked(o.accepted, o.pulled),
      s => Parsed(if ParseAccepts(tag, n, s) then Success(tag) else Failure(Message(TagError(tag, Taken(s, n)))),
                  Min(n, |s|)))
  }

  /** `into()` on the parsed tag text. */
  function Id(s: string): string
  {
    s
  }

  function TagField(tag: string): Field<char, string>
  {
    Field(TagElement(tag), Id)
  }

  /** A tag field meets the hypothesis of the peek-implies-parse lemmas: whenever its peek accepts, its parse succeeds after reading as much. */
  lemma TagElementSound(tag: string)
    ensures Sound(TagElement(tag))
  {
    var e := TagElement(tag);
    var n := Utf8Len(tag);
    forall s | e.peek(s).ok
      ensures e.parse(s).result.Success? && e.parse(s).used == e.peek(s).used
    {
      PeekAgreesWithParse(tag, n, s);
    }
  }

  const NoAttrs: GlobalAttr<char, string> := GlobalAttr(None, None)

  function TagVariant(name: string, tag: string): EnumField<char, string>
  {
    EnumField(name, Tuple([TagField(tag)]))
  }

  function SignInput(): EnumInput<char, string>
  {
    EnumInput(NoAttrs, "Sign", [], [TagVariant("Plus", "+"), TagVariant("Minus", "-")])
  }

  /** The only field of a tag variant parses to the tag text, reading the tag, on any text that starts with it. */
  lemma TagFieldParses(tag: string, text: string)
    requires IsAscii(tag) && tag <= text
    ensures ParseFields([TagField(tag)], text) == Parsed(Success([tag]), |tag|)
  {
    var f := TagField(tag);
    ParseAcceptsExactly(tag, text);
    assert f.elem.parse(text) == Parsed(Success(tag), |tag|);
    assert [f][1..] == [];
    assert ParseFields([f][1..], text[|tag|..]) == Parsed(Success([]), 0);
    assert [tag] + [] == [tag];
  }

  /** `Sign` meets the hypothesis of `PeekThenParse`: it has no literals and each of its fields is a tag. */
  lemma SignIsSound()
    ensures SoundFix(SignInput().attrs.prefix) && SoundFix(SignInput().attrs.suffix)
    ensures forall i :: 0 <= i < |SignInput().fields| ==> SoundFields(FieldsOf(SignInput().fields[i].fieldType))
  {
    TwoTagVariantsSound("Plus", "+", "Minus", "-");
  }

  /** Both fields of an enum of two tag variants are sound. */
  lemma TwoTagVariantsSound(n0: string, t0: string, n1: string, t1: string)
    ensures var fields := [TagVariant(n0, t0), TagVariant(n1, t1)];
            forall i :: 0 <= i < |fields| ==> SoundFields(FieldsOf(fields[i].fieldType))
  {
    TagVariantSound(n0, t0);
    TagVariantSound(n1, t1);
  }

  /** The one field of a tag variant is sound. */
  lemma TagVariantSound(name: string, tag: string)
    ensures SoundFields(FieldsOf(TagVariant(name, tag).fieldType))
  {
    assert FieldsOf(TagVariant(name, tag).fieldType) == [TagField(tag)];
    TagElementSound(tag);
  }

  /** The peek helper of a variant holding one ASCII tag accepts exactly the inputs that start with the tag. */
  lemma TagVariantPeek(name: string, tag: string, text: string)
    requires IsAscii(tag)
    ensures PeekAll(PeekBody(NoAttrs, FieldsOf(TagVariant(name, tag).fieldType)), text).ok <==> tag <= text
  {
    var f := TagField(tag);
    var body := PeekBody(NoAttrs, FieldsOf(TagVariant(name, tag).fieldType));
    assert FieldsOf(TagVariant(name, tag).fieldType) == [f];
    assert Elems([f])[0] == f.elem && Elems([f])[1..] == [];
    assert |body| == 1 && body[0] == TagElement(tag) && body[1..] == [];
    PeekAgreesWithParse(tag, Utf8Len(tag), text);
    ParseAcceptsExactly(tag, text);
  }

  /** On an input that starts with its ASCII tag, the parse helper of such a variant yields the variant, reading the tag. */
  lemma TagVariantParse(enumName: string, name: string, tag: string, text: string)
    requires IsAscii(tag) && tag <= text
    ensures RunParse(ParseBody(NoAttrs, enumName, TagVariant(name, tag)), text)
              == Parsed(Success(Value(name, Positional([tag]))), |tag|)
  {
    TagFieldParses(tag, text);
    OneFieldVariantParse(enumName, name, TagField(tag), text, tag, |tag|);
  }

  /** The parse helper of a variant with one field and no enum literals yields the variant holding that field's value. */
  lemma OneFieldVariantParse<V>(enumName: string, name: string, f: Field<char, V>, text: string, x: V, n: nat)
    requires ParseFields([f], text) == Parsed(Success([x]), n)
    ensures RunParse(ParseBody(GlobalAttr(None, None), enumName, EnumField(name, Tuple([f]))), text)
              == Parsed(Success(Value(name, Positional([f.into(x)]))), n)
  {
    var proc := ParseBody(GlobalAttr(None, None), enumName, EnumField(name, Tuple([f])));
    assert FieldsOf(proc.fieldType) == [f];
    var p := Construct(Tuple([f]), [x]);
    assert p == Positional([f.into(x)]);
    RunParseWithoutFixes(proc, text);
  }

  /** Without a prefix or a suffix, a parse helper is its fields' parse followed by the constructor. */
  lemma RunParseWithoutFixes<V>(proc: ParseProc<char, V>, text: string)
    requires proc.prefix.None? && proc.suffix.None?
    ensures var fs := ParseFields(FieldsOf(proc.fieldType), text);
            RunParse(proc, text) ==
              if fs.result.Failure? then Parsed(Failure(fs.result.error), fs.used)
              else Parsed(Success(Value(proc.variant, Construct(proc.fieldType, fs.result.value))), fs.used)
  {
  }

  /** The dispatch over two variants tries the first, then the second. */
  lemma FirstOfTwo(procs: seq<seq<Element<char, string>>>, text: string)
    requires |procs| == 2
    ensures FirstAccepting(procs, text) ==
              if PeekAll(procs[0], text).ok then Some(0) else if PeekAll(procs[1], text).ok then Some(1) else None
  {
  }

  /** The helper bodies `Sign`'s builders collect, one per variant, in declaration order. */
  lemma SignBodies()
    ensures |SignInput().fields| == 2
    ensures PeekBodies(NoAttrs, SignInput().fields)[0] == PeekBody(NoAttrs, FieldsOf(TagVariant("Plus", "+").fieldType))
    ensures PeekBodies(NoAttrs, SignInput().fields)[1] == PeekBody(NoAttrs, FieldsOf(TagVariant("Minus", "-").fieldType))
    ensures ParseBodies(NoAttrs, "Sign", SignInput().fields)[0] == ParseBody(NoAttrs, "Sign", TagVariant("Plus", "+"))
    ensures ParseBodies(NoAttrs, "Sign", SignInput().fields)[1] == ParseBody(NoAttrs, "Sign", TagVariant("Minus", "-"))
  {
  }

  /** The derived procedures of `Sign`: which variants' peek helpers accept text, and what the parse helpers return there. */
  lemma SignProcs(peeks: seq<seq<Element<char, string>>>, procs: seq<ParseProc<char, string>>, text: string)
    requires peeks == PeekBodies(NoAttrs, SignInput().fields)
    requires procs == ParseBodies(NoAttrs, "Sign", SignInput().fields)
    ensures |peeks| == 2 && |procs| == 2
    ensures PeekAll(peeks[0], text).ok <==> "+" <= text
    ensures PeekAll(peeks[1], text).ok <==> "-" <= text
    ensures "+" <= text ==> RunParse(procs[0], text) == Parsed(Success(Value("Plus", Positional(["+"]))), 1)
    ensures "-" <= text ==> RunParse(procs[1], text) == Parsed(Success(Value("Minus", Positional(["-"]))), 1)
  {
    assert IsAscii("+") && IsAscii("-");
    SignBodies();
    TagVariantPeek("Plus", "+", text);
    TagVariantPeek("Minus", "-", text);
    if "+" <= text {
      TagVariantParse("Sign", "Plus", "+", text);
    }
    if "-" <= text {
      TagVariantParse("Sign", "Minus", "-", text);
    }
  }

  /** A derived parse over two variants, the first taking "+" and the second "-", on any text. */
  lemma SignOutcome(peeks: seq<seq<Element<char, string>>>, procs: seq<ParseProc<char, string>>, text: string,
                    r: Result<Value<string>, Error>, left: string)
    requires |peeks| == 2 && |procs| == 2
    requires PeekAll(peeks[0], text).ok <==> "+" <= text
    requires PeekAll(peeks[1], text).ok <==> "-" <= text
    requires "+" <= text ==> RunParse(procs[0], text) == Parsed(Success(Value("Plus", Positional(["+"]))), 1)
    requires "-" <= text ==> RunParse(procs[1], text) == Parsed(Success(Value("Minus", Positional(["-"]))), 1)
    requires match FirstAccepting(peeks, text)
             case None => r == Failure(NoVariants("Sign")) && left == text
             case Some(k) => k < |procs| && var p := RunParse(procs[k], text); r == p.result && left == text[p.used..]
    ensures "+" <= text ==> r == Success(Value("Plus", Positional(["+"]))) && left == text[1..]
    ensures "-" <= text ==> r == Success(Value("Minus", Positional(["-"]))) && left == text[1..]
    ensures !("+" <= text) && !("-" <= text) ==>
              r == Failure(Message("no variants of Sign could be parsed")) && left == text
  {
    SignNoVariants();
    SignsExclusive(text);
    FirstOfTwo(peeks, text);
  }

  /** The dispatch error of `Sign`, written out. */
  lemma SignNoVariants()
    ensures NoVariants("Sign") == Message("no variants of Sign could be parsed")
  {
  }

  /** No text starts with both "+" and "-". */
  lemma SignsExclusive(text: string)
    ensures !("+" <= text && "-" <= text)
  {
    if "+" <= text {
      assert text[0] == '+';
    }
  }

  /** The code derived for input, parsing text from a fresh buffer: what the emitted `parse` promises, and what it leaves. */
  method DeriveAndParse<V>(input: EnumInput<char, V>, text: string) returns (r: Result<Value<V>, Error>, left: string)
    ensures var procs := ParseBodies(input.attrs, input.name, input.fields);
            match FirstAccepting(PeekBodies(input.attrs, input.fields), text)
            case None => r == Failure(NoVariants(input.name)) && left == text
            case Some(k) => k < |procs| && var p := RunParse(procs[k], text); r == p.result && left == text[p.used..]
  {
    var peek, parse := Process(input);
    var buffer := new Buffer(text);
    r := parse.Parse(peek, buffer);
    left := buffer.rest;
  }

  /**
   * The derived `peek` then `parse` of any enum whose literals and fields
   * are sound: peek on a cursor leaves the buffer alone; when it accepts,
   * parse succeeds with the first variant whose peek helper accepts, and
   * when it refuses, parse reports that no variant could be parsed.
   */
  method PeekThenParse<V>(input: EnumInput<char, V>, text: string) returns (peeked: bool, r: Result<Value<V>, Error>, left: string)
    requires SoundFix(input.attrs.prefix) && SoundFix(input.attrs.suffix)
    requires forall i :: 0 <= i < |input.fields| ==> SoundFields(FieldsOf(input.fields[i].fieldType))
    ensures peeked <==> exists i :: 0 <= i < |input.fields| && PeekAll(PeekBodies(input.attrs, input.fields)[i], text).ok
    ensures peeked ==> r.Success? &&
                       exists i :: 0 <= i < |input.fields| && r.value.variant == input.fields[i].name
    ensures !peeked ==> r == Failure(NoVariants(input.name)) && left == text
  {
    var peek, parse := Process(input);
    var buffer := new Buffer(text);
    peeked := peek.Peek(buffer);
    assert buffer.rest == text;
    r := parse.Parse(peek, buffer);
    left := buffer.rest;
    if peeked {
      DerivedPeekImpliesParse(input, text);
    }
  }

  /**
   * The derived `Sign::parse` on any text: `Plus` when the text starts with
   * "+", `Minus` when it starts with "-", each reading one char; otherwise
   * the "no variants" error with the text left unread.
   */
  method ParseSign(text: string) returns (r: Result<Value<string>, Error>, left: string)
    ensures "+" <= text ==> r == Success(Value("Plus", Positional(["+"]))) && left == text[1..]
    ensures "-" <= text ==> r == Success(Value("Minus", Positional(["-"]))) && left == text[1..]
    ensures !("+" <= text) && !("-" <= text) ==>
              r == Failure(Message("no variants of Sign could be parsed")) && left == text
  {
    var input := SignInput();
    assert input.attrs == NoAttrs && input.name == "Sign";
    r, left := DeriveAndParse(input, text);
    ghost var peeks, procs := PeekBodies(NoAttrs, input.fields), ParseBodies(NoAttrs, "Sign", input.fields);
    SignProcs(peeks, procs, text);
    SignOutcome(peeks, procs, text, r, left);
  }

  /**
   * `Sign::peek` then `Sign::parse` on one buffer: peek accepts exactly the
   * texts that start with "+" or "-", and then parse yields `Plus` or `Minus`;
   * otherwise parse reports the "no variants" error and reads nothing.
   */
  method PeekThenParseSign(text: string) returns (peeked: bool, r: Result<Value<string>, Error>, left: string)
    ensures peeked <==> "+" <= text || "-" <= text
    ensures peeked ==> r.Success? && (r.value.variant == "Plus" || r.value.variant == "Minus")
    ensures !peeked ==> r == Failure(NoVariants("Sign")) && left == text
  {
    var input := SignInput();
    SignIsSound();
    ghost var peeks, procs := PeekBodies(NoAttrs, input.fields), ParseBodies(NoAttrs, "Sign", input.fields);
    SignProcs(peeks, procs, text);
    assert input.fields[0].name == "Plus" && input.fields[1].name == "Minus";
    peeked, r, left := PeekThenParseTwo(input, text, "+", "-");
  }

  /** `PeekThenParse` for an enum of two variants whose peek helpers accept the texts starting with a and with b. */
  method PeekThenParseTwo<V>(input: EnumInput<char, V>, text: string, a: string, b: string)
    returns (peeked: bool, r: Result<Value<V>, Error>, left: string)
    requires SoundFix(input.attrs.prefix) && SoundFix(input.attrs.suffix)
    requires forall i :: 0 <= i < |input.fields| ==> SoundFields(FieldsOf(input.fields[i].fieldType))
    requires |input.fields| == 2
    requires PeekAll(PeekBodies(input.attrs, input.fields)[0], text).ok <==> a <= text
    requires PeekAll(PeekBodies(input.attrs, input.fields)[1], text).ok <==> b <= text
    ensures peeked <==> a <= text || b <= text
    ensures peeked ==> r.Success? && (r.value.variant == input.fields[0].name || r.value.variant == input.fields[1].name)
    ensures !peeked ==> r == Failure(NoVariants(input.name)) && left == text
  {
    peeked, r, left := PeekThenParse(input, text);
  }

  /** `EnumInput::new` refuses an enum with a unit variant, wherever it sits. */
  method UnitVariantPanics() returns (r: Result<EnumInput<char, string>, string>)
    ensures r == Failure("Unit variants not supported in enum parse derive")
  {
    var plus := SynVariant("Plus", SynUnnamed([TagField("+")]));
    var empty := SynVariant("Empty", SynUnit);
    r := NewEnumInput("Sign", [], NoAttrs, [plus, empty]);
    assert [plus, empty][1].fields.SynUnit?;
  }
}
