/**
 * `#[derive(Peek, Parse)]` on an enum. The derivation builds Rust code; this
 * module models what that code does once it runs.
 *
 * For each variant `EnumPeek` emits a helper `__peek_<variant>` that peeks
 * the enum prefix, every field by index and the enum suffix on one cursor,
 * and a `peek` that tries the helpers in declaration order, each on a fresh
 * sub-cursor. `EnumParse` emits `__parse_<variant>` (prefix, fields,
 * suffix, then the value) and a `parse` that runs the first variant whose
 * peek succeeds, or reports that no variant could be parsed.
 *
 * The code emitted for one literal or one field comes from a builder that
 * is not part of this model (it also drains whitespace); each such element
 * is a parameter given by its effect on the remaining tokens.
 */
module EnumDerive {
  import opened Wrappers
  import opened Buffers

  /** A parse error: a root message, possibly wrapped with the directive and the item being parsed. */
  datatype Error = Message(text: string) | Context(directive: string, context: string, cause: Error)

  /** What an element's peek did on the remaining tokens: whether it accepted, and how many it read. */
  datatype Peeked = Peeked(ok: bool, used: nat)

  /** What an element's parse did: its value or error, and how many tokens it read. */
  datatype Parsed<V> = Parsed(result: Result<V, Error>, used: nat)

  /**
   * The emitted code for one literal or one field: its peek on a cursor and
   * its parse on a buffer. Neither can read past the end of input, so the
   * count it reports is capped at what is left.
   */
  datatype Element<!T, !V> = Element(peek: seq<T> -> Peeked, parse: seq<T> -> Parsed<V>)

  function Cap<T>(used: nat, rest: seq<T>): nat
  {
    Min(used, |rest|)
  }

  /** A field: the element that reads it and `.into()`, from the parsed value to the declared field type. */
  datatype Field<!T, !V> = Field(elem: Element<T, V>, into: V -> V)

  /** The enum's own `prefix` and `suffix` literals, as elements. */
  datatype GlobalAttr<!T, !V> = GlobalAttr(prefix: Option<Element<T, V>>, suffix: Option<Element<T, V>>)

  /** A variant as declared: named fields, unnamed (tuple) fields, or none. */
  datatype SynFields<!T, !V> =
    | SynNamed(named: seq<(string, Field<T, V>)>)
    | SynUnnamed(unnamed: seq<Field<T, V>>)
    | SynUnit
  datatype SynVariant<!T, !V> = SynVariant(ident: string, fields: SynFields<T, V>)

  datatype EnumFieldType<!T, !V> = Tuple(unnamed: seq<Field<T, V>>) | Named(named: seq<(string, Field<T, V>)>)
  datatype EnumField<!T, !V> = EnumField(name: string, fieldType: EnumFieldType<T, V>)
  datatype EnumInput<!T, !V> = EnumInput(attrs: GlobalAttr<T, V>, name: string, args: seq<string>, fields: seq<EnumField<T, V>>)

  /** The value a derived parse builds: the variant and its arguments, by position or by name. */
  datatype Payload<V> = Positional(args: seq<V>) | ByName(fields: seq<(string, V)>)
  datatype Value<V> = Value(variant: string, payload: Payload<V>)

  // ---------------------------------------------------------------------
  // EnumInput::new

  const UnitVariantPanic := "Unit variants not supported in enum parse derive"

  predicate HasUnit<T, V>(variants: seq<SynVariant<T, V>>)
  {
    exists i :: 0 <= i < |variants| && variants[i].fields.SynUnit?
  }

  /** f is what `EnumInput::new` makes of v: same name, same fields, same kind. */
  ghost predicate Classified<T, V>(v: SynVariant<T, V>, f: EnumField<T, V>)
  {
    f.name == v.ident &&
    match v.fields
    case SynNamed(named) => f.fieldType == Named(named)
    case SynUnnamed(unnamed) => f.fieldType == Tuple(unnamed)
    case SynUnit => false
  }

  /** The variant map of `EnumInput::new`: a panic on any unit variant, otherwise one field per variant, in order. */
  function ClassifyVariants<T, V>(variants: seq<SynVariant<T, V>>): (r: Result<seq<EnumField<T, V>>, string>)
    ensures r.Failure? <==> HasUnit(variants)
    ensures r.Failure? ==> r.error == UnitVariantPanic
    ensures r.Success? ==> |r.value| == |variants| &&
                           forall i :: 0 <= i < |variants| ==> Classified(variants[i], r.value[i])
  {
    if variants == [] then Success([])
    else
      var v := variants[0];
      assert forall i :: 1 <= i < |variants| ==> variants[i] == variants[1..][i - 1];
      match v.fields
      case SynUnit => Failure(UnitVariantPanic)
      case SynNamed(named) =>
        var more := ClassifyVariants(variants[1..]);
        if more.Failure? then more else Success([EnumField(v.ident, Named(named))] + more.value)
      case SynUnnamed(unnamed) =>
        var more := ClassifyVariants(variants[1..]);
        if more.Failure? then more else Success([EnumField(v.ident, Tuple(unnamed))] + more.value)
  }

  /** `EnumInput::new`: fails exactly when a variant is a unit variant; otherwise keeps every variant in order. */
  function NewEnumInput<T, V>(name: string, args: seq<string>, attrs: GlobalAttr<T, V>, variants: seq<SynVariant<T, V>>)
    : (r: Result<EnumInput<T, V>, string>)
    ensures r.Failure? <==> HasUnit(variants)
    ensures r.Failure? ==> r.error == UnitVariantPanic
    ensures r.Success? ==> r.value.name == name && r.value.args == args && r.value.attrs == attrs
    ensures r.Success? ==> |r.value.fields| == |variants| &&
                           forall i :: 0 <= i < |variants| ==> Classified(variants[i], r.value.fields[i])
  {
    match ClassifyVariants(variants)
    case Failure(e) => Failure(e)
    case Success(fields) => Success(EnumInput(attrs, name, args, fields))
  }

  // ---------------------------------------------------------------------
  // Helper names

  function ToLowerChar(c: char): char
  {
    if 'A' <= c <= 'Z' then (c as int + 32) as char else c
  }

  /** `str::to_lowercase` on ASCII identifiers. */
  function ToLower(s: string): (r: string)
    ensures |r| == |s| && forall i :: 0 <= i < |s| ==> r[i] == ToLowerChar(s[i])
  {
    if s == [] then [] else [ToLowerChar(s[0])] + ToLower(s[1..])
  }

  function PeekHelper(variant: string): string
  {
    "__peek_" + ToLower(variant)
  }

  function ParseHelper(variant: string): string
  {
    "__parse_" + ToLower(variant)
  }

  /** Peek and parse helpers never share a name; two variants whose names lowercase alike share both. */
  lemma HelperNames(v: string, w: string)
    ensures PeekHelper(v) != ParseHelper(w)
    ensures ToLower(v) == ToLower(w) ==> PeekHelper(v) == PeekHelper(w) && ParseHelper(v) == ParseHelper(w)
  {
    assert PeekHelper(v)[3] == 'e' && ParseHelper(w)[3] == 'a';
  }

  // ---------------------------------------------------------------------
  // The emitted peek

  function Opt<T, V>(e: Option<Element<T, V>>): seq<Element<T, V>>
  {
    if e.Some? then [e.value] else []
  }

  function Elems<T, V>(fields: seq<Field<T, V>>): (r: seq<Element<T, V>>)
    ensures |r| == |fields|
  {
    if fields == [] then [] else [fields[0].elem] + Elems(fields[1..])
  }

  function FieldsOf<T, V>(ft: EnumFieldType<T, V>): (r: seq<Field<T, V>>)
    ensures |r| == match ft case Tuple(fs) => |fs| case Named(nfs) => |nfs|
  {
    match ft
    case Tuple(fs) => fs
    case Named(nfs) => Seconds(nfs)
  }

  function Seconds<A, B>(ps: seq<(A, B)>): (r: seq<B>)
    ensures |r| == |ps| && forall i :: 0 <= i < |ps| ==> r[i] == ps[i].1
  {
    if ps == [] then [] else [ps[0].1] + Seconds(ps[1..])
  }

  /** What `add_peek` emits for a variant with these fields: the enum prefix, each field by index, the enum suffix. */
  function PeekBody<T, V>(attrs: GlobalAttr<T, V>, fields: seq<Field<T, V>>): seq<Element<T, V>>
  {
    Opt(attrs.prefix) + Elems(fields) + Opt(attrs.suffix)
  }

  /** Peeks the elements in order on one cursor; the first refusal ends the peek with false. */
  function PeekAll<T, V>(elems: seq<Element<T, V>>, rest: seq<T>): (p: Peeked)
    ensures p.used <= |rest|
  {
    if elems == [] then Peeked(true, 0)
    else
      var first := elems[0].peek(rest);
      var u := Cap(first.used, rest);
      if !first.ok then Peeked(false, u)
      else
        var more := PeekAll(elems[1..], rest[u..]);
        Peeked(more.ok, u + more.used)
  }

  /** Peeking a + b peeks a, then b where a stopped. */
  lemma {:induction false} PeekAllAppend<T, V>(a: seq<Element<T, V>>, b: seq<Element<T, V>>, rest: seq<T>)
    ensures var pa := PeekAll(a, rest);
            PeekAll(a + b, rest) == if !pa.ok then pa
                                    else var pb := PeekAll(b, rest[pa.used..]); Peeked(pb.ok, pa.used + pb.used)
  {
    if a != [] {
      var first := a[0].peek(rest);
      var u := Cap(first.used, rest);
      assert (a + b)[0] == a[0] && (a + b)[1..] == a[1..] + b;
      if first.ok {
        PeekAllAppend(a[1..], b, rest[u..]);
        assert rest[u..][PeekAll(a[1..], rest[u..]).used..] == rest[PeekAll(a, rest).used..];
      }
    } else {
      assert a + b == b;
    }
  }

  /** The first of procs, in order, whose peek accepts rest. */
  function FirstAccepting<T, V>(procs: seq<seq<Element<T, V>>>, rest: seq<T>): (r: Option<nat>)
    ensures r.Some? ==> r.value < |procs| && PeekAll(procs[r.value], rest).ok &&
                        forall j :: 0 <= j < r.value ==> !PeekAll(procs[j], rest).ok
    ensures r.None? <==> forall j :: 0 <= j < |procs| ==> !PeekAll(procs[j], rest).ok
  {
    FirstAcceptingFrom(procs, rest, 0)
  }

  function FirstAcceptingFrom<T, V>(procs: seq<seq<Element<T, V>>>, rest: seq<T>, from: nat): (r: Option<nat>)
    requires from <= |procs|
    ensures r.Some? ==> from <= r.value < |procs| && PeekAll(procs[r.value], rest).ok &&
                        forall j :: from <= j < r.value ==> !PeekAll(procs[j], rest).ok
    ensures r.None? <==> forall j :: from <= j < |procs| ==> !PeekAll(procs[j], rest).ok
    decreases |procs| - from
  {
    if from == |procs| then None
    else if PeekAll(procs[from], rest).ok then Some(from)
    else FirstAcceptingFrom(procs, rest, from + 1)
  }

  /** Runs one element's peek on the cursor it is given. */
  method PeekElement<T, V>(e: Element<T, V>, input: Buffer<T>) returns (ok: bool)
    modifies input
    ensures var p := e.peek(old(input.rest));
            ok == p.ok && input.rest == old(input.rest)[Cap(p.used, old(input.rest))..]
  {
    var p := e.peek(input.rest);
    input.Skip(p.used);
    ok := p.ok;
  }

  /** A helper `__peek_<variant>`: peeks each element in turn on the one cursor, returning false at the first refusal. */
  method PeekVariant<T, V>(elems: seq<Element<T, V>>, input: Buffer<T>) returns (ok: bool)
    modifies input
    ensures var p := PeekAll(elems, old(input.rest));
            ok == p.ok && input.rest == old(input.rest)[p.used..]
  {
    ghost var start := input.rest;
    ghost var done := 0;
    var i := 0;
    while i < |elems|
      invariant i <= |elems| && done <= |start| && input.rest == start[done..]
      invariant var p := PeekAll(elems[i..], input.rest);
                PeekAll(elems, start) == Peeked(p.ok, done + p.used)
    {
      ghost var here := input.rest;
      ghost var u := Cap(elems[i].peek(here).used, here);
      assert elems[i..][0] == elems[i] && elems[i..][1..] == elems[i + 1..];
      assert here[u..] == start[done + u..];
      var stepOk := PeekElement(elems[i], input);
      if !stepOk {
        return false;
      }
      done := done + u;
      i := i + 1;
    }
    ok := true;
  }

  // ---------------------------------------------------------------------
  // The emitted parse

  /** What `add_parse` emits for a variant: its literals with the context strings their failures carry, and its fields. */
  datatype ParseProc<!T, !V> = ParseProc(
    variant: string,
    prefix: Option<Element<T, V>>, prefixContext: string,
    fieldType: EnumFieldType<T, V>,
    suffix: Option<Element<T, V>>, suffixContext: string)

  /** `add_parse`'s type name: "struct" for named fields, "tuple" for unnamed ones. */
  function TypeName<T, V>(ft: EnumFieldType<T, V>): string
  {
    if ft.Tuple? then "tuple" else "struct"
  }

  /** The context of a prefix failure: "{struct|tuple} `Enum::Variant`". */
  function PrefixContext(typeName: string, enumName: string, variant: string): string
  {
    typeName + " `" + enumName + "::" + variant + "`"
  }

  /** The context of a suffix failure, which says "struct" whatever the variant's kind. */
  function SuffixContext(enumName: string, variant: string): string
  {
    "struct `" + enumName + "::" + variant + "`"
  }

  /** For a tuple variant the prefix and suffix contexts name different kinds. */
  lemma TupleSuffixContextSaysStruct<T, V>(enumName: string, variant: string, fs: seq<Field<T, V>>)
    ensures PrefixContext(TypeName(Tuple(fs)), enumName, variant) != SuffixContext(enumName, variant)
  {
  }

  function ParseBody<T, V>(attrs: GlobalAttr<T, V>, enumName: string, ef: EnumField<T, V>): ParseProc<T, V>
  {
    ParseProc(ef.name,
              attrs.prefix, PrefixContext(TypeName(ef.fieldType), enumName, ef.name),
              ef.fieldType,
              attrs.suffix, SuffixContext(enumName, ef.name))
  }

  datatype Checked = Checked(error: Option<Error>, used: nat)

  /** `fix` for a literal: absent means nothing to check; a failure is wrapped with the directive and the context. */
  function CheckFix<T, V>(fix: Option<Element<T, V>>, directive: string, context: string, rest: seq<T>): (c: Checked)
    ensures c.used <= |rest|
  {
    match fix
    case None => Checked(None, 0)
    case Some(e) =>
      var p := e.parse(rest);
      Checked(if p.result.Failure? then Some(Context(directive, context, p.result.error)) else None,
              Cap(p.used, rest))
  }

  /** Parses the fields in index order; the first failure ends the parse with that field's error. */
  function ParseFields<T, V>(fields: seq<Field<T, V>>, rest: seq<T>): (p: Parsed<seq<V>>)
    ensures p.used <= |rest|
    ensures p.result.Success? ==> |p.result.value| == |fields|
  {
    if fields == [] then Parsed(Success([]), 0)
    else
      var first := fields[0].elem.parse(rest);
      var u := Cap(first.used, rest);
      match first.result
      case Failure(e) => Parsed(Failure(e), u)
      case Success(v) =>
        var more := ParseFields(fields[1..], rest[u..]);
        Parsed(if more.result.Success? then Success([v] + more.result.value) else more.result, u + more.used)
  }

  /** `Ok(Enum::Variant(f0.into(), ...))` for a tuple variant, `Ok(Enum::Variant { name: name.into(), ... })` otherwise. */
  function Construct<T, V>(ft: EnumFieldType<T, V>, raw: seq<V>): (p: Payload<V>)
    requires |raw| == |FieldsOf(ft)|
    ensures ft.Tuple? <==> p.Positional?
    ensures p.Positional? ==> |p.args| == |raw| &&
                              forall i :: 0 <= i < |raw| ==> p.args[i] == ft.unnamed[i].into(raw[i])
    ensures p.ByName? ==> |p.fields| == |raw| &&
                          forall i :: 0 <= i < |raw| ==> p.fields[i] == (ft.named[i].0, ft.named[i].1.into(raw[i]))
  {
    match ft
    case Tuple(fs) => Positional(seq(|raw|, i requires 0 <= i < |raw| => fs[i].into(raw[i])))
    case Named(nfs) => ByName(seq(|raw|, i requires 0 <= i < |raw| => (nfs[i].0, nfs[i].1.into(raw[i]))))
  }

  /** A helper `__parse_<variant>` on the remaining tokens: prefix, fields, suffix, then the value. */
  function RunParse<T, V>(proc: ParseProc<T, V>, rest: seq<T>): (p: Parsed<Value<V>>)
    ensures p.used <= |rest|
    ensures p.result.Success? ==> p.result.value.variant == proc.variant
  {
    var pre := CheckFix(proc.prefix, "prefix", proc.prefixContext, rest);
    if pre.error.Some? then Parsed(Failure(pre.error.value), pre.used)
    else
      var afterPrefix := rest[pre.used..];
      var fs := ParseFields(FieldsOf(proc.fieldType), afterPrefix);
      if fs.result.Failure? then Parsed(Failure(fs.result.error), pre.used + fs.used)
      else
        var afterFields := afterPrefix[fs.used..];
        var suf := CheckFix(proc.suffix, "suffix", proc.suffixContext, afterFields);
        var used := pre.used + fs.used + suf.used;
        if suf.error.Some? then Parsed(Failure(suf.error.value), used)
        else Parsed(Success(Value(proc.variant, Construct(proc.fieldType, fs.result.value))), used)
  }

  /** Runs one element's parse on the buffer. */
  method ParseElement<T, V>(e: Element<T, V>, input: Buffer<T>) returns (r: Result<V, Error>)
    modifies input
    ensures var p := e.parse(old(input.rest));
            r == p.result && input.rest == old(input.rest)[Cap(p.used, old(input.rest))..]
  {
    var p := e.parse(input.rest);
    input.Skip(p.used);
    r := p.result;
  }

  /** Runs `fix` for one literal on the buffer. */
  method ParseFix<T, V>(fix: Option<Element<T, V>>, directive: string, context: string, input: Buffer<T>)
    returns (err: Option<Error>)
    modifies input
    ensures var c := CheckFix(fix, directive, context, old(input.rest));
            err == c.error && input.rest == old(input.rest)[c.used..]
  {
    match fix
    case None => err := None;
    case Some(e) =>
      var r := ParseElement(e, input);
      err := if r.Failure? then Some(Context(directive, context, r.error)) else None;
  }

  /** The fields of a `__parse_<variant>`, parsed by index; the first failure is returned, as its `?` does. */
  method ParseFieldsInOrder<T, V>(fields: seq<Field<T, V>>, input: Buffer<T>) returns (r: Result<seq<V>, Error>)
    modifies input
    ensures var p := ParseFields(fields, old(input.rest));
            r == p.result && input.rest == old(input.rest)[p.used..]
  {
    ghost var start := input.rest;
    var raw: seq<V> := [];
    ghost var done := 0;
    var i := 0;
    assert fields[0..] == fields;
    ghost var whole := ParseFields(fields, start);
    if whole.result.Success? {
      assert [] + whole.result.value == whole.result.value;
    }
    while i < |fields|
      invariant i <= |fields| && |raw| == i && done <= |start| && input.rest == start[done..]
      invariant var p := ParseFields(fields[i..], input.rest);
                ParseFields(fields, start) ==
                  Parsed(if p.result.Success? then Success(raw + p.result.value) else p.result, done + p.used)
    {
      ghost var here := input.rest;
      ghost var u := Cap(fields[i].elem.parse(here).used, here);
      assert fields[i..][0] == fields[i] && fields[i..][1..] == fields[i + 1..];
      assert here[u..] == start[done + u..];
      var v := ParseElement(fields[i].elem, input);
      if v.Failure? {
        return Failure(v.error);
      }
      ghost var more := ParseFields(fields[i + 1..], input.rest);
      if more.result.Success? {
        assert raw + ([v.value] + more.result.value) == (raw + [v.value]) + more.result.value;
      }
      raw := raw + [v.value];
      done := done + u;
      i := i + 1;
    }
    assert fields[i..] == [] && raw + [] == raw;
    r := Success(raw);
  }

  /** The emitted `__parse_<variant>`: returns at the first failure, as the `?`s in the emitted code do. */
  method ParseVariant<T, V>(proc: ParseProc<T, V>, input: Buffer<T>) returns (r: Result<Value<V>, Error>)
    modifies input
    ensures var p := RunParse(proc, old(input.rest));
            r == p.result && input.rest == old(input.rest)[p.used..]
  {
    var err := ParseFix(proc.prefix, "prefix", proc.prefixContext, input);
    if err.Some? {
      return Failure(err.value);
    }
    var fs := ParseFieldsInOrder(FieldsOf(proc.fieldType), input);
    if fs.Failure? {
      return Failure(fs.error);
    }
    err := ParseFix(proc.suffix, "suffix", proc.suffixContext, input);
    if err.Some? {
      return Failure(err.value);
    }
    r := Success(Value(proc.variant, Construct(proc.fieldType, fs.value)));
  }

  // ---------------------------------------------------------------------
  // Peek implies parse

  /** An element whose parse succeeds, reading what its peek read, wherever its peek accepts. */
  ghost predicate Sound<T(!new), V>(e: Element<T, V>)
  {
    forall s :: e.peek(s).ok ==> e.parse(s).result.Success? && e.parse(s).used == e.peek(s).used
  }

  ghost predicate SoundFix<T(!new), V>(fix: Option<Element<T, V>>)
  {
    fix.Some? ==> Sound(fix.value)
  }

  ghost predicate SoundFields<T(!new), V>(fields: seq<Field<T, V>>)
  {
    forall i :: 0 <= i < |fields| ==> Sound(fields[i].elem)
  }

  lemma {:induction false} FieldsPeekImpliesParse<T(!new), V>(fields: seq<Field<T, V>>, rest: seq<T>)
    requires SoundFields(fields)
    requires PeekAll(Elems(fields), rest).ok
    ensures ParseFields(fields, rest).result.Success?
    ensures ParseFields(fields, rest).used == PeekAll(Elems(fields), rest).used
  {
    if fields != [] {
      var e := fields[0].elem;
      assert Sound(e);
      assert Elems(fields)[0] == e && Elems(fields)[1..] == Elems(fields[1..]);
      var u := Cap(e.peek(rest).used, rest);
      assert SoundFields(fields[1..]) by {
        forall i | 0 <= i < |fields[1..]| ensures Sound(fields[1..][i].elem) {
          assert fields[1..][i] == fields[i + 1];
        }
      }
      FieldsPeekImpliesParse(fields[1..], rest[u..]);
    }
  }

  /** Peek of an element that is known to accept, as the first of a sequence. */
  lemma FixPeekImpliesParse<T(!new), V>(fix: Option<Element<T, V>>, directive: string, context: string, rest: seq<T>)
    requires SoundFix(fix)
    requires PeekAll(Opt(fix), rest).ok
    ensures CheckFix(fix, directive, context, rest).error.None?
    ensures CheckFix(fix, directive, context, rest).used == PeekAll(Opt(fix), rest).used
  {
  }

  /**
   * A variant whose literals and fields are sound: if its peek helper accepts
   * the input, its parse helper succeeds on it and reads what the peek read.
   */
  lemma {:induction false} VariantPeekImpliesParse<T(!new), V>(attrs: GlobalAttr<T, V>, enumName: string, ef: EnumField<T, V>, rest: seq<T>)
    requires SoundFix(attrs.prefix) && SoundFix(attrs.suffix) && SoundFields(FieldsOf(ef.fieldType))
    requires PeekAll(PeekBody(attrs, FieldsOf(ef.fieldType)), rest).ok
    ensures RunParse(ParseBody(attrs, enumName, ef), rest).result.Success?
    ensures RunParse(ParseBody(attrs, enumName, ef), rest).used == PeekAll(PeekBody(attrs, FieldsOf(ef.fieldType)), rest).used
  {
    var pre, mid, post := Opt(attrs.prefix), Elems(FieldsOf(ef.fieldType)), Opt(attrs.suffix);
    PeekAllAppend(pre + mid, post, rest);
    PeekAllAppend(pre, mid, rest);
    var p1 := PeekAll(pre, rest);
    FixPeekImpliesParse(attrs.prefix, "prefix", PrefixContext(TypeName(ef.fieldType), enumName, ef.name), rest);
    var r1 := rest[p1.used..];
    var p2 := PeekAll(mid, r1);
    FieldsPeekImpliesParse(FieldsOf(ef.fieldType), r1);
    var r2 := r1[p2.used..];
    assert rest[PeekAll(pre + mid, rest).used..] == r2;
    FixPeekImpliesParse(attrs.suffix, "suffix", SuffixContext(enumName, ef.name), r2);
  }

  // ---------------------------------------------------------------------
  // The derive builders and the procedures they emit

  function PeekBodies<T, V>(attrs: GlobalAttr<T, V>, fields: seq<EnumField<T, V>>): (r: seq<seq<Element<T, V>>>)
    ensures |r| == |fields|
  {
    seq(|fields|, i requires 0 <= i < |fields| => PeekBody(attrs, FieldsOf(fields[i].fieldType)))
  }

  function ParseBodies<T, V>(attrs: GlobalAttr<T, V>, enumName: string, fields: seq<EnumField<T, V>>): (r: seq<ParseProc<T, V>>)
    ensures |r| == |fields|
  {
    seq(|fields|, i requires 0 <= i < |fields| => ParseBody(attrs, enumName, fields[i]))
  }

  /**
   * The derived parse, as a whole, on well-behaved elements: whenever the
   * derived peek accepts (some variant's peek does), the variant that parse
   * picks, the first that accepts, parses successfully, as that variant.
   */
  lemma DerivedPeekImpliesParse<T(!new), V>(input: EnumInput<T, V>, rest: seq<T>)
    requires SoundFix(input.attrs.prefix) && SoundFix(input.attrs.suffix)
    requires forall i :: 0 <= i < |input.fields| ==> SoundFields(FieldsOf(input.fields[i].fieldType))
    requires exists i :: 0 <= i < |input.fields| && PeekAll(PeekBodies(input.attrs, input.fields)[i], rest).ok
    ensures var k := FirstAccepting(PeekBodies(input.attrs, input.fields), rest);
            k.Some? && k.value < |input.fields| &&
            var p := RunParse(ParseBodies(input.attrs, input.name, input.fields)[k.value], rest);
            p.result.Success? && p.result.value.variant == input.fields[k.value].name
  {
    var k := FirstAccepting(PeekBodies(input.attrs, input.fields), rest);
    VariantPeekImpliesParse(input.attrs, input.name, input.fields[k.value], rest);
  }

  /** The code `EnumPeek::new` collects for one enum. */
  class EnumPeek<T, V> {
    const name: string
    const args: seq<string>
    const attrs: GlobalAttr<T, V>
    /** `fn_impl`: the helpers the emitted `peek` tries, in order. */
    var fnImpl: seq<string>
    var peekFnNames: seq<string>
    /** `peek_fn_impl`: each helper's body, as the elements it peeks in order. */
    var peekFnImpl: seq<seq<Element<T, V>>>

    /**
     * Helper i of the chain is body i. (Helpers are named after the variants:
     * two variants whose names lowercase alike would make the emitted code
     * define one helper twice, which Rust rejects.)
     */
    ghost predicate Valid()
      reads this
    {
      fnImpl == peekFnNames && |peekFnNames| == |peekFnImpl|
    }

    constructor (input: EnumInput<T, V>)
      ensures name == input.name && args == input.args && attrs == input.attrs
      ensures Valid() && peekFnImpl == PeekBodies(input.attrs, input.fields)
      ensures |peekFnNames| == |input.fields| &&
              forall i :: 0 <= i < |input.fields| ==> peekFnNames[i] == PeekHelper(input.fields[i].name)
    {
      name, args, attrs := input.name, input.args, input.attrs;
      fnImpl, peekFnNames, peekFnImpl := [], [], [];
      new;
      Enrich(input.fields);
    }

    /** `enrich`: one chain link, one helper name and one helper body per variant, in declaration order. */
    method Enrich(fields: seq<EnumField<T, V>>)
      requires Valid()
      modifies this`fnImpl, this`peekFnNames, this`peekFnImpl
      ensures Valid()
      ensures peekFnImpl == old(peekFnImpl) + PeekBodies(attrs, fields)
      ensures |peekFnNames| == |old(peekFnNames)| + |fields| && peekFnNames[..|old(peekFnNames)|] == old(peekFnNames)
      ensures forall i :: 0 <= i < |fields| ==> peekFnNames[|old(peekFnNames)| + i] == PeekHelper(fields[i].name)
    {
      var i := 0;
      while i < |fields|
        invariant i <= |fields| && Valid()
        invariant peekFnImpl == old(peekFnImpl) + PeekBodies(attrs, fields[..i])
        invariant |peekFnNames| == |old(peekFnNames)| + i && peekFnNames[..|old(peekFnNames)|] == old(peekFnNames)
        invariant forall j :: 0 <= j < i ==> peekFnNames[|old(peekFnNames)| + j] == PeekHelper(fields[j].name)
      {
        var peek := PeekHelper(fields[i].name);
        fnImpl := fnImpl + [peek];
        peekFnNames := peekFnNames + [peek];
        AddPeek(FieldsOf(fields[i].fieldType));
        assert PeekBodies(attrs, fields[..i + 1]) == PeekBodies(attrs, fields[..i]) + [PeekBody(attrs, FieldsOf(fields[i].fieldType))];
        i := i + 1;
      }
      assert fields[..i] == fields;
    }

    /** `add_peek`: the enum prefix, then each field by index, then the enum suffix. */
    method AddPeek(fields: seq<Field<T, V>>)
      modifies this`peekFnImpl
      ensures peekFnImpl == old(peekFnImpl) + [PeekBody(attrs, fields)]
    {
      var body := Opt(attrs.prefix);
      var i := 0;
      while i < |fields|
        invariant i <= |fields| && body == Opt(attrs.prefix) + Elems(fields[..i])
        invariant peekFnImpl == old(peekFnImpl)
      {
        ElemsSnoc(fields[..i], fields[i]);
        assert fields[..i + 1] == fields[..i] + [fields[i]];
        body := body + [fields[i].elem];
        i := i + 1;
      }
      assert fields[..i] == fields;
      assert body + Opt(attrs.suffix) == PeekBody(attrs, fields);
      peekFnImpl := peekFnImpl + [body + Opt(attrs.suffix)];
    }

    /**
     * The emitted `peek`: true iff some variant's helper accepts, each run on
     * a fresh cursor. The cursor it is given is not read (no `modifies`).
     */
    method Peek(input: Buffer<T>) returns (ok: bool)
      requires Valid()
      ensures ok <==> exists i :: 0 <= i < |peekFnImpl| && PeekAll(peekFnImpl[i], input.rest).ok
      ensures ok <==> FirstAccepting(peekFnImpl, input.rest).Some?
    {
      var i := 0;
      while i < |fnImpl|
        invariant i <= |fnImpl|
        invariant forall j :: 0 <= j < i ==> !PeekAll(peekFnImpl[j], input.rest).ok
      {
        var sub := input.Cursor();
        var accepted := PeekVariant(peekFnImpl[i], sub);
        if accepted {
          return true;
        }
        i := i + 1;
      }
      ok := false;
    }
  }

  lemma ElemsSnoc<T, V>(fields: seq<Field<T, V>>, f: Field<T, V>)
    ensures Elems(fields + [f]) == Elems(fields) + [f.elem]
  {
    if fields != [] {
      assert (fields + [f])[1..] == fields[1..] + [f];
      ElemsSnoc(fields[1..], f);
    } else {
      assert fields + [f] == [f];
    }
  }

  const NoVariantsPrefix := "no variants of "

  /** The error of the emitted `parse` when no variant's peek accepts. */
  function NoVariants(enumName: string): (r: Error)
    ensures r.Message? && NoVariantsPrefix + enumName <= r.text
    ensures |r.text| == |enumName| + 31
  {
    Message(NoVariantsPrefix + enumName + " could be parsed")
  }

  /** The error names the enum: two enums share it only when their names agree. */
  lemma NoVariantsNamesEnum(a: string, b: string)
    ensures NoVariants(a) == NoVariants(b) <==> a == b
  {
    if NoVariants(a) == NoVariants(b) {
      assert a == NoVariants(a).text[|NoVariantsPrefix|..|NoVariantsPrefix| + |a|];
    }
  }

  /** The code `EnumParse::new` collects for one enum. */
  class EnumParse<T, V> {
    const name: string
    const args: seq<string>
    const attrs: GlobalAttr<T, V>
    /** `fn_impl`: the `if peek-helper { parse-helper } else` links, in order. */
    var fnImpl: seq<(string, string)>
    var parseFnNames: seq<string>
    var parseFnImpl: seq<ParseProc<T, V>>

    ghost predicate Valid()
      reads this
    {
      |fnImpl| == |parseFnNames| == |parseFnImpl| &&
      forall i :: 0 <= i < |fnImpl| ==> fnImpl[i].1 == parseFnNames[i]
    }

    constructor (input: EnumInput<T, V>)
      ensures name == input.name && args == input.args && attrs == input.attrs
      ensures Valid() && parseFnImpl == ParseBodies(input.attrs, input.name, input.fields)
      ensures |fnImpl| == |input.fields| &&
              forall i :: 0 <= i < |input.fields| ==>
                fnImpl[i] == (PeekHelper(input.fields[i].name), ParseHelper(input.fields[i].name))
    {
      name, args, attrs := input.name, input.args, input.attrs;
      fnImpl, parseFnNames, parseFnImpl := [], [], [];
      new;
      Enrich(input.fields);
    }

    /** `enrich`: one link, one helper name and one helper body per variant, in declaration order. */
    method Enrich(fields: seq<EnumField<T, V>>)
      requires Valid()
      modifies this`fnImpl, this`parseFnNames, this`parseFnImpl
      ensures Valid()
      ensures parseFnImpl == old(parseFnImpl) + ParseBodies(attrs, name, fields)
      ensures |fnImpl| == |old(fnImpl)| + |fields| && fnImpl[..|old(fnImpl)|] == old(fnImpl)
      ensures forall i :: 0 <= i < |fields| ==>
                fnImpl[|old(fnImpl)| + i] == (PeekHelper(fields[i].name), ParseHelper(fields[i].name))
    {
      var i := 0;
      while i < |fields|
        invariant i <= |fields| && Valid()
        invariant parseFnImpl == old(parseFnImpl) + ParseBodies(attrs, name, fields[..i])
        invariant |fnImpl| == |old(fnImpl)| + i && fnImpl[..|old(fnImpl)|] == old(fnImpl)
        invariant forall j :: 0 <= j < i ==>
                    fnImpl[|old(fnImpl)| + j] == (PeekHelper(fields[j].name), ParseHelper(fields[j].name))
      {
        var peek := PeekHelper(fields[i].name);
        var parse := ParseHelper(fields[i].name);
        fnImpl := fnImpl + [(peek, parse)];
        parseFnNames := parseFnNames + [parse];
        AddParse(TypeName(fields[i].fieldType), fields[i].name, fields[i].fieldType);
        assert ParseBodies(attrs, name, fields[..i + 1]) == ParseBodies(attrs, name, fields[..i]) + [ParseBody(attrs, name, fields[i])];
        i := i + 1;
      }
      assert fields[..i] == fields;
    }

    /** `add_parse`: the prefix with context "{typeName} `Enum::Variant`", the fields, the suffix with context "struct `Enum::Variant`". */
    method AddParse(typeName: string, variantName: string, fieldType: EnumFieldType<T, V>)
      modifies this`parseFnImpl
      ensures parseFnImpl == old(parseFnImpl) +
        [ParseProc(variantName, attrs.prefix, PrefixContext(typeName, name, variantName),
                   fieldType, attrs.suffix, SuffixContext(name, variantName))]
    {
      var proc := ParseProc(variantName, attrs.prefix, PrefixContext(typeName, name, variantName),
                            fieldType, attrs.suffix, SuffixContext(name, variantName));
      parseFnImpl := parseFnImpl + [proc];
    }

    /**
     * The emitted `parse`: runs the parse helper of the first variant, in
     * declaration order, whose peek helper accepts on a fresh cursor, and
     * returns exactly its result; when none accepts, fails with "no variants
     * of <Enum> could be parsed" having read nothing from the buffer.
     */
    method Parse(peeks: EnumPeek<T, V>, input: Buffer<T>) returns (r: Result<Value<V>, Error>)
      requires Valid() && peeks.Valid() && |peeks.peekFnImpl| == |parseFnImpl|
      modifies input
      ensures match FirstAccepting(peeks.peekFnImpl, old(input.rest))
              case None => r == Failure(NoVariants(name)) && input.rest == old(input.rest)
              case Some(k) =>
                var p := RunParse(parseFnImpl[k], old(input.rest));
                r == p.result && input.rest == old(input.rest)[p.used..]
    {
      var i := 0;
      while i < |fnImpl|
        invariant i <= |fnImpl| && input.rest == old(input.rest)
        invariant forall j :: 0 <= j < i ==> !PeekAll(peeks.peekFnImpl[j], input.rest).ok
      {
        var sub := input.Cursor();
        var accepted := PeekVariant(peeks.peekFnImpl[i], sub);
        if accepted {
          assert FirstAccepting(peeks.peekFnImpl, old(input.rest)) == Some(i);
          r := ParseVariant(parseFnImpl[i], input);
          return;
        }
        i := i + 1;
      }
      r := Failure(NoVariants(name));
    }
  }

  /** `EnumInput::process`: both builders, from the same input. */
  method Process<T, V>(input: EnumInput<T, V>) returns (peek: EnumPeek<T, V>, parse: EnumParse<T, V>)
    ensures fresh(peek) && fresh(parse)
    ensures peek.Valid() && parse.Valid()
    ensures peek.peekFnImpl == PeekBodies(input.attrs, input.fields)
    ensures parse.parseFnImpl == ParseBodies(input.attrs, input.name, input.fields)
    ensures parse.name == input.name
  {
    peek := new EnumPeek(input);
    parse := new EnumParse(input);
  }
}
