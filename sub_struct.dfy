/** The `sub_struct` attribute macro as a whole: parse the arguments, accept
    only a struct with named fields, check that every listed name is a field,
    select the fields and emit the original item followed by the new struct.

    `Expand` states the outcome as a function of the arguments and the item;
    `SubStructMacro` is the step-by-step procedure of `sub_struct` and is
    proved to compute it.
 */
module SubStruct {
  import opened Syntax
  import opened SeqFacts
  import opened SubStructArgs
  import opened FieldSelection

  /** Errors raised on the struct: a shape other than named fields, or listed
      names that are not fields (all of them, in listing order). */
  datatype SynthError =
    | UnsupportedShape
    | InvalidFields(list: ListKey, names: seq<string>)

  datatype MacroError =
    | ArgsFailed(argError: ArgError)
    | StructFailed(synthError: SynthError)

  /** The diagnostic text of an `InvalidFields` error: a fixed lead-in, the
      key of the strategy in effect, then the names joined by ", ". */
  function InvalidFieldsMessage(list: ListKey, names: seq<string>): (r: string)
    ensures |r| == 52 + |Join(names, ", ")|
    ensures r[..34] == "Invalid field(s) specified in the "
    ensures r[34..40] == KeyText(list)
    ensures r[52..] == Join(names, ", ")
  {
    "Invalid field(s) specified in the " + KeyText(list) + " attribute: " + Join(names, ", ")
  }

  /** Every unrecognized name appears in the diagnostic, at the returned offset. */
  lemma InvalidFieldsMessageMentions(list: ListKey, names: seq<string>, k: nat) returns (off: nat)
    requires k < |names|
    ensures off + |names[k]| <= |InvalidFieldsMessage(list, names)|
    ensures InvalidFieldsMessage(list, names)[off..off + |names[k]|] == names[k]
  {
    var prefix := "Invalid field(s) specified in the " + KeyText(list) + " attribute: ";
    var inner := JoinContains(names, ", ", k);
    off := |prefix| + inner;
    assert InvalidFieldsMessage(list, names) == prefix + Join(names, ", ");
    assert InvalidFieldsMessage(list, names)[off..off + |names[k]|] == Join(names, ", ")[inner..inner + |names[k]|];
  }

  /** The generated struct: the original item with a new identifier and a new
      named-field list; attributes, visibility, generics, the `struct` token
      and the semicolon are copied. */
  function Assemble(input: DeriveInput, name: string, kept: seq<Field>): (r: DeriveInput)
    requires input.data.Struct?
    ensures IsNamedStruct(r) && r.ident == name && r.data.fields.named == kept
    ensures r.attrs == input.attrs && r.vis == input.vis && r.generics == input.generics
    ensures r.data.structToken == input.data.structToken && r.data.semiToken == input.data.semiToken
  {
    DeriveInput(input.attrs, input.vis, name, input.generics,
                Struct(input.data.structToken, Named(kept), input.data.semiToken))
  }

  /** What the synthesizer makes of a parsed configuration and an item. */
  function Synthesize(attrs: SubStructAttributes, input: DeriveInput): (r: Result<DeriveInput, SynthError>)
    ensures r == Err(UnsupportedShape) <==> !IsNamedStruct(input)
    ensures IsNamedStruct(input) ==>
              (r.Err? <==> exists n :: n in attrs.strategy.fields && !HasField(input.data.fields.named, n))
    ensures IsNamedStruct(input) && r.Err? ==>
              r.error == InvalidFields(StrategyKey(attrs.strategy),
                                       Unrecognized(attrs.strategy.fields, input.data.fields.named))
    ensures r.Ok? ==>
              && IsNamedStruct(input) && IsNamedStruct(r.value)
              && r.value.ident == attrs.name
              && r.value.attrs == input.attrs && r.value.vis == input.vis && r.value.generics == input.generics
              && r.value.data.structToken == input.data.structToken
              && r.value.data.semiToken == input.data.semiToken
              && r.value.data.fields.named == KeepFields(input.data.fields.named, attrs.strategy)
  {
    if !IsNamedStruct(input) then Err(UnsupportedShape)
    else
      var fields := input.data.fields.named;
      var missing := Unrecognized(attrs.strategy.fields, fields);
      AllRecognized(attrs.strategy.fields, fields);
      if missing != [] then Err(InvalidFields(StrategyKey(attrs.strategy), missing))
      else Ok(Assemble(input, attrs.name, KeepFields(fields, attrs.strategy)))
  }

  /** The macro's outcome: argument errors first, then struct errors, else
      the original item followed by the generated struct. */
  function Expand(args: seq<Arg>, input: DeriveInput): (r: Result<seq<DeriveInput>, MacroError>)
    ensures r.Ok? <==> && ParseSpec(args).Ok? && IsNamedStruct(input)
                       && Unrecognized(ParseSpec(args).value.strategy.fields, input.data.fields.named) == []
    ensures r.Ok? ==> |r.value| == 2 && r.value[0] == input
    ensures r.Err? && r.error.StructFailed? ==> ParseSpec(args).Ok?
  {
    match ParseSpec(args)
    case Err(e) => Err(ArgsFailed(e))
    case Ok(attrs) =>
      match Synthesize(attrs, input)
      case Err(e) => Err(StructFailed(e))
      case Ok(s) => Ok([input, s])
  }

  /** `sub_struct`: parse the arguments, then check the item and the listed
      names, returning early on each error. */
  method SubStructMacro(args: seq<Arg>, input: DeriveInput) returns (out: Result<seq<DeriveInput>, MacroError>)
    ensures out == Expand(args, input)
  {
    var parsed := ParseSubStructArgs(args);
    if parsed.Err? {
      return Err(ArgsFailed(parsed.error));
    }
    var metaList := parsed.value;
    match input.data {
      case Struct(structToken, Named(named), semiToken) =>
        var listed := metaList.strategy.fields;
        var unrecognized := CollectUnrecognized(named, listed);
        if unrecognized != [] {
          return Err(StructFailed(InvalidFields(StrategyKey(metaList.strategy), unrecognized)));
        }
        out := Ok([input, Assemble(input, metaList.name, KeepFields(named, metaList.strategy))]);
      case _ =>
        return Err(StructFailed(UnsupportedShape));
    }
  }

  // ---------------------------------------------------------------------
  // Properties of the macro

  /** Sound arguments and listed names that are all fields give the
      original followed by the assembled struct. */
  lemma ExpandValid(args: seq<Arg>, input: DeriveInput, attrs: SubStructAttributes)
    requires ParseSpec(args) == Ok(attrs) && IsNamedStruct(input)
    requires Unrecognized(attrs.strategy.fields, input.data.fields.named) == []
    ensures Expand(args, input)
         == Ok([input, Assemble(input, attrs.name, KeepFields(input.data.fields.named, attrs.strategy))])
  {
    AllRecognized(attrs.strategy.fields, input.data.fields.named);
  }

  /** Argument errors are reported before anything about the item is looked at. */
  lemma ArgumentErrorsFirst(args: seq<Arg>, input: DeriveInput)
    requires ParseSpec(args).Err?
    ensures Expand(args, input) == Err(ArgsFailed(ParseSpec(args).error))
  {
  }

  /** An enum, a union, a tuple struct or a unit struct gives the shape error
      and no generated struct. */
  lemma UnsupportedShapes(args: seq<Arg>, input: DeriveInput)
    requires ParseSpec(args).Ok? && !IsNamedStruct(input)
    ensures Expand(args, input) == Err(StructFailed(UnsupportedShape))
  {
  }

  /** A successful expansion is the unchanged original followed by a struct
      with the configured name whose fields are, in declaration order, the
      original fields whose identifier is not listed (Remove) or is listed
      (Retain), each field unchanged. */
  lemma ExpandOk(args: seq<Arg>, input: DeriveInput)
    requires Expand(args, input).Ok?
    ensures ParseSpec(args).Ok? && IsNamedStruct(input)
    ensures var out := Expand(args, input).value;
            var s := ParseSpec(args).value.strategy;
            && |out| == 2 && out[0] == input
            && out[1].ident == ParseSpec(args).value.name
            && out[1].attrs == input.attrs && out[1].vis == input.vis && out[1].generics == input.generics
            && IsNamedStruct(out[1])
            && IsSubsequence(out[1].data.fields.named, input.data.fields.named)
            && (forall f :: f in out[1].data.fields.named <==>
                  f in input.data.fields.named && (f.ident in s.fields <==> s.Retain?))
  {
  }

  /** The unrecognized names are reported all together, in listing order; none
      of them is a field and every listed name that is not a field is among them. */
  lemma InvalidFieldsReported(args: seq<Arg>, input: DeriveInput)
    requires ParseSpec(args).Ok? && IsNamedStruct(input)
    requires exists n :: n in ParseSpec(args).value.strategy.fields && !HasField(input.data.fields.named, n)
    ensures var s := ParseSpec(args).value.strategy;
            var names := Unrecognized(s.fields, input.data.fields.named);
            && Expand(args, input) == Err(StructFailed(InvalidFields(StrategyKey(s), names)))
            && names != []
            && IsSubsequence(names, s.fields)
            && forall n :: n in names <==> n in s.fields && !HasField(input.data.fields.named, n)
  {
    var s := ParseSpec(args).value.strategy;
    AllRecognized(s.fields, input.data.fields.named);
  }

  /** Retaining `F` and removing every other field name yield the same
      generated struct. */
  lemma RetainEqualsRemoveComplement(input: DeriveInput, name: string, F: seq<string>)
    requires IsNamedStruct(input)
    ensures var G := ComplementNames(input.data.fields.named, F);
            Synthesize(SubStructAttributes(name, Retain(F)), input).Ok? ==>
              Synthesize(SubStructAttributes(name, Remove(G)), input) ==
              Synthesize(SubStructAttributes(name, Retain(F)), input)
  {
    var fields := input.data.fields.named;
    var G := ComplementNames(fields, F);
    RetainRemoveDuality(fields, F);
    AllRecognized(G, fields);
  }

  /** The order in which names are listed, and repeated names, do not change
      the generated struct, nor whether an error is raised. */
  lemma ListingOrderIrrelevant(input: DeriveInput, name: string, s1: Strategy, s2: Strategy)
    requires s1.Remove? == s2.Remove?
    requires forall n :: n in s1.fields <==> n in s2.fields
    ensures var r1 := Synthesize(SubStructAttributes(name, s1), input);
            var r2 := Synthesize(SubStructAttributes(name, s2), input);
            (r1.Ok? <==> r2.Ok?) && (r1.Ok? ==> r1 == r2)
  {
    if IsNamedStruct(input) {
      SelectSameNames(input.data.fields.named, s1.fields, s2.fields, s1.Retain?);
    }
  }
}
