/** The items of the repository's usage example (tests/01-structs.rs): an
    `Address` struct and the struct `sub_struct` is expected to generate from it. */
module AddressData {
  import opened Syntax

  function PlainField(name: string, ty: string): Field
  {
    Field(Opaque([]), Opaque([]), name, Opaque([ty]))
  }

  function AddressItem(name: string, fields: seq<Field>): DeriveInput
  {
    DeriveInput(Opaque(["#[derive(Debug, PartialEq)]"]), Opaque([]), name, Opaque([]),
                Struct(Opaque(["struct"]), Named(fields), None))
  }

  const Address := AddressItem("Address", [
    PlainField("id", "String"), PlainField("country", "String"), PlainField("state", "Option<String>"),
    PlainField("city", "String"), PlainField("street", "String"), PlainField("line_1", "String"),
    PlainField("line_2", "String"), PlainField("created", "i64")])

  const CreateAddressParams := AddressItem("CreateAddressParams", [
    PlainField("country", "String"), PlainField("state", "Option<String>"),
    PlainField("city", "String"), PlainField("street", "String"), PlainField("line_1", "String"),
    PlainField("line_2", "String")])
}

/** The repository's usage example: `sub_struct` applied to an `Address`
    struct (tests/01-structs.rs), worked out on the model. */
module AddressExample {
  import opened Syntax
  import opened SubStructArgs
  import opened FieldSelection
  import opened SubStruct
  import opened AddressData

  /** Selection that drops exactly the first and the last field. */
  lemma SelectMiddle(first: Field, mid: seq<Field>, last: Field, listed: seq<string>, keep: bool)
    requires (first.ident in listed) != keep && (last.ident in listed) != keep
    requires forall i :: 0 <= i < |mid| ==> (mid[i].ident in listed) == keep
    ensures Select([first] + mid + [last], listed, keep) == mid
  {
    SelectAll(mid, listed, keep);
    SelectAppend([first] + mid, [last], listed, keep);
    SelectAppend([first], mid, listed, keep);
  }

  /** `remove = ["id", "created"]` drops the first and the last field of `Address`. */
  lemma AddressRemoveSelection()
    ensures Select(Address.data.fields.named, ["id", "created"], false) == CreateAddressParams.data.fields.named
  {
    var fs, mid := Address.data.fields.named, CreateAddressParams.data.fields.named;
    assert fs == [fs[0]] + mid + [fs[7]];
    SelectMiddle(fs[0], mid, fs[7], ["id", "created"], false);
  }

  /** Retaining the six middle field names of `Address` keeps exactly those fields. */
  lemma AddressRetainSelection()
    ensures Select(Address.data.fields.named, ["country", "state", "city", "street", "line_1", "line_2"], true)
         == CreateAddressParams.data.fields.named
  {
    var fs, mid := Address.data.fields.named, CreateAddressParams.data.fields.named;
    assert fs == [fs[0]] + mid + [fs[7]];
    SelectMiddle(fs[0], mid, fs[7], ["country", "state", "city", "street", "line_1", "line_2"], true);
  }

  /** Names found at the given field positions are all recognized. */
  lemma NamesAt(listed: seq<string>, fields: seq<Field>, at: seq<nat>)
    requires |at| == |listed|
    requires forall k :: 0 <= k < |listed| ==> at[k] < |fields| && fields[at[k]].ident == listed[k]
    ensures Unrecognized(listed, fields) == []
  {
    forall n | n in listed ensures HasField(fields, n) {
      var k :| 0 <= k < |listed| && listed[k] == n;
      assert fields[at[k]].ident == n;
    }
    AllRecognized(listed, fields);
  }

  /** Names that are the identifiers of consecutive fields are all recognized. */
  lemma ListedAreIdents(listed: seq<string>, fields: seq<Field>, off: nat)
    requires off + |listed| <= |fields|
    requires forall k :: 0 <= k < |listed| ==> listed[k] == fields[off + k].ident
    ensures Unrecognized(listed, fields) == []
  {
    forall n | n in listed ensures HasField(fields, n) {
      var k :| 0 <= k < |listed| && listed[k] == n;
      assert fields[off + k].ident == n;
    }
    AllRecognized(listed, fields);
  }

  /** The six retained names are all fields of `Address`. */
  lemma AddressRetainNamesExist()
    ensures Unrecognized(["country", "state", "city", "street", "line_1", "line_2"], Address.data.fields.named) == []
  {
    var fs := Address.data.fields.named;
    assert fs[1].ident == "country" && fs[2].ident == "state" && fs[3].ident == "city";
    assert fs[4].ident == "street" && fs[5].ident == "line_1" && fs[6].ident == "line_2";
    ListedAreIdents(["country", "state", "city", "street", "line_1", "line_2"], fs, 1);
  }

  /** A single name that is no field identifier is reported alone. */
  lemma SingleUnrecognized(n: string, fields: seq<Field>)
    requires forall i :: 0 <= i < |fields| ==> fields[i].ident != n
    ensures !HasField(fields, n)
    ensures Unrecognized([n], fields) == [n]
  {
    assert [n][1..] == [];
  }

  /** `nonexistent_field` is no field of `Address` and is reported alone. */
  lemma AddressLacksNonexistent()
    ensures !HasField(Address.data.fields.named, "nonexistent_field")
    ensures Unrecognized(["nonexistent_field"], Address.data.fields.named) == ["nonexistent_field"]
  {
    var fs, n := Address.data.fields.named, "nonexistent_field";
    assert |fs| == 8 && |n| == 17;
    assert |fs[0].ident| == 2 && |fs[1].ident| == 7 && |fs[2].ident| == 5 && |fs[3].ident| == 4;
    assert |fs[4].ident| == 6 && |fs[5].ident| == 6 && |fs[6].ident| == 6 && |fs[7].ident| == 7;
    forall i | 0 <= i < |fs| ensures fs[i].ident != n {
      assert |fs[i].ident| < |n|;
    }
    SingleUnrecognized(n, fs);
  }

  /** `remove = ["id", "created"]` on `Address` yields the unchanged original
      followed by `CreateAddressParams` with the other six fields in order. */
  lemma AddressRemoveExample(args: seq<Arg>)
    requires args == [Arg("name", ExprLit(LitStr("CreateAddressParams"))), Arg("remove", StrArray(["id", "created"]))]
    ensures Expand(args, Address) == Ok([Address, CreateAddressParams])
  {
    var remove := ["id", "created"];
    ParseUsage("CreateAddressParams", RemoveKey, remove);
    NamesAt(remove, Address.data.fields.named, [0, 7]);
    AddressRemoveSelection();
    ExpandValid(args, Address, SubStructAttributes("CreateAddressParams", Remove(remove)));
  }

  /** The equivalent `retain` list gives the same output. */
  lemma AddressRetainExample(args: seq<Arg>)
    requires args == [Arg("name", ExprLit(LitStr("CreateAddressParams"))),
                      Arg("retain", StrArray(["country", "state", "city", "street", "line_1", "line_2"]))]
    ensures Expand(args, Address) == Ok([Address, CreateAddressParams])
  {
    var retain := ["country", "state", "city", "street", "line_1", "line_2"];
    ParseUsage("CreateAddressParams", RetainKey, retain);
    AddressRetainNamesExist();
    AddressRetainSelection();
    ExpandValid(args, Address, SubStructAttributes("CreateAddressParams", Retain(retain)));
  }

  /** A name that is not a field is reported and no struct is generated. */
  lemma NonexistentFieldExample(args: seq<Arg>)
    requires args == [Arg("name", ExprLit(LitStr("CreateAddressParams"))), Arg("remove", StrArray(["nonexistent_field"]))]
    ensures Expand(args, Address) == Err(StructFailed(InvalidFields(RemoveKey, ["nonexistent_field"])))
  {
    var n := "nonexistent_field";
    ParseUsage("CreateAddressParams", RemoveKey, [n]);
    AddressLacksNonexistent();
    assert n in [n];
    InvalidFieldsReported(args, Address);
  }
}
