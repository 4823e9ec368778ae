/** Field-level work of `sub_struct` on a struct with named fields: the
    check that every listed name is a field, and the selection of the fields
    of the generated struct.

    The check is a loop in `sub_struct` (`CollectUnrecognized`), specified by
    the function `Unrecognized`; the selection is its
    `filter`/`cloned`/`collect` chain, modelled by the function `Select`.
 */
module FieldSelection {
  import opened Syntax
  import opened SeqFacts
  import opened SubStructArgs

  /** Whether some field has the identifier `name` (exact string equality). */
  function HasField(fields: seq<Field>, name: string): (b: bool)
    ensures b <==> exists i :: 0 <= i < |fields| && fields[i].ident == name
  {
    if fields == [] then false
    else if fields[0].ident == name then true
    else
      var b := HasField(fields[1..], name);
      assert forall i :: 1 <= i < |fields| ==> fields[i] == fields[1..][i - 1];
      b
  }

  // ---------------------------------------------------------------------
  // Existence check

  /** The listed names that are not field identifiers, in listing order and
      with their repetitions. */
  function Unrecognized(listed: seq<string>, fields: seq<Field>): (r: seq<string>)
    ensures IsSubsequence(r, listed)
    ensures forall n :: multiset(r)[n] == if HasField(fields, n) then 0 else multiset(listed)[n]
    ensures forall n :: n in r <==> n in listed && !HasField(fields, n)
  {
    if listed == [] then []
    else
      var rest := Unrecognized(listed[1..], fields);
      assert listed == [listed[0]] + listed[1..];
      if HasField(fields, listed[0]) then rest else [listed[0]] + rest
  }

  /** The existence check of `sub_struct`: walks the listed names and pushes
      every one that matches no field identifier. */
  method CollectUnrecognized(fields: seq<Field>, listed: seq<string>) returns (unrecognized: seq<string>)
    ensures unrecognized == Unrecognized(listed, fields)
  {
    unrecognized := [];
    for i := 0 to |listed|
      invariant unrecognized == Unrecognized(listed[..i], fields)
    {
      assert listed[..i + 1] == listed[..i] + [listed[i]];
      UnrecognizedSnoc(listed[..i], listed[i], fields);
      if !HasField(fields, listed[i]) {
        unrecognized := unrecognized + [listed[i]];
      }
    }
    assert listed[..|listed|] == listed;
  }

  /** Checking one more name appends it when it matches no field. */
  lemma {:induction false} UnrecognizedSnoc(listed: seq<string>, n: string, fields: seq<Field>)
    ensures Unrecognized(listed + [n], fields)
         == Unrecognized(listed, fields) + (if HasField(fields, n) then [] else [n])
  {
    if listed == [] {
      assert [] + [n] == [n] && [n][1..] == [];
    } else {
      assert (listed + [n])[1..] == listed[1..] + [n];
      UnrecognizedSnoc(listed[1..], n, fields);
      var head := if HasField(fields, listed[0]) then [] else [listed[0]];
      AppendAssoc(head, Unrecognized(listed[1..], fields), if HasField(fields, n) then [] else [n]);
    }
  }

  /** Every name of `listed` is a field identifier exactly when nothing is unrecognized. */
  lemma AllRecognized(listed: seq<string>, fields: seq<Field>)
    ensures Unrecognized(listed, fields) == [] <==> forall n :: n in listed ==> HasField(fields, n)
  {
    var r := Unrecognized(listed, fields);
    if r != [] {
      assert r[0] in r;
    }
  }

  // ---------------------------------------------------------------------
  // Selection

  /** The fields, in declaration order, whose identifier is listed (`keep`)
      or not listed (`!keep`); each kept field is unchanged. */
  function Select(fields: seq<Field>, listed: seq<string>, keep: bool): (r: seq<Field>)
    ensures IsSubsequence(r, fields)
    ensures forall f :: multiset(r)[f] == if (f.ident in listed) == keep then multiset(fields)[f] else 0
    ensures forall f :: f in r <==> f in fields && (f.ident in listed) == keep
  {
    if fields == [] then []
    else
      var rest := Select(fields[1..], listed, keep);
      assert fields == [fields[0]] + fields[1..];
      if (fields[0].ident in listed) == keep then [fields[0]] + rest else rest
  }

  /** The first field is kept or dropped on its own. */
  lemma SelectCons(x: Field, rest: seq<Field>, listed: seq<string>, keep: bool)
    ensures Select([x] + rest, listed, keep)
         == (if (x.ident in listed) == keep then [x] else []) + Select(rest, listed, keep)
  {
    assert ([x] + rest)[0] == x && ([x] + rest)[1..] == rest;
  }

  /** Selection works field by field: it distributes over concatenation. */
  lemma {:induction false} SelectAppend(a: seq<Field>, b: seq<Field>, listed: seq<string>, keep: bool)
    ensures Select(a + b, listed, keep) == Select(a, listed, keep) + Select(b, listed, keep)
  {
    if a == [] {
      assert a + b == b;
    } else {
      var x, a' := a[0], a[1..];
      assert a == [x] + a' && a + b == [x] + (a' + b);
      SelectCons(x, a', listed, keep);
      SelectCons(x, a' + b, listed, keep);
      SelectAppend(a', b, listed, keep);
      var h := if (x.ident in listed) == keep then [x] else [];
      AppendAssoc(h, Select(a', listed, keep), Select(b, listed, keep));
    }
  }

  /** A field list all of whose fields pass the test is selected whole. */
  lemma {:induction false} SelectAll(fields: seq<Field>, listed: seq<string>, keep: bool)
    requires forall i :: 0 <= i < |fields| ==> (fields[i].ident in listed) == keep
    ensures Select(fields, listed, keep) == fields
  {
    if fields != [] {
      var rest := fields[1..];
      forall i | 0 <= i < |rest| ensures (rest[i].ident in listed) == keep {
        assert rest[i] == fields[i + 1];
      }
      SelectAll(rest, listed, keep);
    }
  }

  /** The fields of the generated struct under a strategy: the non-listed
      ones for Remove, the listed ones for Retain. */
  function KeepFields(fields: seq<Field>, s: Strategy): (r: seq<Field>)
    ensures IsSubsequence(r, fields)
    ensures forall f :: f in r <==> f in fields && (f.ident in s.fields <==> s.Retain?)
  {
    match s
    case Remove(fs) => Select(fields, fs, false)
    case Retain(fs) => Select(fields, fs, true)
  }

  /** Selecting by `F` and dropping by `G` agree when, on every field, `G`
      lists exactly the identifiers `F` does not. */
  lemma {:induction false} SelectByComplement(fields: seq<Field>, F: seq<string>, G: seq<string>)
    requires forall i :: 0 <= i < |fields| ==> (fields[i].ident in G <==> fields[i].ident !in F)
    ensures Select(fields, F, true) == Select(fields, G, false)
  {
    if fields != [] {
      assert forall i :: 1 <= i < |fields| ==> fields[i] == fields[1..][i - 1];
      SelectByComplement(fields[1..], F, G);
    }
  }

  /** Only the set of listed names matters: neither their order nor their
      repetitions change the selection. */
  lemma {:induction false} SelectSameNames(fields: seq<Field>, F1: seq<string>, F2: seq<string>, keep: bool)
    requires forall n :: n in F1 <==> n in F2
    ensures Select(fields, F1, keep) == Select(fields, F2, keep)
  {
    if fields != [] {
      SelectSameNames(fields[1..], F1, F2, keep);
    }
  }

  /** Every field goes to exactly one of the two selections: together they
      hold each field as often as the original list does. */
  lemma SelectPartition(fields: seq<Field>, listed: seq<string>)
    ensures multiset(Select(fields, listed, true)) + multiset(Select(fields, listed, false)) == multiset(fields)
    ensures |Select(fields, listed, true)| + |Select(fields, listed, false)| == |fields|
  {
    var kept, dropped := Select(fields, listed, true), Select(fields, listed, false);
    forall f ensures (multiset(kept) + multiset(dropped))[f] == multiset(fields)[f] {
    }
    assert multiset(kept) + multiset(dropped) == multiset(fields);
    assert |multiset(kept) + multiset(dropped)| == |multiset(fields)|;
  }

  /** The identifiers of the fields not listed in `F`, in declaration order. */
  function ComplementNames(fields: seq<Field>, F: seq<string>): (r: seq<string>)
    ensures forall n :: n in r <==> n !in F && HasField(fields, n)
  {
    if fields == [] then []
    else
      var rest := ComplementNames(fields[1..], F);
      assert forall i :: 1 <= i < |fields| ==> fields[i] == fields[1..][i - 1];
      if fields[0].ident in F then rest else [fields[0].ident] + rest
  }

  /** Remove/retain duality: retaining `F` keeps the same fields as removing
      every other field name, and that complement names only existing fields. */
  lemma RetainRemoveDuality(fields: seq<Field>, F: seq<string>)
    ensures KeepFields(fields, Retain(F)) == KeepFields(fields, Remove(ComplementNames(fields, F)))
    ensures Unrecognized(ComplementNames(fields, F), fields) == []
  {
    var G := ComplementNames(fields, F);
    forall i | 0 <= i < |fields| ensures fields[i].ident in G <==> fields[i].ident !in F {
      assert HasField(fields, fields[i].ident);
    }
    SelectByComplement(fields, F, G);
    AllRecognized(G, fields);
  }

  // ---------------------------------------------------------------------
  // Reporting

  /** The summed length of `parts`. */
  function TotalLength(parts: seq<string>): nat
  {
    if parts == [] then 0 else |parts[0]| + TotalLength(parts[1..])
  }

  /** `parts` joined with `sep` between consecutive parts (`Vec::join`): all
      the parts plus one separator fewer than there are parts. */
  function Join(parts: seq<string>, sep: string): (r: string)
    ensures parts == [] ==> r == ""
    ensures parts != [] ==> |r| == TotalLength(parts) + (|parts| - 1) * |sep|
  {
    if parts == [] then ""
    else if |parts| == 1 then parts[0]
    else parts[0] + sep + Join(parts[1..], sep)
  }

  /** Every part occurs in the joined string, at the returned offset. */
  lemma {:induction false} JoinContains(parts: seq<string>, sep: string, k: nat) returns (off: nat)
    requires k < |parts|
    ensures off + |parts[k]| <= |Join(parts, sep)|
    ensures Join(parts, sep)[off..off + |parts[k]|] == parts[k]
  {
    if k == 0 {
      off := 0;
      if |parts| > 1 {
        assert Join(parts, sep) == parts[0] + (sep + Join(parts[1..], sep));
      }
    } else {
      var inner := JoinContains(parts[1..], sep, k - 1);
      var head := parts[0] + sep;
      assert Join(parts, sep) == head + Join(parts[1..], sep);
      off := |head| + inner;
      assert Join(parts, sep)[off..off + |parts[k]|] == Join(parts[1..], sep)[inner..inner + |parts[k]|];
    }
  }
}
