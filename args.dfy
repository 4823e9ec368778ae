/** The attribute-argument parser (`parse_sub_struct_args`).

    The arguments are walked in order. `name` takes a string literal,
    `remove` and `retain` take array literals of string literals, and the
    first argument that breaks these rules (or has another key) aborts
    parsing. Afterwards a fixed-precedence check demands a non-empty name
    and exactly one non-empty list.

    The specification is given declaratively by `ParseSpec` (first faulty
    argument, last name, concatenated lists, final decision); the method
    `ParseSubStructArgs` is the step-by-step loop of
    `parse_sub_struct_args` and is proved to compute it.
 */
module SubStructArgs {
  import opened Syntax
  import opened SeqFacts

  datatype Strategy = Remove(fields: seq<string>) | Retain(fields: seq<string>)

  datatype SubStructAttributes = SubStructAttributes(name: string, strategy: Strategy)

  /** Which of the two list-valued keys an argument is about. */
  datatype ListKey = RemoveKey | RetainKey

  /** What is wrong with one argument. */
  datatype ArgFault =
    | NameNotString               // `name` = a literal that is not a string
    | NameNotLiteral              // `name` = something that is not a literal
    | ElemNotString(list: ListKey)  // an array element is a literal that is not a string
    | ElemNotLiteral(list: ListKey) // an array element is not a literal
    | ListNotArray(list: ListKey)   // `remove`/`retain` = something that is not an array
    | UnknownKey(key: string)     // a key other than name, remove and retain

  /** Errors of the parser; `index` is the position of the offending argument. */
  datatype ArgError =
    | BadArg(index: nat, fault: ArgFault)
    | NameRequired
    | NotExactlyOneStrategy

  function KeyText(list: ListKey): string
  {
    match list
    case RemoveKey => "remove"
    case RetainKey => "retain"
  }

  function StrategyKey(s: Strategy): ListKey
  {
    match s
    case Remove(_) => RemoveKey
    case Retain(_) => RetainKey
  }

  // ---------------------------------------------------------------------
  // Specification of one argument

  /** The fault of one array element, if any. */
  function ElemFault(list: ListKey, e: Expr): Option<ArgFault>
  {
    match e
    case ExprLit(LitStr(_)) => None
    case ExprLit(LitOther(_)) => Some(ElemNotString(list))
    case _ => Some(ElemNotLiteral(list))
  }

  /** The fault of the first faulty element of an array, if any. */
  function FirstElemFault(list: ListKey, es: seq<Expr>): (r: Option<ArgFault>)
    ensures r.None? <==> forall j :: 0 <= j < |es| ==> ElemFault(list, es[j]).None?
    ensures r.Some? ==> exists j :: 0 <= j < |es| && ElemFault(list, es[j]) == r
                                   && forall k :: 0 <= k < j ==> ElemFault(list, es[k]).None?
  {
    if es == [] then None
    else if ElemFault(list, es[0]).Some? then ElemFault(list, es[0])
    else
      var r := FirstElemFault(list, es[1..]);
      assert forall j :: 1 <= j < |es| ==> es[j] == es[1..][j - 1];
      r
  }

  /** The fault of one argument, if any. */
  function ArgFaultOf(a: Arg): (r: Option<ArgFault>)
    ensures r.None? <==>
              || IsNameString(a)
              || ((a.key == "remove" || a.key == "retain") && a.value.ExprArray?
                  && forall j :: 0 <= j < |a.value.elems| ==>
                       a.value.elems[j].ExprLit? && a.value.elems[j].lit.LitStr?)
    ensures r == Some(UnknownKey(a.key)) <==> a.key != "name" && a.key != "remove" && a.key != "retain"
  {
    if a.key == "name" then
      match a.value
      case ExprLit(LitStr(_)) => None
      case ExprLit(LitOther(_)) => Some(NameNotString)
      case _ => Some(NameNotLiteral)
    else if a.key == KeyText(RemoveKey) || a.key == KeyText(RetainKey) then
      var list := if a.key == KeyText(RemoveKey) then RemoveKey else RetainKey;
      match a.value
      case ExprArray(es) => FirstElemFault(list, es)
      case _ => Some(ListNotArray(list))
    else Some(UnknownKey(a.key))
  }

  /** The position and fault of the first faulty argument, if any. */
  function FirstBad(args: seq<Arg>): (r: Option<(nat, ArgFault)>)
    ensures r.None? <==> forall i :: 0 <= i < |args| ==> ArgFaultOf(args[i]).None?
    ensures r.Some? ==> r.value.0 < |args| && ArgFaultOf(args[r.value.0]) == Some(r.value.1)
                        && forall i :: 0 <= i < r.value.0 ==> ArgFaultOf(args[i]).None?
  {
    if args == [] then None
    else match ArgFaultOf(args[0])
      case Some(f) => Some((0, f))
      case None =>
        assert forall i :: 1 <= i < |args| ==> args[i] == args[1..][i - 1];
        match FirstBad(args[1..])
        case None => None
        case Some((i, f)) => Some((i + 1, f))
  }

  // ---------------------------------------------------------------------
  // Specification of what the arguments accumulate

  /** The strings of an array whose elements are string literals, in order. */
  function StrValues(es: seq<Expr>): (r: seq<string>)
    ensures (forall j :: 0 <= j < |es| ==> es[j].ExprLit? && es[j].lit.LitStr?) ==>
              |r| == |es| && forall j :: 0 <= j < |es| ==> r[j] == es[j].lit.value
  {
    if es == [] then []
    else
      var last := es[|es| - 1];
      StrValues(es[..|es| - 1]) + (if last.ExprLit? && last.lit.LitStr? then [last.lit.value] else [])
  }

  /** The strings one argument contributes to the `list` key. */
  function ListValues(a: Arg, list: ListKey): seq<string>
  {
    if a.key == KeyText(list) && a.value.ExprArray? then StrValues(a.value.elems) else []
  }

  /** The strings all arguments contribute to the `list` key, in argument order. */
  function Collected(args: seq<Arg>, list: ListKey): seq<string>
  {
    if args == [] then []
    else Collected(args[..|args| - 1], list) + ListValues(args[|args| - 1], list)
  }

  /** True of a `name` argument whose value is a string literal. */
  predicate IsNameString(a: Arg)
  {
    a.key == "name" && a.value.ExprLit? && a.value.lit.LitStr?
  }

  /** The string of the last well-formed `name` argument, or "" when there is none. */
  function LastName(args: seq<Arg>): string
  {
    if args == [] then ""
    else if IsNameString(args[|args| - 1]) then args[|args| - 1].value.lit.value
    else LastName(args[..|args| - 1])
  }

  /** The cross-check made after all arguments are read: the name first, then
      exactly one non-empty list. */
  function Decide(name: string, remove: seq<string>, retain: seq<string>): (r: Result<SubStructAttributes, ArgError>)
    ensures r == Err(NameRequired) <==> name == ""
    ensures r == Err(NotExactlyOneStrategy) <==> name != "" && (remove == []) == (retain == [])
    ensures r.Ok? <==> name != "" && (remove == []) != (retain == [])
    ensures r.Ok? ==> r.value.name == name && r.value.strategy.fields != []
    ensures r.Ok? ==> r.value.strategy == (if remove != [] then Remove(remove) else Retain(retain))
  {
    match name == ""
    case false =>
      (match remove == []
       case false =>
         (match retain == []
          case false => Err(NotExactlyOneStrategy)
          case true => Ok(SubStructAttributes(name, Remove(remove))))
       case true =>
         (match retain == []
          case true => Err(NotExactlyOneStrategy)
          case false => Ok(SubStructAttributes(name, Retain(retain)))))
    case true => Err(NameRequired)
  }

  /** What parsing yields: the first faulty argument's error, otherwise the
      decision on the last name and the concatenated lists. */
  function ParseSpec(args: seq<Arg>): (r: Result<SubStructAttributes, ArgError>)
    ensures (r.Err? && r.error.BadArg?) <==> exists i :: 0 <= i < |args| && ArgFaultOf(args[i]).Some?
    ensures r.Err? && r.error.BadArg? ==>
              && r.error.index < |args| && ArgFaultOf(args[r.error.index]) == Some(r.error.fault)
              && forall j :: 0 <= j < r.error.index ==> ArgFaultOf(args[j]).None?
    ensures r.Ok? ==> r.value.name != "" && r.value.strategy.fields != []
  {
    match FirstBad(args)
    case Some((i, f)) => Err(BadArg(i, f))
    case None => Decide(LastName(args), Collected(args, RemoveKey), Collected(args, RetainKey))
  }

  // ---------------------------------------------------------------------
  // The parser

  /** Pushes the strings of the array `elems` onto `acc`, one element at a
      time, stopping at the first element that is not a string literal. */
  method PushStrings(list: ListKey, elems: seq<Expr>, acc: seq<string>) returns (r: Result<seq<string>, ArgFault>)
    ensures r == match FirstElemFault(list, elems)
                 case None => Ok(acc + StrValues(elems))
                 case Some(f) => Err(f)
  {
    var out := acc;
    var j := 0;
    while j < |elems|
      invariant 0 <= j <= |elems|
      invariant forall k :: 0 <= k < j ==> ElemFault(list, elems[k]).None?
      invariant out == acc + StrValues(elems[..j])
    {
      assert elems[..j + 1][..j] == elems[..j];
      match elems[j] {
        case ExprLit(LitStr(n)) =>
          out := out + [n];
        case ExprLit(LitOther(_)) =>
          return Err(ElemNotString(list));
        case _ =>
          return Err(ElemNotLiteral(list));
      }
      j := j + 1;
    }
    assert elems[..j] == elems;
    r := Ok(out);
  }

  /** The position and fault of a faulty argument preceded only by sound ones
      are the first fault. */
  lemma FirstBadAt(args: seq<Arg>, i: nat)
    requires i < |args| && ArgFaultOf(args[i]).Some?
    requires forall j :: 0 <= j < i ==> ArgFaultOf(args[j]).None?
    ensures FirstBad(args) == Some((i, ArgFaultOf(args[i]).value))
  {
    var k := FirstBad(args).value.0;
    assert !(k < i) && !(i < k);
  }

  /** A faulty argument preceded only by sound ones decides the parse. */
  lemma FirstFaultDecides(args: seq<Arg>, i: nat)
    requires i < |args| && ArgFaultOf(args[i]).Some?
    requires forall j :: 0 <= j < i ==> ArgFaultOf(args[j]).None?
    ensures ParseSpec(args) == Err(BadArg(i, ArgFaultOf(args[i]).value))
  {
    FirstBadAt(args, i);
  }

  /** What one argument does to the loop state: its fault, or the name it
      sets and the strings it pushes onto each list. */
  function Step(a: Arg, name: string, remove: seq<string>, retain: seq<string>)
    : Result<(string, seq<string>, seq<string>), ArgFault>
  {
    match ArgFaultOf(a)
    case Some(f) => Err(f)
    case None => Ok((if IsNameString(a) then a.value.lit.value else name,
                     remove + ListValues(a, RemoveKey), retain + ListValues(a, RetainKey)))
  }

  /** The loop state after reading `args` one by one: the name and the two
      lists, or the position and fault of the argument that stopped the loop. */
  function Scan(args: seq<Arg>): Result<(string, seq<string>, seq<string>), (nat, ArgFault)>
  {
    if args == [] then Ok(("", [], []))
    else match Scan(args[..|args| - 1])
      case Err(e) => Err(e)
      case Ok((n, rm, rt)) =>
        match Step(args[|args| - 1], n, rm, rt)
        case Err(f) => Err((|args| - 1, f))
        case Ok(st) => Ok(st)
  }

  /** One more argument: an earlier fault stays the first; otherwise the new
      argument's own fault, if any, is. */
  lemma FirstBadSnoc(pre: seq<Arg>, x: Arg)
    ensures FirstBad(pre + [x]) == match FirstBad(pre)
                                   case Some(p) => Some(p)
                                   case None => match ArgFaultOf(x)
                                                case Some(f) => Some((|pre|, f))
                                                case None => None
  {
    var args := pre + [x];
    assert forall j :: 0 <= j < |pre| ==> args[j] == pre[j];
    match FirstBad(pre) {
      case Some((k, f)) =>
        FirstBadAt(args, k);
      case None =>
        if ArgFaultOf(x).Some? {
          FirstBadAt(args, |pre|);
        } else {
          forall j | 0 <= j < |args| ensures ArgFaultOf(args[j]).None? {
            if j < |pre| {
              assert args[j] == pre[j];
            }
          }
        }
    }
  }

  /** The loop reads exactly the declarative quantities: it stops at the
      first faulty argument, and otherwise ends with the last name and the
      concatenated lists. */
  lemma {:induction false} ScanMatches(args: seq<Arg>)
    ensures Scan(args) == match FirstBad(args)
                          case Some(p) => Err(p)
                          case None => Ok((LastName(args), Collected(args, RemoveKey), Collected(args, RetainKey)))
  {
    if args != [] {
      var pre, x := args[..|args| - 1], args[|args| - 1];
      assert args == pre + [x];
      ScanMatches(pre);
      FirstBadSnoc(pre, x);
    }
  }

  /** Once the loop has stopped, later arguments do not matter. */
  lemma {:induction false} ScanStops(args: seq<Arg>, k: nat)
    requires k <= |args| && Scan(args[..k]).Err?
    ensures Scan(args) == Scan(args[..k])
    decreases |args| - k
  {
    if k < |args| {
      assert args[..k + 1][..k] == args[..k];
      ScanStops(args, k + 1);
    } else {
      assert args[..k] == args;
    }
  }

  /** Parsing is the loop's state followed by the final decision. */
  lemma ParseIsScan(args: seq<Arg>)
    ensures ParseSpec(args) == match Scan(args)
                               case Err((i, f)) => Err(BadArg(i, f))
                               case Ok((n, rm, rt)) => Decide(n, rm, rt)
  {
    ScanMatches(args);
  }

  /** The body of the argument loop: one argument updates the name or pushes
      onto a list, or is rejected. */
  method ApplyArg(arg: Arg, name: string, remove: seq<string>, retain: seq<string>)
    returns (r: Result<(string, seq<string>, seq<string>), ArgFault>)
    ensures r == Step(arg, name, remove, retain)
  {
    if arg.key == "name" {
      match arg.value {
        case ExprLit(LitStr(n)) =>
          assert ListValues(arg, RemoveKey) == [] && ListValues(arg, RetainKey) == [];
          assert remove + [] == remove && retain + [] == retain;
          r := Ok((n, remove, retain));
        case ExprLit(LitOther(_)) =>
          r := Err(NameNotString);
        case _ =>
          r := Err(NameNotLiteral);
      }
    } else if arg.key == "remove" {
      match arg.value {
        case ExprArray(elems) =>
          var pushed := PushStrings(RemoveKey, elems, remove);
          match pushed {
            case Ok(l) =>
              assert KeyText(RetainKey) != KeyText(RemoveKey);
              assert ListValues(arg, RetainKey) == [] && retain + [] == retain;
              r := Ok((name, l, retain));
            case Err(f) => r := Err(f);
          }
        case _ =>
          r := Err(ListNotArray(RemoveKey));
      }
    } else if arg.key == "retain" {
      match arg.value {
        case ExprArray(elems) =>
          var pushed := PushStrings(RetainKey, elems, retain);
          match pushed {
            case Ok(l) =>
              assert KeyText(RetainKey) != KeyText(RemoveKey);
              assert ListValues(arg, RemoveKey) == [] && remove + [] == remove;
              r := Ok((name, remove, l));
            case Err(f) => r := Err(f);
          }
        case _ =>
          r := Err(ListNotArray(RetainKey));
      }
    } else {
      r := Err(UnknownKey(arg.key));
    }
  }

  /** `parse_sub_struct_args`: walks the arguments, updating the name and
      pushing onto the two lists, and returns at the first faulty one. */
  method ParseSubStructArgs(args: seq<Arg>) returns (r: Result<SubStructAttributes, ArgError>)
    ensures r == ParseSpec(args)
  {
    var name := "";
    var remove: seq<string> := [];
    var retain: seq<string> := [];
    var i := 0;
    while i < |args|
      invariant 0 <= i <= |args|
      invariant Scan(args[..i]) == Ok((name, remove, retain))
    {
      assert args[..i + 1][..i] == args[..i];
      var applied := ApplyArg(args[i], name, remove, retain);
      match applied {
        case Err(f) =>
          ScanStops(args, i + 1);
          ParseIsScan(args);
          return Err(BadArg(i, f));
        case Ok((n, rm, rt)) =>
          name, remove, retain := n, rm, rt;
      }
      i := i + 1;
    }
    assert args[..i] == args;
    ParseIsScan(args);
    r := Decide(name, remove, retain);
  }

  // ---------------------------------------------------------------------
  // Properties of the parser

  /** The name is checked before the lists: with no faulty argument and no
      non-empty name, the result is the missing-name error, whatever the lists. */
  lemma NameCheckedFirst(args: seq<Arg>)
    requires forall i :: 0 <= i < |args| ==> ArgFaultOf(args[i]).None?
    requires forall i :: 0 <= i < |args| ==> IsNameString(args[i]) ==> args[i].value.lit.value == ""
    ensures ParseSpec(args) == Err(NameRequired)
  {
    LastNameEmpty(args);
  }

  lemma {:induction false} LastNameEmpty(args: seq<Arg>)
    requires forall i :: 0 <= i < |args| ==> IsNameString(args[i]) ==> args[i].value.lit.value == ""
    ensures LastName(args) == ""
  {
    if args != [] {
      var pre := args[..|args| - 1];
      assert forall i :: 0 <= i < |pre| ==> pre[i] == args[i];
      LastNameEmpty(pre);
    }
  }

  /** Last write wins: the name is that of the last well-formed `name` argument. */
  lemma {:induction false} LastNameIsLast(args: seq<Arg>, k: nat)
    requires k < |args| && IsNameString(args[k])
    requires forall j :: k < j < |args| ==> !IsNameString(args[j])
    ensures LastName(args) == args[k].value.lit.value
  {
    if k < |args| - 1 {
      var pre := args[..|args| - 1];
      assert forall j :: 0 <= j < |pre| ==> pre[j] == args[j];
      LastNameIsLast(pre, k);
    }
  }

  /** A list key accumulates: the lists of two runs of arguments are appended. */
  lemma {:induction false} CollectedAppend(a: seq<Arg>, b: seq<Arg>, list: ListKey)
    ensures Collected(a + b, list) == Collected(a, list) + Collected(b, list)
  {
    if b == [] {
      assert a + b == a;
    } else {
      var b', x := b[..|b| - 1], b[|b| - 1];
      assert b == b' + [x];
      assert a + b == (a + b') + [x];
      CollectedAppend(a, b', list);
      CollectedSnoc(a + b', x, list);
      CollectedSnoc(b', x, list);
      AppendAssoc(Collected(a, list), Collected(b', list), ListValues(x, list));
    }
  }

  lemma CollectedSnoc(a: seq<Arg>, x: Arg, list: ListKey)
    ensures Collected(a + [x], list) == Collected(a, list) + ListValues(x, list)
  {
    assert (a + [x])[..|a|] == a;
  }

  /** A single well-formed `remove`/`retain` argument contributes exactly its strings. */
  lemma CollectedSingle(a: Arg, list: ListKey)
    requires a.key == KeyText(list) && a.value.ExprArray?
    ensures Collected([a], list) == StrValues(a.value.elems)
  {
    assert [a][..0] == [];
  }

  lemma {:induction false} LastNameSkip(a: seq<Arg>, x: Arg, b: seq<Arg>)
    requires !IsNameString(x)
    ensures LastName(a + [x] + b) == LastName(a + b)
  {
    if b == [] {
      assert (a + [x] + b)[..|a|] == a;
      assert a + b == a;
    } else {
      var b' := b[..|b| - 1];
      assert (a + [x] + b)[..|a + [x] + b| - 1] == a + [x] + b';
      assert (a + b)[..|a + b| - 1] == a + b';
      LastNameSkip(a, x, b');
    }
  }

  /** Inserting a sound argument among sound ones keeps them all sound. */
  lemma InsertSound(pre: seq<Arg>, x: Arg, post: seq<Arg>)
    requires ArgFaultOf(x).None?
    requires forall i :: 0 <= i < |pre + post| ==> ArgFaultOf((pre + post)[i]).None?
    ensures forall i :: 0 <= i < |pre + [x] + post| ==> ArgFaultOf((pre + [x] + post)[i]).None?
  {
    var full := pre + [x] + post;
    forall i | 0 <= i < |full| ensures ArgFaultOf(full[i]).None? {
      if i < |pre| {
        assert full[i] == (pre + post)[i];
      } else if i > |pre| {
        assert full[i] == (pre + post)[i - 1];
      }
    }
  }

  /** An argument that contributes nothing to a list leaves that list as it is. */
  lemma CollectedSkip(pre: seq<Arg>, x: Arg, post: seq<Arg>, list: ListKey)
    requires ListValues(x, list) == []
    ensures Collected(pre + [x] + post, list) == Collected(pre + post, list)
  {
    assert Collected([x], list) == [] by {
      assert [x][..0] == [];
    }
    CollectedAppend(pre + [x], post, list);
    CollectedAppend(pre, [x], list);
    CollectedAppend(pre, post, list);
  }

  /** `remove = []` (or `retain = []`) among sound arguments is the same as
      not supplying the key. */
  lemma EmptyListIsNotSupplied(pre: seq<Arg>, list: ListKey, post: seq<Arg>)
    requires forall i :: 0 <= i < |pre + post| ==> ArgFaultOf((pre + post)[i]).None?
    ensures ParseSpec(pre + [Arg(KeyText(list), ExprArray([]))] + post) == ParseSpec(pre + post)
  {
    var x := Arg(KeyText(list), ExprArray([]));
    assert ArgFaultOf(x) == FirstElemFault(list, []) == None;
    assert ListValues(x, RemoveKey) == [] && ListValues(x, RetainKey) == [];
    InsertSound(pre, x, post);
    LastNameSkip(pre, x, post);
    CollectedSkip(pre, x, post, RemoveKey);
    CollectedSkip(pre, x, post, RetainKey);
  }

  /** Parsing stops at the first faulty argument: whatever follows it does not
      change the result. */
  lemma FailFast(args: seq<Arg>, i: nat, f: ArgFault, rest: seq<Arg>)
    requires ParseSpec(args) == Err(BadArg(i, f))
    ensures i < |args|
    ensures ParseSpec(args[..i + 1] + rest) == Err(BadArg(i, f))
  {
    assert FirstBad(args) == Some((i, f));
    var ext := args[..i + 1] + rest;
    assert forall j :: 0 <= j <= i ==> ext[j] == args[j];
    FirstBadAt(ext, i);
  }

  /** An array literal of string literals. */
  function StrArray(names: seq<string>): Expr
  {
    ExprArray(seq(|names|, i requires 0 <= i < |names| => ExprLit(LitStr(names[i]))))
  }

  /** `remove = [..]` or `retain = [..]` over string literals is sound and
      contributes exactly those strings to its own list and none to the other. */
  lemma StrArrayArg(list: ListKey, names: seq<string>)
    ensures var a := Arg(KeyText(list), StrArray(names));
            && ArgFaultOf(a) == None && !IsNameString(a)
            && ListValues(a, list) == names
            && ListValues(a, if list == RemoveKey then RetainKey else RemoveKey) == []
  {
    var elems := StrArray(names).elems;
    assert KeyText(RemoveKey) != KeyText(RetainKey);
    assert FirstElemFault(list, elems) == None;
    assert StrValues(elems) == names;
  }

  /** The documented usage `name = "N", remove = [..]` (or `retain = [..]`)
      parses to that name and that strategy over the listed names. */
  lemma ParseUsage(name: string, list: ListKey, names: seq<string>)
    requires name != "" && names != []
    ensures ParseSpec([Arg("name", ExprLit(LitStr(name))), Arg(KeyText(list), StrArray(names))])
         == Ok(SubStructAttributes(name, if list == RemoveKey then Remove(names) else Retain(names)))
  {
    var a0, a1 := Arg("name", ExprLit(LitStr(name))), Arg(KeyText(list), StrArray(names));
    var args := [a0, a1];
    StrArrayArg(list, names);
    var rm, rt := ListValues(a1, RemoveKey), ListValues(a1, RetainKey);
    assert args[..1] == [a0] && [a0][..0] == [];
    assert Scan([a0]) == Ok((name, [], []));
    assert [] + rm == rm && [] + rt == rt;
    assert Scan(args) == Ok((name, rm, rt));
    ParseIsScan(args);
  }

  /** What a successful parse yields, in terms of the arguments. */
  lemma ParseOk(args: seq<Arg>)
    requires ParseSpec(args).Ok?
    ensures forall i :: 0 <= i < |args| ==> ArgFaultOf(args[i]).None?
    ensures ParseSpec(args).value.name == LastName(args) != ""
    ensures ParseSpec(args).value.strategy ==
              if Collected(args, RemoveKey) != [] then Remove(Collected(args, RemoveKey))
              else Retain(Collected(args, RetainKey))
    ensures (Collected(args, RemoveKey) == []) != (Collected(args, RetainKey) == [])
  {
  }
}
