/**
 The strict JSON data model: values, the frozen protocol limits, the shared
 depth-budget walk, JSON equality and the normal form that decides it.
 */
module Json {
  import opened Texts
  import opened Numbers

  const MAX_WALK_DEPTH: nat := 500
  const MAX_INT_DIGITS: nat := 4300
  const MAX_DECIMAL_SCALE: nat := 4300

  /** A finite binary float, given by the decimal its shortest `repr` denotes. */
  type FloatDecimal = d: Decimal | -324 <= Adjusted(d) <= 308
    witness Decimal(false, 0, 0)

  /** Python values offered to the serializer; Alien is anything outside the data model. */
  datatype Json =
    | Null
    | Bool(b: bool)
    | Int(n: int)
    | Dec(d: Decimal)
    | Flt(f: FloatDecimal)
    | Str(s: Text)
    | Arr(items: seq<Json>)
    | Obj(members: map<Text, Json>)
    | Alien

  // ---------------------------------------------------------------------
  // The walk
  // ---------------------------------------------------------------------

  /** Every node below v passes `visit` and lies within the nesting budget. */
  ghost predicate Walks(v: Json, depth: nat, visit: Json -> bool)
    decreases v
  {
    && depth <= MAX_WALK_DEPTH
    && visit(v)
    && (v.Arr? ==> forall i :: 0 <= i < |v.items| ==> Walks(v.items[i], depth + 1, visit))
    && (v.Obj? ==> forall k :: k in v.members ==> Walks(v.members[k], depth + 1, visit))
  }

  /** Number of nodes: how much walking a value takes. */
  ghost function Nodes(v: Json): (n: nat)
    ensures n > 0
    decreases v, 1, 0
  {
    match v
    case Arr(items) => 1 + NodesOf(items, v)
    case Obj(members) => 1 + NodesAt(Sorted(members.Keys), members, v)
    case _ => 1
  }

  ghost function NodesOf(items: seq<Json>, owner: Json): nat
    requires forall i :: 0 <= i < |items| ==> items[i] < owner
    decreases owner, 0, |items|
  {
    if items == [] then 0 else NodesOf(items[..|items| - 1], owner) + Nodes(items[|items| - 1])
  }

  ghost function NodesAt(keys: seq<Text>, members: map<Text, Json>, owner: Json): nat
    requires owner.Obj? && owner.members == members
    requires forall k :: k in keys ==> k in members
    decreases owner, 0, |keys|
  {
    if keys == [] then 0
    else NodesAt(keys[..|keys| - 1], members, owner) + Nodes(members[keys[|keys| - 1]])
  }

  /** What still has to be walked: the nodes waiting on the stack. */
  ghost function NodesWaiting(stack: seq<(Json, nat)>): nat
  {
    if stack == [] then 0
    else NodesWaiting(stack[..|stack| - 1]) + Nodes(stack[|stack| - 1].0)
  }

  ghost predicate WaitingWalks(stack: seq<(Json, nat)>, visit: Json -> bool)
  {
    forall i :: 0 <= i < |stack| ==> Walks(stack[i].0, stack[i].1, visit)
  }

  lemma NodesWaitingPush(stack: seq<(Json, nat)>, e: (Json, nat))
    ensures NodesWaiting(stack + [e]) == NodesWaiting(stack) + Nodes(e.0)
  {
    assert (stack + [e])[..|stack|] == stack;
  }

  lemma WaitingWalksPush(stack: seq<(Json, nat)>, e: (Json, nat), visit: Json -> bool)
    ensures WaitingWalks(stack + [e], visit) <==> WaitingWalks(stack, visit) && Walks(e.0, e.1, visit)
  {
    var s := stack + [e];
    if WaitingWalks(s, visit) {
      assert s[|stack|] == e;
      forall i | 0 <= i < |stack| ensures Walks(stack[i].0, stack[i].1, visit) { assert s[i] == stack[i]; }
    }
  }

  /** The top of the stack against the rest of it. */
  lemma StackPop(stack: seq<(Json, nat)>, visit: Json -> bool)
    requires stack != []
    ensures var top, rest := stack[|stack| - 1], stack[..|stack| - 1];
      && (WaitingWalks(stack, visit) <==> WaitingWalks(rest, visit) && Walks(top.0, top.1, visit))
      && NodesWaiting(stack) == NodesWaiting(rest) + Nodes(top.0)
  {
    var top, rest := stack[|stack| - 1], stack[..|stack| - 1];
    assert stack == rest + [top];
    WaitingWalksPush(rest, top, visit);
  }

  /**
   `walk_json_tree`: an explicit stack of (node, depth) pairs; the answer is
   false where the source raises. Object members are pushed in key order here;
   the verdict does not depend on that order.
   */
  method WalkTree(root: Json, visit: Json -> bool) returns (ok: bool)
    ensures ok <==> Walks(root, 0, visit)
  {
    var stack: seq<(Json, nat)> := [(root, 0)];
    assert stack == [] + [(root, 0)];
    WaitingWalksPush([], (root, 0), visit);
    while stack != []
      invariant Walks(root, 0, visit) <==> WaitingWalks(stack, visit)
      decreases NodesWaiting(stack)
    {
      var (node, depth) := stack[|stack| - 1];
      StackPop(stack, visit);
      stack := stack[..|stack| - 1];
      if depth > MAX_WALK_DEPTH || !visit(node) {
        return false;
      }
      if node.Obj? {
        stack := PushMembers(stack, node, depth + 1, visit);
      } else if node.Arr? {
        stack := PushItems(stack, node, depth + 1, visit);
      }
    }
    ok := true;
  }

  method PushMembers(rest: seq<(Json, nat)>, node: Json, depth: nat, ghost visit: Json -> bool)
    returns (stack: seq<(Json, nat)>)
    requires node.Obj?
    ensures NodesWaiting(stack) == NodesWaiting(rest) + Nodes(node) - 1
    ensures WaitingWalks(stack, visit) <==>
      WaitingWalks(rest, visit) && forall k :: k in node.members ==> Walks(node.members[k], depth, visit)
  {
    var keys := Sorted(node.members.Keys);
    stack := PushKeys(rest, node, keys, depth, visit);
    KeysCover(node.members, keys, depth, visit);
    NodesOfObject(node, keys);
  }

  lemma NodesOfObject(v: Json, keys: seq<Text>)
    requires v.Obj? && keys == Sorted(v.members.Keys)
    ensures Nodes(v) == 1 + NodesAt(keys, v.members, v)
  {}

  method PushKeys(rest: seq<(Json, nat)>, node: Json, keys: seq<Text>, depth: nat, ghost visit: Json -> bool)
    returns (stack: seq<(Json, nat)>)
    requires node.Obj? && forall k :: k in keys ==> k in node.members
    ensures NodesWaiting(stack) == NodesWaiting(rest) + NodesAt(keys, node.members, node)
    ensures WaitingWalks(stack, visit) <==> WaitingWalks(rest, visit) && MembersWalk(node.members, keys, depth, visit)
  {
    stack := rest;
    for i := 0 to |keys|
      invariant NodesWaiting(stack) == NodesWaiting(rest) + NodesAt(keys[..i], node.members, node)
      invariant WaitingWalks(stack, visit) <==>
        WaitingWalks(rest, visit) && MembersWalk(node.members, keys[..i], depth, visit)
    {
      var e := (node.members[keys[i]], depth);
      NodesWaitingPush(stack, e);
      WaitingWalksPush(stack, e, visit);
      TakeStep(keys, i);
      MembersWalkPush(node.members, keys[..i], keys[i], depth, visit);
      stack := stack + [e];
    }
    TakeAll(keys);
  }

  method PushItems(rest: seq<(Json, nat)>, node: Json, depth: nat, ghost visit: Json -> bool)
    returns (stack: seq<(Json, nat)>)
    requires node.Arr?
    ensures NodesWaiting(stack) == NodesWaiting(rest) + Nodes(node) - 1
    ensures WaitingWalks(stack, visit) <==>
      WaitingWalks(rest, visit) &&
      forall i :: 0 <= i < |node.items| ==> Walks(node.items[i], depth, visit)
  {
    stack := rest;
    for i := 0 to |node.items|
      invariant NodesWaiting(stack) == NodesWaiting(rest) + NodesOf(node.items[..i], node)
      invariant WaitingWalks(stack, visit) <==>
        WaitingWalks(rest, visit) && forall j :: 0 <= j < i ==> Walks(node.items[j], depth, visit)
    {
      var e := (node.items[i], depth);
      NodesWaitingPush(stack, e);
      WaitingWalksPush(stack, e, visit);
      TakeStep(node.items, i);
      stack := stack + [e];
    }
    TakeAll(node.items);
  }

  ghost predicate MembersWalk(m: map<Text, Json>, keys: seq<Text>, depth: nat, visit: Json -> bool)
    requires forall k :: k in keys ==> k in m
  {
    forall j :: 0 <= j < |keys| ==> Walks(m[keys[j]], depth, visit)
  }

  lemma MembersWalkPush(m: map<Text, Json>, keys: seq<Text>, k: Text, depth: nat, visit: Json -> bool)
    requires k in m && forall k :: k in keys ==> k in m
    ensures MembersWalk(m, keys + [k], depth, visit) <==>
            MembersWalk(m, keys, depth, visit) && Walks(m[k], depth, visit)
  {
    var more := keys + [k];
    if MembersWalk(m, more, depth, visit) {
      assert more[|keys|] == k;
      forall j | 0 <= j < |keys| ensures Walks(m[keys[j]], depth, visit) { assert more[j] == keys[j]; }
    }
  }

  lemma KeysCover(m: map<Text, Json>, keys: seq<Text>, depth: nat, visit: Json -> bool)
    requires keys == Sorted(m.Keys)
    ensures MembersWalk(m, keys, depth, visit) <==> (forall k :: k in m ==> Walks(m[k], depth, visit))
  {
    if MembersWalk(m, keys, depth, visit) {
      forall k | k in m ensures Walks(m[k], depth, visit) {
        assert k in keys;
        var j :| 0 <= j < |keys| && keys[j] == k;
      }
    }
  }

  // ---------------------------------------------------------------------
  // The two node checks that use the walk
  // ---------------------------------------------------------------------

  predicate IsSurrogate(c: Code) { 0xD800 <= c <= 0xDFFF }

  /** No unpaired surrogate; in Python text every surrogate code point is unpaired. */
  predicate IsClean(t: Text)
  {
    forall i :: 0 <= i < |t| ==> !IsSurrogate(t[i])
  }

  /** The node check of `_assert_json_data_model`. */
  predicate ModelNode(v: Json)
  {
    match v
    case Int(n) => (if n < 0 then -n else n) < Pow10(MAX_INT_DIGITS)
    case Dec(d) => (if Adjusted(d) < 0 then -Adjusted(d) else Adjusted(d)) < MAX_DECIMAL_SCALE
    case Alien => false
    case _ => true
  }

  /** The node check of `_check_value`. */
  predicate CleanNode(v: Json)
  {
    match v
    case Str(s) => IsClean(s)
    case Obj(m) => forall k :: k in m ==> IsClean(k)
    case _ => true
  }

  ghost predicate InModel(v: Json) { Walks(v, 0, ModelNode) }

  ghost predicate HasCleanText(v: Json) { Walks(v, 0, CleanNode) }

  /** The values `canonical_bytes` accepts. */
  ghost predicate Acceptable(v: Json) { InModel(v) && HasCleanText(v) }

  // ---------------------------------------------------------------------
  // Equality
  // ---------------------------------------------------------------------

  predicate IsNumber(v: Json) { v.Int? || v.Dec? || v.Flt? }

  /** `_as_decimal` */
  function AsDecimal(v: Json): Decimal
    requires IsNumber(v)
  {
    match v
    case Int(n) => OfInt(n)
    case Dec(d) => d
    case Flt(f) => f
  }

  /** `_json_equal` */
  predicate JsonEqual(a: Json, b: Json)
    decreases a
  {
    if a.Bool? || b.Bool? then a.Bool? && b.Bool? && a.b == b.b
    else if IsNumber(a) && IsNumber(b) then DecimalEqual(AsDecimal(a), AsDecimal(b))
    else if a.Str? && b.Str? then a.s == b.s
    else if a.Null? || b.Null? then a.Null? && b.Null?
    else if a.Arr? && b.Arr? then
      |a.items| == |b.items| &&
      forall i :: 0 <= i < |a.items| ==> JsonEqual(a.items[i], b.items[i])
    else if a.Obj? && b.Obj? then
      a.members.Keys == b.members.Keys &&
      forall k :: k in a.members && k in b.members ==> JsonEqual(a.members[k], b.members[k])
    else false
  }

  function NormalNumber(d: Decimal): Json
  {
    match Normal(d)
    case Whole(n) => Int(n)
    case Fraction(r) => Dec(r)
  }

  /** The value with every number in normal form: what canonical text reads back as. */
  function Normalize(v: Json): Json
    decreases v
  {
    match v
    case Int(n) => NormalNumber(OfInt(n))
    case Dec(d) => NormalNumber(d)
    case Flt(f) => NormalNumber(f)
    case Arr(items) => Arr(seq(|items|, i requires 0 <= i < |items| => Normalize(items[i])))
    case Obj(m) => Obj(map k | k in m :: Normalize(m[k]))
    case _ => v
  }

  /** `_json_equal` is equality of normal forms, on everything in the data model. */
  lemma {:induction false} EqualIffSameNormal(a: Json, b: Json, d: nat, e: nat)
    requires Walks(a, d, ModelNode) && Walks(b, e, ModelNode)
    ensures JsonEqual(a, b) <==> Normalize(a) == Normalize(b)
    decreases a
  {
    if IsNumber(a) && IsNumber(b) {
      NormalDecidesEquality(AsDecimal(a), AsDecimal(b));
    } else if a.Arr? && b.Arr? {
      ArraysEqualIff(a, b, d, e);
    } else if a.Obj? && b.Obj? {
      ObjectsEqualIff(a, b, d, e);
    }
  }

  lemma {:induction false} ArraysEqualIff(a: Json, b: Json, d: nat, e: nat)
    requires a.Arr? && b.Arr? && Walks(a, d, ModelNode) && Walks(b, e, ModelNode)
    ensures JsonEqual(a, b) <==> Normalize(a) == Normalize(b)
    decreases a, 0
  {
    var na, nb := Normalize(a).items, Normalize(b).items;
    if |a.items| == |b.items| {
      forall i | 0 <= i < |a.items|
        ensures JsonEqual(a.items[i], b.items[i]) <==> na[i] == nb[i]
      {
        EqualIffSameNormal(a.items[i], b.items[i], d + 1, e + 1);
      }
    }
  }

  lemma {:induction false} ObjectsEqualIff(a: Json, b: Json, d: nat, e: nat)
    requires a.Obj? && b.Obj? && Walks(a, d, ModelNode) && Walks(b, e, ModelNode)
    ensures JsonEqual(a, b) <==> Normalize(a) == Normalize(b)
    decreases a, 0
  {
    var na, nb := Normalize(a).members, Normalize(b).members;
    assert na.Keys == a.members.Keys && nb.Keys == b.members.Keys;
    forall k | k in a.members && k in b.members
      ensures JsonEqual(a.members[k], b.members[k]) <==> na[k] == nb[k]
    {
      EqualIffSameNormal(a.members[k], b.members[k], d + 1, e + 1);
    }
  }

  /** `_json_equal` is an equivalence relation on the data model. */
  lemma EqualIsEquivalence(a: Json, b: Json, c: Json)
    requires InModel(a) && InModel(b) && InModel(c)
    ensures JsonEqual(a, a)
    ensures JsonEqual(a, b) ==> JsonEqual(b, a)
    ensures JsonEqual(a, b) && JsonEqual(b, c) ==> JsonEqual(a, c)
  {
    EqualIffSameNormal(a, a, 0, 0);
    EqualIffSameNormal(a, b, 0, 0);
    EqualIffSameNormal(b, a, 0, 0);
    EqualIffSameNormal(b, c, 0, 0);
    EqualIffSameNormal(a, c, 0, 0);
  }
}
