/**
 The canonical serializer: the text of a value as a recursive printer, the
 explicit marker-stack loop of the source proved to print exactly that, and the
 public entry with its input checks.
 */
module Canonical {
  import opened Texts
  import opened Numbers
  import opened Grammar
  import J = Json

  datatype CanonicalError = OutsideModel | NotEncodable
  datatype Result = Ok(text: Text) | Err(error: CanonicalError)

  // ---------------------------------------------------------------------
  // Strings
  // ---------------------------------------------------------------------

  function HexChar(d: int): Code
    requires 0 <= d < 16
  {
    if d < 10 then 0x30 + d else 0x57 + d
  }

  /** How `json.dumps(..., ensure_ascii=False)` writes one character. */
  function PartOf(c: Code): Part
  {
    if c == QUOTE then Short(QUOTE)
    else if c == BACKSLASH then Short(BACKSLASH)
    else if c == 0x0A then Short(0x6E)
    else if c == 0x0D then Short(0x72)
    else if c == 0x09 then Short(0x74)
    else if c == 0x0C then Short(0x66)
    else if c == 0x08 then Short(0x62)
    else if c < 0x20 then Unit([ZERO, ZERO, HexChar(c / 16), HexChar(c % 16)])
    else Raw(c)
  }

  function PartsOf(t: Text): (ps: seq<Part>)
    ensures |ps| == |t|
  {
    if t == [] then [] else [PartOf(t[0])] + PartsOf(t[1..])
  }

  function DumpString(t: Text): Text { RenderString(PartsOf(t)) }

  // ---------------------------------------------------------------------
  // The printer
  // ---------------------------------------------------------------------

  const EMPTY_ARRAY: Text := [LBRACKET, RBRACKET]
  const EMPTY_OBJECT: Text := [LBRACE, RBRACE]

  /** The text of a value that is no container. */
  function ScalarText(v: J.Json): Text
  {
    match v
    case Bool(b) => if b then TRUE_TEXT else FALSE_TEXT
    case Int(n) => DumpInt(n)
    case Dec(d) => DumpDecimal(d)
    case Flt(f) => DumpDecimal(f)
    case Str(s) => DumpString(s)
    case _ => NULL_TEXT
  }

  /** The canonical text of a value. */
  function Dump(v: J.Json): Text
    decreases v, 1
  {
    match v
    case Arr(items) =>
      if items == [] then EMPTY_ARRAY else [LBRACKET] + (Dump(items[0]) + ItemsTail(items[1..]))
    case Obj(m) =>
      if m == map[] then EMPTY_OBJECT
      else
        var keys := KeysOf(m);
        [LBRACE] + (DumpString(keys[0]) + ([COLON] + (Dump(m[keys[0]]) + MembersTail(keys[1..], v))))
    case _ => ScalarText(v)
  }

  /** `sorted(item.items())`: the keys of a nonempty object in order. */
  function KeysOf(m: map<Text, J.Json>): (keys: seq<Text>)
    requires m != map[]
    ensures keys == Sorted(m.Keys) && keys != [] && forall k :: k in keys <==> k in m
  {
    var keys := Sorted(m.Keys);
    assert m.Keys != {};
    keys
  }

  /** The further items of an array, each after its comma, and the closing bracket. */
  function ItemsTail(items: seq<J.Json>): Text
    decreases items, 0
  {
    if items == [] then [RBRACKET] else [COMMA] + (Dump(items[0]) + ItemsTail(items[1..]))
  }

  /** The further members of an object in key order, and the closing brace. */
  function MembersTail(keys: seq<Text>, v: J.Json): Text
    requires v.Obj? && forall k :: k in keys ==> k in v.members
    decreases v, 0, |keys|
  {
    if keys == [] then [RBRACE]
    else
      [COMMA] + (DumpString(keys[0]) + ([COLON] + (Dump(v.members[keys[0]]) + MembersTail(keys[1..], v))))
  }

  // ---------------------------------------------------------------------
  // The serializer loop
  // ---------------------------------------------------------------------

  /** What waits on the stack: a value to print, or text to emit as it is. */
  datatype Item = Marker(text: MarkerText) | Value(v: J.Json)

  type MarkerText = t: Text | t != [] witness [COMMA]

  function ItemText(i: Item): Text { if i.Marker? then i.text else Dump(i.v) }

  /** What the stack still has to print, top first. */
  ghost function StackText(stack: seq<Item>): Text
  {
    if stack == [] then [] else ItemText(stack[|stack| - 1]) + StackText(stack[..|stack| - 1])
  }

  lemma StackPush(stack: seq<Item>, i: Item)
    ensures StackText(stack + [i]) == ItemText(i) + StackText(stack)
  {
    assert (stack + [i])[..|stack|] == stack;
  }

  lemma Associate(a: Text, b: Text, c: Text)
    ensures a + (b + c) == (a + b) + c
  {}

  lemma DumpNonempty(v: J.Json)
    ensures Dump(v) != []
  {
    match v {
      case Int(n) => PlainNonempty(OfInt(n));
      case Dec(d) => DumpDecimalNonempty(d);
      case Flt(f) => DumpDecimalNonempty(f);
      case _ =>
    }
  }

  lemma PlainNonempty(d: Decimal)
    ensures Plain(d) != []
  {}

  lemma DumpDecimalNonempty(d: Decimal)
    ensures DumpDecimal(d) != []
  {
    DumpNormal(d);
    match Normal(d)
    case Whole(n) => PlainNonempty(OfInt(n));
    case Fraction(r) => PlainNonempty(r);
  }

  /** Pushes the further items of an array in reverse, each under its comma, and the first item on top. */
  method PushItems(rest: seq<Item>, items: seq<J.Json>) returns (stack: seq<Item>)
    requires items != []
    ensures StackText(stack) == Dump(items[0]) + ItemsTail(items[1..]) + StackText(rest)
  {
    stack := rest + [Marker([RBRACKET])];
    StackPush(rest, Marker([RBRACKET]));
    var tail := items[1..];
    assert tail[|tail|..] == [];
    for i := |tail| downto 0
      invariant StackText(stack) == ItemsTail(tail[i..]) + StackText(rest)
    {
      StackPush(stack, Value(tail[i]));
      StackPush(stack + [Value(tail[i])], Marker([COMMA]));
      ItemsTailStep(tail, i, StackText(rest));
      stack := stack + [Value(tail[i])] + [Marker([COMMA])];
    }
    TakeFrom(tail);
    StackPush(stack, Value(items[0]));
    Associate(Dump(items[0]), ItemsTail(tail), StackText(rest));
    stack := stack + [Value(items[0])];
  }

  lemma ItemsTailStep(tail: seq<J.Json>, i: nat, after: Text)
    requires i < |tail|
    ensures ItemsTail(tail[i..]) + after == [COMMA] + (Dump(tail[i]) + (ItemsTail(tail[i + 1..]) + after))
  {
    assert tail[i..][0] == tail[i] && tail[i..][1..] == tail[i + 1..];
  }

  /** Pushes the further members of an object in reverse key order, each under its comma and key. */
  method PushMembersTail(rest: seq<Item>, v: J.Json, tail: seq<Text>) returns (stack: seq<Item>)
    requires v.Obj? && forall k :: k in tail ==> k in v.members
    ensures StackText(stack) == MembersTail(tail, v) + StackText(rest)
  {
    stack := rest + [Marker([RBRACE])];
    StackPush(rest, Marker([RBRACE]));
    assert tail[|tail|..] == [];
    for i := |tail| downto 0
      invariant StackText(stack) == MembersTail(tail[i..], v) + StackText(rest)
    {
      MembersTailStep(tail, v, i, StackText(rest));
      stack := PushMember(stack, [COMMA] + DumpString(tail[i]) + [COLON], v.members[tail[i]]);
    }
    TakeFrom(tail);
  }

  function KeyMarker(key: Text): (m: MarkerText)
  {
    DumpString(key) + [COLON]
  }

  /** Pushes all members of a nonempty object, the first one on top. */
  method PushMembers(rest: seq<Item>, v: J.Json) returns (stack: seq<Item>)
    requires v.Obj? && v.members != map[]
    ensures [LBRACE] + StackText(stack) == Dump(v) + StackText(rest)
  {
    var keys := KeysOf(v.members);
    stack := PushMembersTail(rest, v, keys[1..]);
    stack := PushMember(stack, KeyMarker(keys[0]), v.members[keys[0]]);
    ObjectText(v, keys, StackText(rest));
  }

  lemma TakeFrom<T>(s: seq<T>)
    ensures s[0..] == s
  {}

  /** A value and, above it, the text that introduces it. */
  method PushMember(rest: seq<Item>, prefix: MarkerText, child: J.Json) returns (stack: seq<Item>)
    ensures StackText(stack) == prefix + (Dump(child) + StackText(rest))
  {
    StackPush(rest, Value(child));
    StackPush(rest + [Value(child)], Marker(prefix));
    stack := rest + [Value(child)] + [Marker(prefix)];
  }

  lemma MembersTailStep(tail: seq<Text>, v: J.Json, i: nat, after: Text)
    requires v.Obj? && (forall k :: k in tail ==> k in v.members) && i < |tail|
    ensures MembersTail(tail[i..], v) + after ==
            ([COMMA] + DumpString(tail[i]) + [COLON]) + (Dump(v.members[tail[i]]) + (MembersTail(tail[i + 1..], v) + after))
  {
    assert tail[i..][0] == tail[i] && tail[i..][1..] == tail[i + 1..];
  }

  lemma ObjectText(v: J.Json, keys: seq<Text>, after: Text)
    requires v.Obj? && v.members != map[] && keys == KeysOf(v.members)
    ensures Dump(v) + after ==
      [LBRACE] + (KeyMarker(keys[0]) + (Dump(v.members[keys[0]]) + (MembersTail(keys[1..], v) + after)))
  {
    DumpObject(v, keys);
    Regroup([LBRACE], DumpString(keys[0]), [COLON], Dump(v.members[keys[0]]), MembersTail(keys[1..], v), after);
  }

  lemma DumpObject(v: J.Json, keys: seq<Text>)
    requires v.Obj? && v.members != map[] && keys == KeysOf(v.members)
    ensures Dump(v) ==
      [LBRACE] + (DumpString(keys[0]) + ([COLON] + (Dump(v.members[keys[0]]) + MembersTail(keys[1..], v))))
  {}

  lemma Regroup(a: Text, b: Text, c: Text, d: Text, e: Text, f: Text)
    ensures a + (b + (c + (d + e))) + f == a + ((b + c) + (d + (e + f)))
  {}

  lemma ArrayText(v: J.Json, after: Text)
    requires v.Arr? && v.items != []
    ensures Dump(v) + after == [LBRACKET] + (Dump(v.items[0]) + ItemsTail(v.items[1..]) + after)
  {}

  /** Emits a value, or opens it: its bracket is emitted and its parts are pushed. */
  method OpenValue(out: Text, rest: seq<Item>, v: J.Json) returns (more: Text, stack: seq<Item>)
    ensures more + StackText(stack) == out + (Dump(v) + StackText(rest))
    ensures |more| > |out|
  {
    DumpNonempty(v);
    stack := rest;
    Associate(out, Dump(v), StackText(rest));
    if v.Arr? {
      if v.items == [] {
        more := out + EMPTY_ARRAY;
      } else {
        ArrayText(v, StackText(rest));
        stack := PushItems(rest, v.items);
        Associate(out, [LBRACKET], StackText(stack));
        more := out + [LBRACKET];
      }
    } else if v.Obj? {
      if v.members == map[] {
        more := out + EMPTY_OBJECT;
      } else {
        stack := PushMembers(rest, v);
        Associate(out, [LBRACE], StackText(stack));
        more := out + [LBRACE];
      }
    } else {
      more := out + ScalarText(v);
    }
  }

  /** `_dump`: pop an item, emit it or open it; the stack holds what is still to come. */
  method DumpLoop(value: J.Json) returns (out: Text)
    ensures out == Dump(value)
  {
    out := [];
    var stack := [Value(value)];
    assert stack == [] + [Value(value)];
    StackPush([], Value(value));
    while stack != []
      invariant out + StackText(stack) == Dump(value)
      decreases |Dump(value)| - |out|
    {
      var item := stack[|stack| - 1];
      assert StackText(stack) == ItemText(item) + StackText(stack[..|stack| - 1]);
      stack := stack[..|stack| - 1];
      if item.Marker? {
        Associate(out, item.text, StackText(stack));
        out := out + item.text;
      } else {
        out, stack := OpenValue(out, stack, item.v);
      }
    }
  }

  // ---------------------------------------------------------------------
  // The public entry
  // ---------------------------------------------------------------------

  /** `canonical_bytes`, as text: the model check, the printer, the UTF-8 encodability check. */
  ghost function CanonicalText(v: J.Json): Result
  {
    if !J.InModel(v) then Err(OutsideModel)
    else if !J.IsClean(Dump(v)) then Err(NotEncodable)
    else Ok(Dump(v))
  }

  method CanonicalBytes(v: J.Json) returns (r: Result)
    ensures r == CanonicalText(v)
  {
    var inModel := J.WalkTree(v, J.ModelNode);
    if !inModel { return Err(OutsideModel); }
    var text := DumpLoop(v);
    if !J.IsClean(text) { return Err(NotEncodable); }
    return Ok(text);
  }
}
