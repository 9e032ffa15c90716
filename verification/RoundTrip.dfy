/**
 Parser and serializer undo each other: canonical text is the text of a strict
 document that means the value in normal form. Hence loading what was dumped
 gives an equal value with the same canonical text, and canonical texts are
 equal exactly when the values are.
 */
module RoundTrip {
  import opened Texts
  import opened Numbers
  import opened Grammar
  import opened Canonical
  import J = Json
  import S = StrictJson
  import P = ParserTheorems

  // ---------------------------------------------------------------------
  // Numbers
  // ---------------------------------------------------------------------

  function IntNumeral(n: int): Numeral
  {
    Numeral(n < 0, Digits(OfInt(n).coeff), [], None)
  }

  function FractionNumeral(r: Decimal): Numeral
    requires r.exp < 0
  {
    var k := -r.exp;
    var ds := Padded(r.coeff, k);
    Numeral(r.neg, ds[..|ds| - k], ds[|ds| - k..], None)
  }

  /** The numeral a number is printed as. */
  function PrintedNumeral(d: Decimal): Numeral
  {
    DumpNormal(d);
    match Normal(d)
    case Whole(n) => IntNumeral(n)
    case Fraction(r) => FractionNumeral(r)
  }

  lemma IntNumeralPrints(n: int)
    ensures NumeralFormed(IntNumeral(n)) && RenderNumeral(IntNumeral(n)) == DumpInt(n)
    ensures NumeralMeaning(IntNumeral(n)) == J.Int(n)
  {
    ValDigits(OfInt(n).coeff);
    var ds := Digits(OfInt(n).coeff);
    assert ds + Zeros(0) == ds;
    if ds[0] == ZERO { assert ds == [ZERO]; }
  }

  lemma PaddedValue(coeff: nat, k: nat)
    ensures Val(Padded(coeff, k)) == coeff
    ensures |Padded(coeff, k)| > k + 1 ==> Padded(coeff, k)[0] != ZERO || coeff == 0
  {
    var ds := Digits(coeff);
    ValDigits(coeff);
    if |ds| <= k { ValLeadingZeros(k + 1 - |ds|, ds); }
  }

  lemma FractionNumeralForm(r: Decimal)
    requires r.exp < 0 && r.coeff > 0
    ensures NumeralFormed(FractionNumeral(r)) && RenderNumeral(FractionNumeral(r)) == Plain(r)
  {
    FractionNumeralParts(r, -r.exp, Padded(r.coeff, -r.exp), FractionNumeral(r));
    FractionRenders(FractionNumeral(r));
  }

  lemma FractionNumeralParts(r: Decimal, k: int, ds: Text, n: Numeral)
    requires r.exp < 0 && r.coeff > 0 && k == -r.exp && ds == Padded(r.coeff, k) && n == FractionNumeral(r)
    ensures NumeralFormed(n) && n.frac != [] && n.expo.None? && n.neg == r.neg
    ensures n.whole == ds[..|ds| - k] && n.frac == ds[|ds| - k..]
  {
    PaddedValue(r.coeff, k);
    SplitDigits(ds, k);
    if n.whole[0] == ZERO { assert |ds| == k + 1; }
  }

  lemma FractionRenders(n: Numeral)
    requires n.frac != [] && n.expo.None?
    ensures RenderNumeral(n) == Sign(n.neg) + (n.whole + [DOT] + n.frac)
  {
    Concat4(Sign(n.neg), n.whole, [DOT], n.frac);
  }

  lemma SplitDigits(ds: Text, k: int)
    requires AllDigits(ds) && 0 < k < |ds|
    ensures AllDigits(ds[..|ds| - k]) && AllDigits(ds[|ds| - k..])
    ensures ds[..|ds| - k] != [] && ds[..|ds| - k][0] == ds[0] && ds[|ds| - k..] != []
  {}

  lemma Concat4(a: Text, b: Text, c: Text, d: Text)
    ensures a + b + (c + d) + [] == a + (b + c + d)
  {}

  lemma FractionNumeralPrints(r: Decimal)
    requires r.exp < 0 && r.coeff > 0
    ensures NumeralFormed(FractionNumeral(r)) && RenderNumeral(FractionNumeral(r)) == Plain(r)
    ensures NumeralMeaning(FractionNumeral(r)) == J.Dec(r) && !IsIntegral(FractionNumeral(r))
    ensures NumeralDecimal(FractionNumeral(r)) == r
  {
    FractionNumeralForm(r);
    FractionNumeralValue(r);
  }

  lemma FractionNumeralValue(r: Decimal)
    requires r.exp < 0 && r.coeff > 0 && NumeralFormed(FractionNumeral(r))
    ensures NumeralDecimal(FractionNumeral(r)) == r
  {
    var k, n, ds := -r.exp, FractionNumeral(r), Padded(r.coeff, -r.exp);
    PaddedValue(r.coeff, k);
    FractionNumeralParts(r, k, ds, n);
    SplitJoins(ds, |ds| - k);
  }

  lemma SplitJoins(ds: Text, i: nat)
    requires i <= |ds|
    ensures ds[..i] + ds[i..] == ds
  {}

  /** Printing a number and reading its numeral gives its normal form. */
  lemma NumeralPrints(d: Decimal)
    ensures NumeralFormed(PrintedNumeral(d)) && RenderNumeral(PrintedNumeral(d)) == DumpDecimal(d)
    ensures NumeralMeaning(PrintedNumeral(d)) == J.NormalNumber(d)
  {
    DumpNormal(d);
    match Normal(d)
    case Whole(n) => IntNumeralPrints(n);
    case Fraction(r) => FractionNumeralPrints(r);
  }

  /** The numeric limits are closed under printing. */
  lemma NumeralStrict(d: Decimal)
    requires -4300 < Adjusted(d) < 4300
    ensures NumeralFormed(PrintedNumeral(d)) && StrictNumeral(PrintedNumeral(d))
  {
    DumpNormal(d);
    NumeralPrints(d);
    match Normal(d)
    case Whole(n) =>
    case Fraction(r) =>
      FractionNumeralPrints(r);
  }

  /** An integer is its own normal form. */
  lemma NormalOfInt(n: int)
    ensures Normal(OfInt(n)) == Whole(n) && DumpDecimal(OfInt(n)) == DumpInt(n)
  {
    var d := OfInt(n);
    DumpNormal(d);
    if n != 0 {
      StripValue(d);
      assert Strip(d).exp - d.exp == Strip(d).exp;
    }
  }

  lemma NumberText(v: J.Json)
    requires J.IsNumber(v)
    ensures ScalarText(v) == DumpDecimal(J.AsDecimal(v)) && J.Normalize(v) == J.NormalNumber(J.AsDecimal(v))
  {
    if v.Int? { NormalOfInt(v.n); }
  }

  lemma NumberInRange(v: J.Json)
    requires J.IsNumber(v) && J.ModelNode(v)
    ensures -4300 < Adjusted(J.AsDecimal(v)) < 4300
  {
    if v.Int? { DigitCount(OfInt(v.n).coeff, J.MAX_INT_DIGITS); }
  }

  // ---------------------------------------------------------------------
  // Strings
  // ---------------------------------------------------------------------

  lemma PartOfPrints(c: Code)
    ensures PartFormed(PartOf(c)) && PartMeaning(PartOf(c)) == c
  {
    if c < 0x20 {
      var h, l := c / 16, c % 16;
      assert HexDigitValue(HexChar(l)) == l && HexDigitValue(HexChar(h)) == h;
    }
  }

  lemma {:induction false} PartsOfPrint(t: Text)
    ensures PartsFormed(PartsOf(t)) && PartsMeaning(PartsOf(t)) == t
    ensures J.IsClean(t) ==> StrictParts(PartsOf(t))
  {
    if t != [] {
      PartOfPrints(t[0]);
      PartsOfPrint(t[1..]);
      P.PartsMeaningStep([], PartsOf(t), PartOf(t[0]), PartsOf(t[1..]));
      var ps, rest := PartsOf(t), PartsOf(t[1..]);
      assert [] + [PartMeaning(ps[0])] + PartsMeaning(rest) == t;
      assert [] + PartsMeaning(ps) == PartsMeaning(ps);
    }
  }

  // ---------------------------------------------------------------------
  // The syntax a value is printed as
  // ---------------------------------------------------------------------

  function Printed(v: J.Json): Syntax
    decreases v, 1
  {
    match v
    case Bool(b) => if b then TrueLit else FalseLit
    case Int(n) => NumLit(PrintedNumeral(OfInt(n)))
    case Dec(d) => NumLit(PrintedNumeral(d))
    case Flt(f) => NumLit(PrintedNumeral(f))
    case Str(s) => StrLit(PartsOf(s))
    case Arr(items) => ArrLit([], PrintedItems(items))
    case Obj(m) => ObjLit([], PrintedMembers(Sorted(m.Keys), v))
    case _ => NullLit
  }

  function PrintedItems(items: seq<J.Json>): (es: seq<Elem>)
    ensures |es| == |items|
    decreases items, 0
  {
    if items == [] then [] else [Elem([], Printed(items[0]), [])] + PrintedItems(items[1..])
  }

  function PrintedMembers(keys: seq<Text>, v: J.Json): (es: seq<Entry>)
    requires v.Obj? && forall k :: k in keys ==> k in v.members
    ensures |es| == |keys|
    decreases v, 0, |keys|
  {
    if keys == [] then []
    else
      [Entry([], PartsOf(keys[0]), [], [], Printed(v.members[keys[0]]), [])] + PrintedMembers(keys[1..], v)
  }

  /** The printed syntax has the canonical text. */
  lemma {:induction false} PrintedText(v: J.Json)
    ensures Render(Printed(v)) == Dump(v)
    decreases v, 1
  {
    if J.IsNumber(v) {
      NumberText(v);
      NumeralPrints(J.AsDecimal(v));
    } else if v.Arr? && v.items != [] {
      PrintedItemsText(v.items);
    } else if v.Obj? && v.members != map[] {
      PrintedMembersText(KeysOf(v.members), v);
    } else if v.Obj? {
      assert Sorted(v.members.Keys) == [];
    }
  }

  lemma {:induction false} PrintedItemsText(items: seq<J.Json>)
    requires items != []
    ensures RenderElems(PrintedItems(items)) == Dump(items[0]) + ItemsTail(items[1..])
    decreases items, 0
  {
    PrintedText(items[0]);
    var es, rest := PrintedItems(items), items[1..];
    assert es[0] == Elem([], Printed(items[0]), []) && es[1..] == PrintedItems(rest);
    EmptySides(Dump(items[0]), ItemsTail(rest));
    if rest != [] { PrintedItemsText(rest); }
  }

  lemma EmptySides(a: Text, b: Text)
    ensures [] + (a + ([] + b)) == a + b
  {}

  lemma EmptySpaces(k: Text, c: Text, a: Text, b: Text)
    ensures [] + (k + ([] + (c + ([] + (a + ([] + b)))))) == k + (c + (a + b))
  {}

  lemma {:induction false} PrintedMembersText(keys: seq<Text>, v: J.Json)
    requires v.Obj? && (forall k :: k in keys ==> k in v.members) && keys != []
    ensures RenderEntries(PrintedMembers(keys, v)) ==
            DumpString(keys[0]) + ([COLON] + (Dump(v.members[keys[0]]) + MembersTail(keys[1..], v)))
    decreases v, 0, |keys|
  {
    PrintedText(v.members[keys[0]]);
    var es, rest := PrintedMembers(keys, v), keys[1..];
    assert es[0] == Entry([], PartsOf(keys[0]), [], [], Printed(v.members[keys[0]]), []);
    assert es[1..] == PrintedMembers(rest, v);
    EmptySpaces(DumpString(keys[0]), [COLON], Dump(v.members[keys[0]]), MembersTail(rest, v));
    if rest != [] { PrintedMembersText(rest, v); }
  }

  /** The printed syntax is strict and means the value in normal form. */
  lemma {:induction false} PrintedStrict(v: J.Json, depth: nat)
    requires J.Walks(v, depth, J.ModelNode) && J.Walks(v, depth, J.CleanNode)
    ensures Strict(Printed(v), depth) && Meaning(Printed(v)) == J.Normalize(v)
    decreases v, 1, 1
  {
    if J.IsNumber(v) {
      PrintedNumberStrict(v, depth);
    } else if v.Str? {
      PartsOfPrint(v.s);
    } else if v.Arr? {
      PrintedArrayStrict(v, depth);
    } else if v.Obj? {
      PrintedObjectStrict(v, depth);
    }
  }

  lemma PrintedNumberStrict(v: J.Json, depth: nat)
    requires J.IsNumber(v) && J.ModelNode(v) && depth <= J.MAX_WALK_DEPTH
    ensures Strict(Printed(v), depth) && Meaning(Printed(v)) == J.Normalize(v)
  {
    NumberText(v);
    NumberInRange(v);
    NumeralPrints(J.AsDecimal(v));
    NumeralStrict(J.AsDecimal(v));
    assert Printed(v) == NumLit(PrintedNumeral(J.AsDecimal(v)));
  }

  lemma {:induction false} PrintedArrayStrict(v: J.Json, depth: nat)
    requires v.Arr? && J.Walks(v, depth, J.ModelNode) && J.Walks(v, depth, J.CleanNode)
    ensures Strict(Printed(v), depth) && Meaning(Printed(v)) == J.Normalize(v)
    decreases v, 1, 0
  {
    PrintedItemsStrict(v.items, depth + 1);
    assert ElemsMeaning(PrintedItems(v.items)) == J.Normalize(v).items;
  }

  lemma {:induction false} PrintedObjectStrict(v: J.Json, depth: nat)
    requires v.Obj? && J.Walks(v, depth, J.ModelNode) && J.Walks(v, depth, J.CleanNode)
    ensures Strict(Printed(v), depth) && Meaning(Printed(v)) == J.Normalize(v)
    decreases v, 1, 0
  {
    var keys := Sorted(v.members.Keys);
    var es := PrintedMembers(keys, v);
    assert SoundKeys(keys, v, depth + 1) by { WalkedKeys(v, depth); SoundKeysOf(keys, v, depth + 1); }
    PrintedMembersStrict(keys, v, depth + 1);
    NormalMapUnique(EntriesMeaning(es), keys, v);
    P.StrictObject([], es, depth);
  }

  lemma WalkedKeys(v: J.Json, depth: nat)
    requires v.Obj? && J.Walks(v, depth, J.ModelNode) && J.Walks(v, depth, J.CleanNode)
    ensures forall k :: k in v.members ==>
      J.IsClean(k) && J.Walks(v.members[k], depth + 1, J.ModelNode) && J.Walks(v.members[k], depth + 1, J.CleanNode)
  {}

  lemma NormalMapUnique(m: map<Text, J.Json>, keys: seq<Text>, v: J.Json)
    requires v.Obj? && IsNormalMap(m, keys, v) && forall k :: k in keys <==> k in v.members
    ensures m == J.Normalize(v).members
  {}

  /** Distinct clean keys of v whose members pass both walks. */
  ghost predicate SoundKeys(keys: seq<Text>, v: J.Json, depth: nat)
    requires v.Obj?
  {
    keys == [] ||
    (keys[0] in v.members && keys[0] !in keys[1..] && J.IsClean(keys[0]) &&
     J.Walks(v.members[keys[0]], depth, J.ModelNode) && J.Walks(v.members[keys[0]], depth, J.CleanNode) &&
     SoundKeys(keys[1..], v, depth))
  }

  lemma {:induction false} SoundKeysOf(keys: seq<Text>, v: J.Json, depth: nat)
    requires v.Obj? && (forall k :: k in keys ==> k in v.members && J.IsClean(k))
    requires forall i, j :: 0 <= i < j < |keys| ==> keys[i] != keys[j]
    requires forall k :: k in v.members ==>
      J.Walks(v.members[k], depth, J.ModelNode) && J.Walks(v.members[k], depth, J.CleanNode)
    ensures SoundKeys(keys, v, depth)
  {
    if keys != [] {
      assert keys[0] in keys;
      SoundKeysOf(keys[1..], v, depth);
    }
  }

  lemma {:induction false} PrintedItemsStrict(items: seq<J.Json>, depth: nat)
    requires forall i :: 0 <= i < |items| ==>
      J.Walks(items[i], depth, J.ModelNode) && J.Walks(items[i], depth, J.CleanNode)
    ensures ElemsFormed(PrintedItems(items)) && ElemsStrict(PrintedItems(items), depth)
    ensures forall i :: 0 <= i < |items| ==> ElemsMeaning(PrintedItems(items))[i] == J.Normalize(items[i])
    decreases items, 0
  {
    if items != [] {
      var es, rest := PrintedItems(items), items[1..];
      assert es[0] == Elem([], Printed(items[0]), []) && es[1..] == PrintedItems(rest);
      PrintedStrict(items[0], depth);
      PrintedItemsStrict(rest, depth);
      forall i | 0 <= i < |items| ensures ElemsMeaning(es)[i] == J.Normalize(items[i]) {
        if i > 0 { assert ElemsMeaning(es)[i] == ElemsMeaning(es[1..])[i - 1] == J.Normalize(rest[i - 1]); }
      }
    }
  }

  /** m maps exactly the given keys to the normal forms of v's members. */
  ghost predicate IsNormalMap(m: map<Text, J.Json>, keys: seq<Text>, v: J.Json)
    requires v.Obj?
  {
    && (forall k :: k in m <==> k in keys)
    && (forall k :: k in keys && k in v.members ==> m[k] == J.Normalize(v.members[k]))
  }

  lemma NormalMapStep(rest: map<Text, J.Json>, key: Text, keys: seq<Text>, v: J.Json, m: map<Text, J.Json>)
    requires v.Obj? && IsNormalMap(rest, keys, v) && key in v.members && key !in keys
    requires m == map[key := J.Normalize(v.members[key])] + rest
    ensures IsNormalMap(m, [key] + keys, v)
  {}

  lemma {:induction false} PrintedMembersStrict(keys: seq<Text>, v: J.Json, depth: nat)
    requires v.Obj? && (forall k :: k in keys ==> k in v.members) && SoundKeys(keys, v, depth)
    ensures EntriesFormed(PrintedMembers(keys, v)) && EntriesStrict(PrintedMembers(keys, v), depth)
    ensures DistinctKeys(PrintedMembers(keys, v)) && IsNormalMap(EntriesMeaning(PrintedMembers(keys, v)), keys, v)
    decreases v, 0, |keys|
  {
    if keys != [] {
      var key, rest := keys[0], keys[1..];
      SoundHead(keys, v, depth);
      PrintedMembersStrict(rest, v, depth);
      PrintedStrict(v.members[key], depth);
      PrintedMembersHead(keys, v);
      PrintedMemberStep(PrintedMembers(keys, v), key, rest, v, depth);
    }
  }

  lemma SoundHead(keys: seq<Text>, v: J.Json, depth: nat)
    requires v.Obj? && keys != [] && SoundKeys(keys, v, depth)
    ensures keys[0] in v.members && keys[0] !in keys[1..] && J.IsClean(keys[0]) && SoundKeys(keys[1..], v, depth)
    ensures J.Walks(v.members[keys[0]], depth, J.ModelNode) && J.Walks(v.members[keys[0]], depth, J.CleanNode)
  {}

  lemma PrintedMembersHead(keys: seq<Text>, v: J.Json)
    requires v.Obj? && keys != [] && forall k :: k in keys ==> k in v.members
    ensures PrintedMembers(keys, v) ==
      [Entry([], PartsOf(keys[0]), [], [], Printed(v.members[keys[0]]), [])] + PrintedMembers(keys[1..], v)
    ensures keys == [keys[0]] + keys[1..]
  {}

  lemma PrintedMemberStep(es: seq<Entry>, key: Text, rest: seq<Text>, v: J.Json, depth: nat)
    requires v.Obj? && key in v.members && (forall k :: k in rest ==> k in v.members) && J.IsClean(key) && key !in rest
    requires es == [Entry([], PartsOf(key), [], [], Printed(v.members[key]), [])] + PrintedMembers(rest, v)
    requires Strict(Printed(v.members[key]), depth) && Meaning(Printed(v.members[key])) == J.Normalize(v.members[key])
    requires EntriesFormed(PrintedMembers(rest, v)) && EntriesStrict(PrintedMembers(rest, v), depth)
    requires DistinctKeys(PrintedMembers(rest, v)) && IsNormalMap(EntriesMeaning(PrintedMembers(rest, v)), rest, v)
    ensures EntriesFormed(es) && EntriesStrict(es, depth) && DistinctKeys(es)
    ensures IsNormalMap(EntriesMeaning(es), [key] + rest, v)
  {
    assert es[1..] == PrintedMembers(rest, v);
    PartsOfPrint(key);
    NormalMapStep(EntriesMeaning(es[1..]), key, rest, v, EntriesMeaning(es));
  }

  /** The canonical text, read as a value at any nesting depth, is the normal form. */
  lemma DumpReadsBack(v: J.Json)
    requires J.Acceptable(v)
    ensures S.ValueAt(Dump(v), 0, 0) == S.Ok((J.Normalize(v), |Dump(v)|))
  {
    PrintedText(v);
    PrintedStrict(v, 0);
    P.ValueComplete(Dump(v), 0, |Dump(v)|, Printed(v), 0);
  }

  // ---------------------------------------------------------------------
  // Normal forms
  // ---------------------------------------------------------------------

  /** Canonical text depends only on the normal form. */
  lemma {:induction false} DumpNormalize(v: J.Json)
    ensures Dump(J.Normalize(v)) == Dump(v)
    decreases v, 2, 0
  {
    if J.IsNumber(v) {
      NumberText(v);
      DumpNormalNumber(J.AsDecimal(v));
    } else if v.Arr? && v.items != [] {
      ArrayNormalize(v);
    } else if v.Obj? {
      ObjectNormalize(v);
    }
  }

  lemma {:induction false} ArrayNormalize(v: J.Json)
    requires v.Arr? && v.items != []
    ensures Dump(J.Normalize(v)) == Dump(v)
    decreases v, 1, 0
  {
    var n, rest := J.Normalize(v).items, v.items[1..];
    assert forall i :: 0 <= i < |n| ==> n[i] == J.Normalize(v.items[i]);
    forall i | 0 <= i < |rest| ensures n[1..][i] == J.Normalize(rest[i]) {
      assert rest[i] == v.items[i + 1] && n[1..][i] == n[i + 1];
    }
    DumpNormalize(v.items[0]);
    TailNormalize(rest, n[1..]);
  }

  lemma {:induction false} ObjectNormalize(v: J.Json)
    requires v.Obj?
    ensures Dump(J.Normalize(v)) == Dump(v)
    decreases v, 1, 0
  {
    var n := J.Normalize(v);
    assert n.members.Keys == v.members.Keys;
    if v.members != map[] {
      var keys := KeysOf(v.members);
      assert keys[0] in n.members;
      DumpNormalize(v.members[keys[0]]);
      MembersNormalize(keys[1..], v, n);
      SameObjectText(v, n, keys);
    }
  }

  /** Objects with the same keys whose members print alike print alike. */
  lemma SameObjectText(v: J.Json, n: J.Json, keys: seq<Text>)
    requires v.Obj? && n.Obj? && v.members != map[] && n.members.Keys == v.members.Keys && keys == KeysOf(v.members)
    requires keys[0] in n.members && Dump(n.members[keys[0]]) == Dump(v.members[keys[0]])
    requires (forall k :: k in keys[1..] ==> k in v.members && k in n.members)
    requires MembersTail(keys[1..], n) == MembersTail(keys[1..], v)
    ensures Dump(n) == Dump(v)
  {
    assert n.members != map[];
    DumpObject(v, keys);
    DumpObject(n, keys);
  }

  lemma DumpNormalNumber(d: Decimal)
    ensures Dump(J.NormalNumber(d)) == DumpDecimal(d)
  {
    DumpNormal(d);
    match Normal(d)
    case Whole(n) =>
    case Fraction(r) => FractionPlain(r);
  }

  lemma {:induction false} TailNormalize(items: seq<J.Json>, n: seq<J.Json>)
    requires |n| == |items| && forall i :: 0 <= i < |items| ==> n[i] == J.Normalize(items[i])
    ensures ItemsTail(n) == ItemsTail(items)
    decreases items, 0
  {
    if items != [] {
      DumpNormalize(items[0]);
      TailNormalize(items[1..], n[1..]);
    }
  }

  lemma {:induction false} MembersNormalize(keys: seq<Text>, v: J.Json, n: J.Json)
    requires v.Obj? && n == J.Normalize(v) && forall k :: k in keys ==> k in v.members
    ensures forall k :: k in keys ==> k in n.members
    ensures MembersTail(keys, n) == MembersTail(keys, v)
    decreases v, 0, |keys|
  {
    if keys != [] {
      assert keys[0] in v.members;
      DumpNormalize(v.members[keys[0]]);
      MembersNormalize(keys[1..], v, n);
    }
  }

  lemma {:induction false} NormalizeIdempotent(v: J.Json)
    ensures J.Normalize(J.Normalize(v)) == J.Normalize(v)
    decreases v
  {
    if J.IsNumber(v) {
      NumberText(v);
      NormalIdempotent(J.AsDecimal(v));
    } else if v.Arr? {
      var n := J.Normalize(v);
      forall i | 0 <= i < |v.items| ensures J.Normalize(n.items[i]) == n.items[i] {
        NormalizeIdempotent(v.items[i]);
      }
      assert J.Normalize(n).items == n.items;
    } else if v.Obj? {
      var n := J.Normalize(v);
      forall k | k in v.members ensures J.Normalize(n.members[k]) == n.members[k] {
        NormalizeIdempotent(v.members[k]);
      }
      assert J.Normalize(n).members == n.members;
    }
  }

  /** The normal form of an acceptable value is acceptable. */
  lemma NormalizeAcceptable(v: J.Json)
    requires J.Acceptable(v)
    ensures J.Acceptable(J.Normalize(v)) && J.JsonEqual(J.Normalize(v), v)
  {
    PrintedStrict(v, 0);
    P.StrictWalks(Printed(v), 0);
    NormalizeIdempotent(v);
    J.EqualIffSameNormal(J.Normalize(v), v, 0, 0);
  }

  // ---------------------------------------------------------------------
  // Encodable text means clean strings
  // ---------------------------------------------------------------------

  lemma CleanConcat(a: Text, b: Text)
    ensures J.IsClean(a + b) <==> J.IsClean(a) && J.IsClean(b)
  {
    if J.IsClean(a + b) {
      forall i | 0 <= i < |a| ensures !J.IsSurrogate(a[i]) { assert (a + b)[i] == a[i]; }
      forall i | 0 <= i < |b| ensures !J.IsSurrogate(b[i]) { assert (a + b)[|a| + i] == b[i]; }
    }
  }

  lemma PartOfClean(c: Code)
    ensures J.IsClean(RenderPart(PartOf(c))) <==> !J.IsSurrogate(c)
  {
    var t := RenderPart(PartOf(c));
    if J.IsSurrogate(c) { assert t[0] == c; }
  }

  lemma {:induction false} PartsOfClean(t: Text)
    ensures J.IsClean(RenderParts(PartsOf(t))) <==> J.IsClean(t)
  {
    if t != [] {
      PartOfClean(t[0]);
      PartsOfClean(t[1..]);
      CleanConcat(RenderPart(PartOf(t[0])), RenderParts(PartsOf(t[1..])));
      CleanConcat([t[0]], t[1..]);
      assert [t[0]] + t[1..] == t;
      assert J.IsClean([t[0]]) <==> !J.IsSurrogate([t[0]][0]);
    }
  }

  lemma StringClean(t: Text)
    ensures J.IsClean(DumpString(t)) <==> J.IsClean(t)
  {
    PartsOfClean(t);
    CleanConcat([QUOTE], RenderParts(PartsOf(t)));
  }

  lemma NumeralClean(d: Decimal)
    ensures J.IsClean(DumpDecimal(d))
  {
    NumeralPrints(d);
    var n := PrintedNumeral(d);
    DigitsClean(n.whole);
    DigitsClean(n.frac);
    CleanConcat(Sign(n.neg), n.whole);
    CleanConcat([DOT], n.frac);
    CleanConcat(Sign(n.neg) + n.whole, if n.frac == [] then [] else [DOT] + n.frac);
    assert n.expo.None?;
    assert RenderNumeral(n) == Sign(n.neg) + n.whole + (if n.frac == [] then [] else [DOT] + n.frac);
  }

  lemma DigitsClean(t: Text)
    requires AllDigits(t)
    ensures J.IsClean(t)
  {
    forall i | 0 <= i < |t| ensures !J.IsSurrogate(t[i]) { assert IsDigit(t[i]); }
  }

  /** Within the model, the printed text can be encoded exactly when all strings and keys are clean. */
  lemma {:induction false} DumpClean(v: J.Json, depth: nat)
    requires J.Walks(v, depth, J.ModelNode)
    ensures J.IsClean(Dump(v)) <==> J.Walks(v, depth, J.CleanNode)
    decreases v, 1
  {
    if J.IsNumber(v) {
      NumberText(v);
      NumeralClean(J.AsDecimal(v));
    } else if v.Str? {
      StringClean(v.s);
    } else if v.Arr? && v.items != [] {
      ArrayClean(v, depth);
    } else if v.Obj? && v.members != map[] {
      ObjectClean(v, depth);
    }
  }

  ghost predicate CleanItems(items: seq<J.Json>, depth: nat)
  {
    forall i :: 0 <= i < |items| ==> J.Walks(items[i], depth, J.CleanNode)
  }

  lemma CleanItemsStep(items: seq<J.Json>, depth: nat)
    requires items != []
    ensures CleanItems(items, depth) <==> J.Walks(items[0], depth, J.CleanNode) && CleanItems(items[1..], depth)
  {
    var rest := items[1..];
    assert forall i :: 0 < i < |items| ==> items[i] == rest[i - 1];
    assert forall i :: 0 <= i < |rest| ==> rest[i] == items[i + 1];
  }

  lemma {:induction false} ArrayClean(v: J.Json, depth: nat)
    requires v.Arr? && v.items != [] && J.Walks(v, depth, J.ModelNode)
    ensures J.IsClean(Dump(v)) <==> J.Walks(v, depth, J.CleanNode)
    decreases v, 0
  {
    ItemsClean(v.items, v, depth + 1, LBRACKET);
    assert J.Walks(v, depth, J.CleanNode) <==> CleanItems(v.items, depth + 1);
  }

  /** An item list after an opening bracket or a comma. */
  lemma {:induction false} ItemsClean(items: seq<J.Json>, v: J.Json, depth: nat, c: Code)
    requires items != [] && c < 0x80
    requires forall i :: 0 <= i < |items| ==> items[i] < v && J.Walks(items[i], depth, J.ModelNode)
    ensures J.IsClean([c] + (Dump(items[0]) + ItemsTail(items[1..]))) <==> CleanItems(items, depth)
    decreases v, 0, |items|
  {
    var rest := items[1..];
    var tail := ItemsTail(rest);
    DumpClean(items[0], depth);
    assert J.IsClean(tail) <==> CleanItems(rest, depth) by {
      if rest != [] { ItemsClean(rest, v, depth, COMMA); }
    }
    CleanConcat([c], Dump(items[0]) + tail);
    CleanConcat(Dump(items[0]), tail);
    CleanItemsStep(items, depth);
  }

  ghost predicate CleanMembers(keys: seq<Text>, v: J.Json, depth: nat)
    requires v.Obj?
  {
    forall i :: 0 <= i < |keys| ==>
      keys[i] in v.members && J.IsClean(keys[i]) && J.Walks(v.members[keys[i]], depth, J.CleanNode)
  }

  lemma {:induction false} ObjectClean(v: J.Json, depth: nat)
    requires v.Obj? && v.members != map[] && J.Walks(v, depth, J.ModelNode)
    ensures J.IsClean(Dump(v)) <==> J.Walks(v, depth, J.CleanNode)
    decreases v, 0
  {
    var keys := KeysOf(v.members);
    MembersClean(keys, v, depth + 1, LBRACE);
    CleanMembersAll(keys, v, depth);
  }

  lemma CleanMembersAll(keys: seq<Text>, v: J.Json, depth: nat)
    requires v.Obj? && depth <= J.MAX_WALK_DEPTH && forall k :: k in keys <==> k in v.members
    ensures CleanMembers(keys, v, depth + 1) <==> J.Walks(v, depth, J.CleanNode)
  {
    if CleanMembers(keys, v, depth + 1) {
      forall k | k in v.members ensures J.IsClean(k) && J.Walks(v.members[k], depth + 1, J.CleanNode) {
        assert k in keys;
        var i :| 0 <= i < |keys| && keys[i] == k;
      }
    }
  }

  /** A member list after an opening brace or a comma. */
  lemma {:induction false} MembersClean(keys: seq<Text>, v: J.Json, depth: nat, c: Code)
    requires v.Obj? && keys != [] && (forall k :: k in keys ==> k in v.members) && c < 0x80
    requires forall k :: k in v.members ==> J.Walks(v.members[k], depth, J.ModelNode)
    ensures J.IsClean([c] + (DumpString(keys[0]) + ([COLON] + (Dump(v.members[keys[0]]) + MembersTail(keys[1..], v)))))
            <==> CleanMembers(keys, v, depth)
    decreases v, 0, |keys|
  {
    var key, rest := keys[0], keys[1..];
    var tail := MembersTail(rest, v);
    assert key in v.members;
    StringClean(key);
    DumpClean(v.members[key], depth);
    assert J.IsClean(tail) <==> CleanMembers(rest, v, depth) by {
      if rest != [] { MembersClean(rest, v, depth, COMMA); }
    }
    CleanConcat([c], DumpString(key) + ([COLON] + (Dump(v.members[key]) + tail)));
    CleanConcat(DumpString(key), [COLON] + (Dump(v.members[key]) + tail));
    CleanConcat([COLON], Dump(v.members[key]) + tail);
    CleanConcat(Dump(v.members[key]), tail);
    CleanMembersStep(keys, v, depth);
  }

  lemma CleanMembersStep(keys: seq<Text>, v: J.Json, depth: nat)
    requires v.Obj? && keys != []
    ensures CleanMembers(keys, v, depth) <==>
      keys[0] in v.members && J.IsClean(keys[0]) && J.Walks(v.members[keys[0]], depth, J.CleanNode) &&
      CleanMembers(keys[1..], v, depth)
  {
    var rest := keys[1..];
    assert forall i :: 0 < i < |keys| ==> keys[i] == rest[i - 1];
    assert forall i :: 0 <= i < |rest| ==> rest[i] == keys[i + 1];
  }

  // ---------------------------------------------------------------------
  // The main theorems
  // ---------------------------------------------------------------------

  /** `canonical_bytes` succeeds on exactly the acceptable values. */
  lemma CanonicalAccepts(v: J.Json)
    ensures CanonicalText(v).Ok? <==> J.Acceptable(v)
  {
    if J.InModel(v) { DumpClean(v, 0); }
  }

  /** An object's canonical text is a strict document. */
  lemma PrintedDocument(v: J.Json, d: Document)
    requires v.Obj? && J.Acceptable(v) && d == Document([], Printed(v), [])
    ensures IsStrictDocument(d) && RenderDocument(d) == Dump(v) && Meaning(d.v) == J.Normalize(v)
  {
    PrintedText(v);
    PrintedStrict(v, 0);
    BareText(d, Dump(v));
  }

  lemma BareText(d: Document, t: Text)
    requires d.before == [] && d.after == [] && Render(d.v) == t
    ensures RenderDocument(d) == t
  {
    assert [] + (t + []) == t && [] + t + [] == t;
  }

  lemma LoadOfDump(v: J.Json)
    requires v.Obj? && J.Acceptable(v)
    ensures S.Load(Dump(v)) == S.Ok(J.Normalize(v))
  {
    var d := Document([], Printed(v), []);
    PrintedDocument(v, d);
    P.LoadComplete(d);
  }

  /**
   Round trip: the canonical text of an object loads, as an equal value (its
   normal form), and that value serializes to the same text again.
   */
  lemma LoadOfCanonical(v: J.Json)
    requires v.Obj? && CanonicalText(v).Ok?
    ensures S.Load(CanonicalText(v).text) == S.Ok(J.Normalize(v))
    ensures J.JsonEqual(J.Normalize(v), v)
    ensures CanonicalText(J.Normalize(v)) == CanonicalText(v)
  {
    CanonicalAccepts(v);
    LoadOfDump(v);
    NormalizeAcceptable(v);
    DumpNormalize(v);
  }

  /** Canonical texts are equal exactly when the values are. */
  lemma CanonicalDecidesEquality(a: J.Json, b: J.Json)
    requires CanonicalText(a).Ok? && CanonicalText(b).Ok?
    ensures CanonicalText(a) == CanonicalText(b) <==> J.JsonEqual(a, b)
  {
    CanonicalAccepts(a);
    CanonicalAccepts(b);
    J.EqualIffSameNormal(a, b, 0, 0);
    DumpReadsBack(a);
    DumpReadsBack(b);
    DumpNormalize(a);
    DumpNormalize(b);
  }

  /** Every loaded text has a canonical form, which loads as an equal value. */
  lemma CanonicalOfLoaded(t: Text, v: J.Json)
    requires S.Load(t) == S.Ok(v)
    ensures CanonicalText(v).Ok?
    ensures S.Load(CanonicalText(v).text) == S.Ok(J.Normalize(v)) && J.JsonEqual(J.Normalize(v), v)
  {
    P.LoadedIsAcceptable(t, v);
    CanonicalAccepts(v);
    LoadOfCanonical(v);
  }
}
