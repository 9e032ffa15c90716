/**
 The declarative side of the parser: concrete syntax trees of RFC 8259 documents,
 the text each one stands for, the value it means, and the stricter rules the
 kernel adds. Nothing here knows how parsing is done.
 */
module Grammar {
  import opened Texts
  import opened Numbers
  import J = Json

  const QUOTE: Code := 0x22
  const PLUS: Code := 0x2B
  const COMMA: Code := 0x2C
  const SLASH: Code := 0x2F
  const COLON: Code := 0x3A
  const LOWER_E: Code := 0x65
  const LOWER_U: Code := 0x75
  const UPPER_E: Code := 0x45
  const LBRACKET: Code := 0x5B
  const BACKSLASH: Code := 0x5C
  const RBRACKET: Code := 0x5D
  const LBRACE: Code := 0x7B
  const RBRACE: Code := 0x7D
  const TRUE_TEXT: Text := [0x74, 0x72, 0x75, 0x65]
  const FALSE_TEXT: Text := [0x66, 0x61, 0x6C, 0x73, 0x65]
  const NULL_TEXT: Text := [0x6E, 0x75, 0x6C, 0x6C]

  datatype Exponent = Exponent(mark: Code, sign: Text, digits: Text)

  /** -?whole(.frac)?(expo)?; an absent fraction is []. */
  datatype Numeral = Numeral(neg: bool, whole: Text, frac: Text, expo: Option<Exponent>)

  /** One character of a string literal, or one surrogate pair of escapes. */
  datatype Part =
    | Raw(c: Code)
    | Short(letter: Code)
    | Unit(hex: Text)
    | Pair(hi: Text, lo: Text)

  datatype Syntax =
    | NullLit
    | TrueLit
    | FalseLit
    | NumLit(num: Numeral)
    | StrLit(parts: seq<Part>)
    | ArrLit(pad: Text, elems: seq<Elem>)
    | ObjLit(pad: Text, entries: seq<Entry>)

  /** An array element with the white space on both sides. */
  datatype Elem = Elem(before: Text, v: Syntax, after: Text)

  /** An object member with the white space around its key and its value. */
  datatype Entry = Entry(before: Text, key: seq<Part>, afterKey: Text, beforeValue: Text, v: Syntax, after: Text)

  datatype Document = Document(before: Text, v: Syntax, after: Text)

  // ---------------------------------------------------------------------
  // Text
  // ---------------------------------------------------------------------

  function RenderExponent(e: Exponent): Text { [e.mark] + e.sign + e.digits }

  function RenderNumeral(n: Numeral): Text
  {
    Sign(n.neg) + n.whole
    + (if n.frac == [] then [] else [DOT] + n.frac)
    + (if n.expo.Some? then RenderExponent(n.expo.value) else [])
  }

  function RenderPart(p: Part): Text
  {
    match p
    case Raw(c) => [c]
    case Short(letter) => [BACKSLASH, letter]
    case Unit(hex) => [BACKSLASH, LOWER_U] + hex
    case Pair(hi, lo) => [BACKSLASH, LOWER_U] + hi + [BACKSLASH, LOWER_U] + lo
  }

  /** The characters of a string and its closing quote. */
  function RenderParts(ps: seq<Part>): Text
  {
    if ps == [] then [QUOTE] else RenderPart(ps[0]) + RenderParts(ps[1..])
  }

  function RenderString(ps: seq<Part>): Text { [QUOTE] + RenderParts(ps) }

  function Render(s: Syntax): Text
    decreases s, 1
  {
    match s
    case NullLit => NULL_TEXT
    case TrueLit => TRUE_TEXT
    case FalseLit => FALSE_TEXT
    case NumLit(n) => RenderNumeral(n)
    case StrLit(ps) => RenderString(ps)
    case ArrLit(pad, elems) =>
      [LBRACKET] + (if elems == [] then pad + [RBRACKET] else RenderElems(elems))
    case ObjLit(pad, entries) =>
      [LBRACE] + (if entries == [] then pad + [RBRACE] else RenderEntries(entries))
  }

  /** The elements of an array, separated by commas, and the closing bracket. */
  function RenderElems(es: seq<Elem>): Text
    requires es != []
    decreases es, 0
  {
    es[0].before + (Render(es[0].v) + (es[0].after +
    (if |es| == 1 then [RBRACKET] else [COMMA] + RenderElems(es[1..]))))
  }

  /** The members of an object, separated by commas, and the closing brace. */
  function RenderEntries(es: seq<Entry>): Text
    requires es != []
    decreases es, 0
  {
    es[0].before + (RenderString(es[0].key) + (es[0].afterKey + ([COLON] + (es[0].beforeValue +
    (Render(es[0].v) + (es[0].after +
    (if |es| == 1 then [RBRACE] else [COMMA] + RenderEntries(es[1..]))))))))
  }

  function RenderDocument(d: Document): Text { d.before + Render(d.v) + d.after }

  // ---------------------------------------------------------------------
  // Meaning
  // ---------------------------------------------------------------------

  predicate IsHexDigit(c: Code) { 0x30 <= c <= 0x39 || 0x41 <= c <= 0x46 || 0x61 <= c <= 0x66 }

  predicate IsHex4(t: Text) { |t| == 4 && forall i :: 0 <= i < 4 ==> IsHexDigit(t[i]) }

  function HexDigitValue(c: Code): (d: nat)
    requires IsHexDigit(c)
    ensures d < 16
  {
    if c <= 0x39 then c - 0x30 else if c <= 0x46 then c - 0x37 else c - 0x57
  }

  function HexValue(t: Text): (v: Code)
    requires IsHex4(t)
    ensures v <= 0xFFFF
  {
    HexDigitValue(t[0]) * 4096 + HexDigitValue(t[1]) * 256 + HexDigitValue(t[2]) * 16 + HexDigitValue(t[3])
  }

  predicate IsHigh(c: Code) { 0xD800 <= c <= 0xDBFF }
  predicate IsLow(c: Code) { 0xDC00 <= c <= 0xDFFF }

  /** The astral character a surrogate pair stands for. */
  function Combine(hi: Code, lo: Code): (c: Code)
    requires IsHigh(hi) && IsLow(lo)
    ensures 0x10000 <= c
  {
    0x10000 + (hi - 0xD800) * 0x400 + (lo - 0xDC00)
  }

  function ShortMeaning(letter: Code): Option<Code>
  {
    if letter == QUOTE then Some(QUOTE)
    else if letter == BACKSLASH then Some(BACKSLASH)
    else if letter == SLASH then Some(SLASH)
    else if letter == 0x62 then Some(0x08)
    else if letter == 0x66 then Some(0x0C)
    else if letter == 0x6E then Some(0x0A)
    else if letter == 0x72 then Some(0x0D)
    else if letter == 0x74 then Some(0x09)
    else None
  }

  predicate PartFormed(p: Part)
  {
    match p
    case Raw(c) => c >= 0x20 && c != QUOTE && c != BACKSLASH
    case Short(letter) => ShortMeaning(letter).Some?
    case Unit(hex) => IsHex4(hex)
    case Pair(hi, lo) => IsHex4(hi) && IsHex4(lo) && IsHigh(HexValue(hi)) && IsLow(HexValue(lo))
  }

  function PartMeaning(p: Part): Code
    requires PartFormed(p)
  {
    match p
    case Raw(c) => c
    case Short(letter) => ShortMeaning(letter).value
    case Unit(hex) => HexValue(hex)
    case Pair(hi, lo) => Combine(HexValue(hi), HexValue(lo))
  }

  predicate PartsFormed(ps: seq<Part>) { forall i :: 0 <= i < |ps| ==> PartFormed(ps[i]) }

  function PartsMeaning(ps: seq<Part>): (t: Text)
    requires PartsFormed(ps)
    ensures |t| == |ps| && forall i :: 0 <= i < |ps| ==> t[i] == PartMeaning(ps[i])
  {
    if ps == [] then [] else [PartMeaning(ps[0])] + PartsMeaning(ps[1..])
  }

  predicate ExponentFormed(e: Exponent)
  {
    && (e.mark == LOWER_E || e.mark == UPPER_E)
    && (e.sign == [] || e.sign == [PLUS] || e.sign == [MINUS])
    && e.digits != [] && AllDigits(e.digits)
  }

  predicate NumeralFormed(n: Numeral)
  {
    && n.whole != [] && AllDigits(n.whole) && (n.whole[0] == ZERO ==> |n.whole| == 1)
    && AllDigits(n.frac)
    && (n.expo.Some? ==> ExponentFormed(n.expo.value))
  }

  predicate IsIntegral(n: Numeral) { n.frac == [] && n.expo.None? }

  function ExponentValue(n: Numeral): int
    requires NumeralFormed(n)
  {
    if n.expo.None? then 0
    else
      var v: int := Val(n.expo.value.digits);
      if n.expo.value.sign == [MINUS] then -v else v
  }

  /** The exact decimal a numeral denotes. */
  function NumeralDecimal(n: Numeral): Decimal
    requires NumeralFormed(n)
  {
    assert AllDigits(n.whole + n.frac);
    Decimal(n.neg, Val(n.whole + n.frac), ExponentValue(n) - |n.frac|)
  }

  /** Integer literals mean integers, everything else an exact decimal. */
  function NumeralMeaning(n: Numeral): J.Json
    requires NumeralFormed(n)
  {
    if IsIntegral(n) then J.Int(if n.neg then 0 - Val(n.whole) else Val(n.whole))
    else J.Dec(NumeralDecimal(n))
  }

  predicate IsWs(c: Code) { c == 0x20 || c == 0x09 || c == 0x0A || c == 0x0D }

  predicate AllWs(t: Text) { forall i :: 0 <= i < |t| ==> IsWs(t[i]) }

  /** The tree is an instance of the grammar of RFC 8259, sections 2 to 7. */
  predicate Formed(s: Syntax)
    decreases s, 1
  {
    match s
    case NumLit(n) => NumeralFormed(n)
    case StrLit(ps) => PartsFormed(ps)
    case ArrLit(pad, es) =>
      AllWs(pad) && ElemsFormed(es)
    case ObjLit(pad, es) =>
      AllWs(pad) && EntriesFormed(es)
    case _ => true
  }

  predicate ElemsFormed(es: seq<Elem>)
    decreases es, 0
  {
    es == [] ||
    (AllWs(es[0].before) && Formed(es[0].v) && AllWs(es[0].after) && ElemsFormed(es[1..]))
  }

  predicate EntriesFormed(es: seq<Entry>)
    decreases es, 0
  {
    es == [] ||
    (AllWs(es[0].before) && PartsFormed(es[0].key) && AllWs(es[0].afterKey) && AllWs(es[0].beforeValue) &&
     Formed(es[0].v) && AllWs(es[0].after) && EntriesFormed(es[1..]))
  }

  function Meaning(s: Syntax): J.Json
    requires Formed(s)
    decreases s, 1
  {
    match s
    case NullLit => J.Null
    case TrueLit => J.Bool(true)
    case FalseLit => J.Bool(false)
    case NumLit(n) => NumeralMeaning(n)
    case StrLit(ps) => J.Str(PartsMeaning(ps))
    case ArrLit(_, es) => J.Arr(ElemsMeaning(es))
    case ObjLit(_, es) => J.Obj(EntriesMeaning(es))
  }

  function ElemsMeaning(es: seq<Elem>): (vs: seq<J.Json>)
    requires ElemsFormed(es)
    ensures |vs| == |es|
    decreases es, 0
  {
    if es == [] then [] else [Meaning(es[0].v)] + ElemsMeaning(es[1..])
  }

  function EntriesMeaning(es: seq<Entry>): map<Text, J.Json>
    requires EntriesFormed(es)
    decreases es, 0
  {
    if es == [] then map[]
    else map[PartsMeaning(es[0].key) := Meaning(es[0].v)] + EntriesMeaning(es[1..])
  }

  // ---------------------------------------------------------------------
  // What the kernel demands on top of the grammar
  // ---------------------------------------------------------------------

  predicate StrictParts(ps: seq<Part>)
  {
    PartsFormed(ps) && forall i :: 0 <= i < |ps| ==> !J.IsSurrogate(PartMeaning(ps[i]))
  }

  /** The frozen numeric limits. */
  predicate StrictNumeral(n: Numeral)
    requires NumeralFormed(n)
  {
    if IsIntegral(n) then |n.whole| <= J.MAX_INT_DIGITS
    else
      var a := Adjusted(NumeralDecimal(n));
      (if a < 0 then -a else a) < J.MAX_DECIMAL_SCALE
  }

  /** No key occurs again among the members after it. */
  predicate DistinctKeys(es: seq<Entry>)
    requires EntriesFormed(es)
  {
    es == [] || (PartsMeaning(es[0].key) !in EntriesMeaning(es[1..]) && DistinctKeys(es[1..]))
  }

  /** No duplicate decoded keys, numbers within limits, no unpaired surrogates, nesting within budget. */
  predicate Strict(s: Syntax, depth: nat)
    decreases s, 1
  {
    Formed(s) && depth <= J.MAX_WALK_DEPTH &&
    match s
    case NumLit(n) => StrictNumeral(n)
    case StrLit(ps) => StrictParts(ps)
    case ArrLit(_, es) => ElemsStrict(es, depth + 1)
    case ObjLit(_, es) => DistinctKeys(es) && EntriesStrict(es, depth + 1)
    case _ => true
  }

  predicate ElemsStrict(es: seq<Elem>, depth: nat)
    decreases es, 0
  {
    es == [] || (Strict(es[0].v, depth) && ElemsStrict(es[1..], depth))
  }

  predicate EntriesStrict(es: seq<Entry>, depth: nat)
    decreases es, 0
  {
    es == [] || (StrictParts(es[0].key) && Strict(es[0].v, depth) && EntriesStrict(es[1..], depth))
  }

  /** The documents the kernel is meant to accept: strict, with an object at top level. */
  predicate IsStrictDocument(d: Document)
  {
    AllWs(d.before) && AllWs(d.after) && d.v.ObjLit? && Strict(d.v, 0)
  }
}
