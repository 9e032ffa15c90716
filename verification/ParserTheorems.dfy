/**
 The parser accepts exactly the strict documents of the grammar and returns what
 they mean: completeness (every strict document is read back) and soundness
 (whatever is accepted is a strict document).
 */
module ParserTheorems {
  import opened Texts
  import opened Numbers
  import opened Grammar
  import opened StrictJson
  import J = Json

  // ---------------------------------------------------------------------
  // Occurrence of a text at a position
  // ---------------------------------------------------------------------

  /** w occurs in t at pos. */
  ghost predicate At(t: Text, pos: nat, w: Text)
  {
    pos + |w| <= |t| && t[pos..pos + |w|] == w
  }

  lemma AtConcat(t: Text, pos: nat, a: Text, b: Text)
    ensures At(t, pos, a + b) <==> At(t, pos, a) && At(t, pos + |a|, b)
  {
    if At(t, pos, a + b) {
      assert t[pos..pos + |a|] == (a + b)[..|a|];
      assert t[pos + |a|..pos + |a| + |b|] == (a + b)[|a|..];
    }
  }

  lemma AtConcat2(t: Text, pos: nat, q: nat, a: Text, b: Text)
    requires q == pos + |a|
    ensures At(t, pos, a + b) <==> At(t, pos, a) && At(t, q, b)
    ensures pos + |a + b| == q + |b|
  {
    AtConcat(t, pos, a, b);
  }

  lemma AtConcat3(t: Text, pos: nat, p1: nat, p2: nat, a: Text, b: Text, c: Text)
    requires p1 == pos + |a| && p2 == p1 + |b|
    ensures At(t, pos, a + (b + c)) <==> At(t, pos, a) && At(t, p1, b) && At(t, p2, c)
    ensures pos + |a + (b + c)| == p2 + |c|
  {
    AtConcat(t, pos, a, b + c);
    AtConcat(t, p1, b, c);
  }

  lemma AtConcat4(t: Text, pos: nat, p1: nat, p2: nat, p3: nat, a: Text, b: Text, c: Text, d: Text)
    requires p1 == pos + |a| && p2 == p1 + |b| && p3 == p2 + |c|
    ensures At(t, pos, a + (b + (c + d))) <==> At(t, pos, a) && At(t, p1, b) && At(t, p2, c) && At(t, p3, d)
    ensures pos + |a + (b + (c + d))| == p3 + |d|
  {
    AtConcat(t, pos, a, b + (c + d));
    AtConcat3(t, p1, p2, p3, b, c, d);
  }

  lemma AtOne(t: Text, pos: nat, c: Code)
    ensures At(t, pos, [c]) <==> pos < |t| && t[pos] == c
  {}

  lemma AtIndex(t: Text, pos: nat, w: Text, i: nat)
    requires At(t, pos, w) && i < |w|
    ensures pos + i < |t| && t[pos + i] == w[i]
  {
    assert t[pos..pos + |w|][i] == w[i];
  }

  lemma {:induction false} WsEndAt(t: Text, pos: nat, ws: Text)
    requires At(t, pos, ws) && AllWs(ws)
    requires pos + |ws| < |t| ==> !IsWs(t[pos + |ws|])
    ensures WsEnd(t, pos) == pos + |ws|
    decreases |ws|
  {
    if ws != [] {
      AtIndex(t, pos, ws, 0);
      assert ws == [ws[0]] + ws[1..];
      AtConcat(t, pos, [ws[0]], ws[1..]);
      WsEndAt(t, pos + 1, ws[1..]);
    }
  }

  /** White space skipped is white space present. */
  lemma {:induction false} WsEndSound(t: Text, pos: nat)
    requires pos <= |t|
    ensures AllWs(t[pos..WsEnd(t, pos)])
    ensures WsEnd(t, pos) < |t| ==> !IsWs(t[WsEnd(t, pos)])
    decreases |t| - pos
  {
    if pos < |t| && IsWs(t[pos]) {
      WsEndSound(t, pos + 1);
      assert t[pos..WsEnd(t, pos)] == [t[pos]] + t[pos + 1..WsEnd(t, pos + 1)];
    }
  }

  // ---------------------------------------------------------------------
  // Numerals
  // ---------------------------------------------------------------------

  lemma {:induction false} DigitsEndAt(t: Text, pos: nat, ds: Text)
    requires At(t, pos, ds) && AllDigits(ds)
    requires pos + |ds| < |t| ==> !IsDigit(t[pos + |ds|])
    ensures DigitsEnd(t, pos) == pos + |ds|
    decreases |ds|
  {
    if ds != [] {
      AtIndex(t, pos, ds, 0);
      assert ds == [ds[0]] + ds[1..];
      AtConcat(t, pos, [ds[0]], ds[1..]);
      DigitsEndAt(t, pos + 1, ds[1..]);
    }
  }

  function FractionText(frac: Text): Text { if frac == [] then [] else [DOT] + frac }

  function ExponentText(e: Option<Exponent>): Text { if e.Some? then RenderExponent(e.value) else [] }

  /** The text after a complete numeral or numeral prefix: nothing that would extend its digits. */
  ghost predicate NoDigitAt(t: Text, pos: nat) { pos < |t| ==> !IsDigit(t[pos]) }

  lemma FractionComplete(t: Text, pos: nat, end: nat, frac: Text)
    requires AllDigits(frac) && At(t, pos, FractionText(frac)) && end == pos + |FractionText(frac)|
    requires NoDigitAt(t, end)
    requires frac == [] ==> (pos < |t| ==> t[pos] != DOT)
    ensures FractionAt(t, pos) == frac && FractionEnd(t, pos) == end
  {
    if frac != [] {
      AtConcat(t, pos, [DOT], frac);
      AtOne(t, pos, DOT);
      AtIndex(t, pos + 1, frac, 0);
      DigitsEndAt(t, pos + 1, frac);
    }
  }

  lemma ExponentComplete(t: Text, pos: nat, end: nat, e: Option<Exponent>)
    requires e.Some? ==> ExponentFormed(e.value)
    requires At(t, pos, ExponentText(e)) && end == pos + |ExponentText(e)|
    requires Delimited(t, end)
    ensures ExponentAt(t, pos) == e && ExponentEnd(t, pos) == end
  {
    if e.Some? {
      var q := ExponentPlaces(t, pos, end, e.value);
      SignComplete(t, pos + 1, q, e.value.sign);
      DigitsEndAt(t, q, e.value.digits);
    }
  }

  lemma ExponentPlaces(t: Text, pos: nat, end: nat, x: Exponent) returns (q: nat)
    requires ExponentFormed(x) && At(t, pos, RenderExponent(x)) && end == pos + |RenderExponent(x)|
    ensures pos < |t| && t[pos] == x.mark && At(t, pos + 1, x.sign) && q == pos + 1 + |x.sign|
    ensures At(t, q, x.digits) && end == q + |x.digits| && q < |t| && IsDigit(t[q])
  {
    q := pos + 1 + |x.sign|;
    AtConcat(t, pos, [x.mark] + x.sign, x.digits);
    AtConcat(t, pos, [x.mark], x.sign);
    AtOne(t, pos, x.mark);
    AtIndex(t, q, x.digits, 0);
  }

  lemma SignComplete(t: Text, pos: nat, q: nat, sign: Text)
    requires sign == [] || sign == [PLUS] || sign == [MINUS]
    requires At(t, pos, sign) && q == pos + |sign| && q < |t| && IsDigit(t[q])
    ensures SignEnd(t, pos) == q
  {
    if sign != [] { AtIndex(t, pos, sign, 0); }
  }

  /** What follows a numeral's digits when an exponent or a delimiter comes next. */
  lemma NotADigit(t: Text, pos: nat, e: Option<Exponent>)
    requires e.Some? ==> ExponentFormed(e.value)
    requires At(t, pos, ExponentText(e))
    requires Delimited(t, pos + |ExponentText(e)|)
    ensures NoDigitAt(t, pos) && (pos < |t| ==> t[pos] != DOT)
  {
    if e.Some? { AtIndex(t, pos, ExponentText(e), 0); }
  }

  /** The parts of n after its sign occur one after the other, starting at pos, p2 and p3. */
  ghost predicate UnsignedParts(t: Text, pos: nat, p2: nat, p3: nat, end: nat, n: Numeral)
  {
    && p2 == pos + |n.whole| && At(t, pos, n.whole)
    && p3 == p2 + |FractionText(n.frac)| && At(t, p2, FractionText(n.frac))
    && end == p3 + |ExponentText(n.expo)| && At(t, p3, ExponentText(n.expo))
  }

  lemma NumeralSplit(t: Text, pos: nat, n: Numeral, p1: nat, p2: nat, p3: nat, end: nat)
    requires p1 == pos + |Sign(n.neg)| && p2 == p1 + |n.whole|
    requires p3 == p2 + |FractionText(n.frac)| && end == p3 + |ExponentText(n.expo)|
    ensures |RenderNumeral(n)| == end - pos
    ensures At(t, pos, RenderNumeral(n)) <==> At(t, pos, Sign(n.neg)) && UnsignedParts(t, p1, p2, p3, end, n)
  {
    var sign, frac, expo := Sign(n.neg), FractionText(n.frac), ExponentText(n.expo);
    assert RenderNumeral(n) == sign + n.whole + frac + expo;
    AtConcat(t, pos, sign + n.whole + frac, expo);
    AtConcat(t, pos, sign + n.whole, frac);
    AtConcat(t, pos, sign, n.whole);
  }

  /** The pattern match finds exactly the numeral that is there. */
  lemma MatchComplete(t: Text, pos: nat, n: Numeral, end: nat)
    requires NumeralFormed(n) && At(t, pos, RenderNumeral(n)) && end == pos + |RenderNumeral(n)|
    requires Delimited(t, end)
    ensures MatchNumber(t, pos) == Some((n, end))
  {
    var p1 := pos + |Sign(n.neg)|;
    var p2 := p1 + |n.whole|;
    var p3 := p2 + |FractionText(n.frac)|;
    var p4 := p3 + |ExponentText(n.expo)|;
    NumeralSplit(t, pos, n, p1, p2, p3, p4);
    UnsignedComplete(t, p1, p2, p3, end, n);
    SignRead(t, pos, p1, n, end);
  }

  lemma SignRead(t: Text, pos: nat, p1: nat, n: Numeral, end: nat)
    requires At(t, pos, Sign(n.neg)) && p1 == pos + |Sign(n.neg)| && p1 < |t| && IsDigit(t[p1])
    requires MatchUnsigned(t, p1, n.neg) == Some((n, end))
    ensures MatchNumber(t, pos) == Some((n, end))
  {
    if n.neg { AtOne(t, pos, MINUS); }
  }

  lemma UnsignedComplete(t: Text, pos: nat, p2: nat, p3: nat, end: nat, n: Numeral)
    requires NumeralFormed(n) && UnsignedParts(t, pos, p2, p3, end, n)
    requires end <= |t| && Delimited(t, end)
    ensures pos < |t| && IsDigit(t[pos]) && MatchUnsigned(t, pos, n.neg) == Some((n, end))
  {
    DecimalPartComplete(t, p2, p3, end, n);
    WholeComplete(t, pos, p2, n);
    UnsignedRead(t, pos, p2, p3, end, n);
  }

  lemma DecimalPartComplete(t: Text, p2: nat, p3: nat, end: nat, n: Numeral)
    requires NumeralFormed(n) && end <= |t| && Delimited(t, end)
    requires p3 == p2 + |FractionText(n.frac)| && At(t, p2, FractionText(n.frac))
    requires end == p3 + |ExponentText(n.expo)| && At(t, p3, ExponentText(n.expo))
    ensures p2 <= |t| && p3 <= |t| && NoDigitAt(t, p2)
    ensures FractionAt(t, p2) == n.frac && FractionEnd(t, p2) == p3
    ensures ExponentAt(t, p3) == n.expo && ExponentEnd(t, p3) == end
  {
    ExponentComplete(t, p3, end, n.expo);
    NotADigit(t, p3, n.expo);
    FractionComplete(t, p2, p3, n.frac);
    if n.frac != [] { AtIndex(t, p2, FractionText(n.frac), 0); }
  }

  lemma UnsignedRead(t: Text, pos: nat, p2: nat, p3: nat, end: nat, n: Numeral)
    requires pos < |t| && IsDigit(t[pos]) && WholeEnd(t, pos) == p2 <= |t| && n.whole == t[pos..p2]
    requires FractionAt(t, p2) == n.frac && FractionEnd(t, p2) == p3 <= |t|
    requires ExponentAt(t, p3) == n.expo && ExponentEnd(t, p3) == end
    ensures MatchUnsigned(t, pos, n.neg) == Some((n, end))
  {}

  lemma WholeComplete(t: Text, pos: nat, p2: nat, n: Numeral)
    requires NumeralFormed(n) && At(t, pos, n.whole) && p2 == pos + |n.whole| && NoDigitAt(t, p2)
    ensures p2 <= |t| && n.whole == t[pos..p2]
    ensures pos < |t| && IsDigit(t[pos]) && WholeEnd(t, pos) == p2
  {
    AtIndex(t, pos, n.whole, 0);
    if n.whole[0] != ZERO { DigitsEndAt(t, pos, n.whole); }
  }

  lemma FractionSound(t: Text, pos: nat)
    requires pos <= |t|
    ensures At(t, pos, FractionText(FractionAt(t, pos)))
    ensures FractionEnd(t, pos) == pos + |FractionText(FractionAt(t, pos))|
  {
    var end := FractionEnd(t, pos);
    if end > pos {
      assert FractionAt(t, pos) == t[pos + 1..end];
      AtOne(t, pos, DOT);
      AtConcat(t, pos, [DOT], t[pos + 1..end]);
    }
  }

  lemma ExponentSound(t: Text, pos: nat)
    requires pos <= |t|
    ensures At(t, pos, ExponentText(ExponentAt(t, pos)))
    ensures ExponentEnd(t, pos) == pos + |ExponentText(ExponentAt(t, pos))|
  {
    var end := ExponentEnd(t, pos);
    if end > pos {
      Cut(t, pos, SignEnd(t, pos + 1), end);
    }
  }

  lemma Cut(t: Text, pos: nat, q: nat, end: nat)
    requires pos + 1 <= q <= end <= |t|
    ensures var w := [t[pos]] + t[pos + 1..q] + t[q..end]; At(t, pos, w) && end == pos + |w|
  {
    assert t[pos..end] == [t[pos]] + t[pos + 1..q] + t[q..end];
  }

  lemma UnsignedSound(t: Text, pos: nat, n: Numeral, end: nat) returns (p2: nat, p3: nat)
    requires pos <= |t| && MatchUnsigned(t, pos, n.neg) == Some((n, end))
    ensures UnsignedParts(t, pos, p2, p3, end, n)
  {
    p2 := WholeEnd(t, pos);
    p3 := FractionEnd(t, p2);
    FractionSound(t, p2);
    ExponentSound(t, p3);
  }

  lemma MatchSound(t: Text, pos: nat, n: Numeral, end: nat)
    requires pos <= |t| && MatchNumber(t, pos) == Some((n, end))
    ensures At(t, pos, RenderNumeral(n)) && end == pos + |RenderNumeral(n)|
  {
    var p1 := if t[pos] == MINUS then pos + 1 else pos;
    assert n.neg <==> t[pos] == MINUS;
    if n.neg { AtOne(t, pos, MINUS); }
    var p2, p3 := UnsignedSound(t, p1, n, end);
    NumeralSplit(t, pos, n, p1, p2, p3, end);
  }

  // ---------------------------------------------------------------------
  // Strings
  // ---------------------------------------------------------------------

  lemma HexAtComplete(t: Text, pos: nat, hex: Text)
    requires IsHex4(hex) && At(t, pos, hex)
    ensures HexAt(t, pos) == Ok(HexValue(hex))
  {}

  /** One step of the string loop over a strict part. */
  lemma PartStep(t: Text, pos: nat, q: nat, p: Part, acc: Text, more: Text)
    requires PartFormed(p) && !J.IsSurrogate(PartMeaning(p)) && At(t, pos, RenderPart(p))
    requires q == pos + |RenderPart(p)| && more == acc + [PartMeaning(p)]
    ensures q <= |t| && StringFrom(t, pos, acc) == StringFrom(t, q, more)
  {
    match p {
      case Raw(c) => AtOne(t, pos, c);
      case Short(letter) =>
        AtIndex(t, pos, RenderPart(p), 0);
        AtIndex(t, pos, RenderPart(p), 1);
      case Unit(hex) => UnitStep(t, pos, q, hex, acc, more);
      case Pair(hi, lo) => PairStep(t, pos, q, hi, lo, acc, more);
    }
  }

  lemma UnitStep(t: Text, pos: nat, q: nat, hex: Text, acc: Text, more: Text)
    requires IsHex4(hex) && !J.IsSurrogate(HexValue(hex)) && At(t, pos, [BACKSLASH, LOWER_U] + hex)
    requires q == pos + 6 && more == acc + [HexValue(hex)]
    ensures q <= |t| && StringFrom(t, pos, acc) == StringFrom(t, q, more)
  {
    var u := [BACKSLASH, LOWER_U];
    AtConcat(t, pos, u, hex);
    AtIndex(t, pos, u, 0);
    AtIndex(t, pos, u, 1);
    HexAtComplete(t, pos + 2, hex);
  }

  lemma PairStep(t: Text, pos: nat, q: nat, hi: Text, lo: Text, acc: Text, more: Text)
    requires PartFormed(Pair(hi, lo)) && At(t, pos, RenderPart(Pair(hi, lo)))
    requires q == pos + 12 && more == acc + [PartMeaning(Pair(hi, lo))]
    ensures q <= |t| && StringFrom(t, pos, acc) == StringFrom(t, q, more)
  {
    PairPlaces(t, pos, hi, lo);
    HexAtComplete(t, pos + 2, hi);
    HexAtComplete(t, pos + 8, lo);
  }

  lemma PairPlaces(t: Text, pos: nat, hi: Text, lo: Text)
    requires |hi| == 4 && At(t, pos, RenderPart(Pair(hi, lo)))
    ensures At(t, pos + 2, hi) && At(t, pos + 8, lo) && pos + 8 + |lo| <= |t|
    ensures t[pos] == t[pos + 6] == BACKSLASH && t[pos + 1] == t[pos + 7] == LOWER_U
  {
    var u := [BACKSLASH, LOWER_U];
    AtConcat(t, pos, u + hi + u, lo);
    AtConcat(t, pos, u + hi, u);
    AtConcat(t, pos, u, hi);
    AtIndex(t, pos, u, 0);
    AtIndex(t, pos, u, 1);
    AtIndex(t, pos + 6, u, 0);
    AtIndex(t, pos + 6, u, 1);
  }

  lemma PartsSplit(t: Text, pos: nat, q: nat, ps: seq<Part>, first: Part, rest: seq<Part>)
    requires ps == [first] + rest && q == pos + |RenderPart(first)|
    ensures pos + |RenderParts(ps)| == q + |RenderParts(rest)|
    ensures At(t, pos, RenderParts(ps)) <==> At(t, pos, RenderPart(first)) && At(t, q, RenderParts(rest))
  {
    assert ps[0] == first && ps[1..] == rest;
    var a, b := RenderPart(first), RenderParts(rest);
    assert RenderParts(ps) == a + b;
    AtConcat2(t, pos, q, a, b);
  }

  lemma {:induction false} StringComplete(t: Text, pos: nat, end: nat, ps: seq<Part>, acc: Text)
    requires StrictParts(ps) && At(t, pos, RenderParts(ps)) && end == pos + |RenderParts(ps)|
    ensures StringFrom(t, pos, acc) == Ok((acc + PartsMeaning(ps), end))
    decreases |ps|
  {
    if ps == [] {
      AtOne(t, pos, QUOTE);
      assert acc + PartsMeaning(ps) == acc;
    } else {
      var first, rest := ps[0], ps[1..];
      var q, more := pos + |RenderPart(first)|, acc + [PartMeaning(first)];
      PartsSplit(t, pos, q, ps, first, rest);
      PartStep(t, pos, q, first, acc, more);
      StringComplete(t, q, end, rest, more);
      PartsMeaningStep(acc, ps, first, rest);
    }
  }

  lemma PartsMeaningStep(acc: Text, ps: seq<Part>, first: Part, rest: seq<Part>)
    requires ps == [first] + rest && PartFormed(first) && PartsFormed(rest)
    ensures PartsFormed(ps)
    ensures acc + [PartMeaning(first)] + PartsMeaning(rest) == acc + PartsMeaning(ps)
  {
    assert ps[0] == first && ps[1..] == rest;
  }

  /** The string loop only ever extends what it has read. */
  lemma {:induction false} StringExtends(t: Text, pos: nat, acc: Text)
    requires pos <= |t| && StringFrom(t, pos, acc).Ok?
    ensures acc <= StringFrom(t, pos, acc).value.0
    decreases |t| - pos
  {
    if t[pos] == QUOTE {
    } else if t[pos] == BACKSLASH {
      if ShortMeaning(t[pos + 1]).Some? {
        StringExtends(t, pos + 2, acc + [ShortMeaning(t[pos + 1]).value]);
      } else {
        var u := UnicodeAt(t, pos + 2).value;
        StringExtends(t, u.1, acc + u.0);
      }
    } else {
      StringExtends(t, pos + 1, acc + [t[pos]]);
    }
  }

  lemma CleanPrefix(a: Text, s: Text)
    requires a <= s && J.IsClean(s)
    ensures J.IsClean(a)
  {
    forall i | 0 <= i < |a| ensures !J.IsSurrogate(a[i]) { assert a[i] == s[i]; }
  }

  /** A clean \u escape is one part. */
  lemma UnicodePart(t: Text, pos: nat) returns (p: Part)
    requires pos + 2 <= |t| && t[pos] == BACKSLASH && t[pos + 1] == LOWER_U
    requires UnicodeAt(t, pos + 2).Ok? && J.IsClean(UnicodeAt(t, pos + 2).value.0)
    ensures PartFormed(p) && At(t, pos, RenderPart(p))
    ensures UnicodeAt(t, pos + 2).value == ([PartMeaning(p)], pos + |RenderPart(p)|)
  {
    var hex := t[pos + 2..pos + 6];
    var u := [BACKSLASH, LOWER_U];
    assert At(t, pos, u);
    assert !J.IsSurrogate(UnicodeAt(t, pos + 2).value.0[0]);
    if IsHigh(HexValue(hex)) {
      p := PairPart(t, pos, hex);
    } else {
      AtConcat(t, pos, u, hex);
      p := Unit(hex);
    }
  }

  lemma PairPart(t: Text, pos: nat, hex: Text) returns (p: Part)
    requires pos + 6 <= |t| && At(t, pos, [BACKSLASH, LOWER_U]) && hex == t[pos + 2..pos + 6]
    requires IsHex4(hex) && IsHigh(HexValue(hex))
    requires UnicodeAt(t, pos + 2).Ok? && !J.IsSurrogate(UnicodeAt(t, pos + 2).value.0[0])
    ensures PartFormed(p) && At(t, pos, RenderPart(p))
    ensures UnicodeAt(t, pos + 2).value == ([PartMeaning(p)], pos + |RenderPart(p)|)
  {
    var u := [BACKSLASH, LOWER_U];
    assert pos + 8 <= |t| && t[pos + 6] == BACKSLASH && t[pos + 7] == LOWER_U;
    var lo := t[pos + 8..pos + 12];
    assert HexAt(t, pos + 8) == Ok(HexValue(lo));
    assert At(t, pos + 6, u);
    AtConcat(t, pos, u, hex);
    AtConcat(t, pos, u + hex, u);
    AtConcat(t, pos, u + hex + u, lo);
    p := Pair(hex, lo);
  }

  lemma {:induction false} StringSound(t: Text, pos: nat, acc: Text, got: Text, end: nat) returns (ps: seq<Part>)
    requires pos <= |t| && StringFrom(t, pos, acc) == Ok((got, end)) && J.IsClean(got)
    ensures StrictParts(ps) && At(t, pos, RenderParts(ps))
    ensures got == acc + PartsMeaning(ps) && end == pos + |RenderParts(ps)|
    decreases |t| - pos
  {
    if t[pos] == QUOTE {
      ps := [];
      StringEnd(t, pos, acc);
    } else {
      var p := StringHead(t, pos, acc);
      var q := pos + |RenderPart(p)|;
      var rest := StringSound(t, q, acc + [PartMeaning(p)], got, end);
      ps := [p] + rest;
      JoinParts(t, pos, q, acc, p, rest, got, end);
    }
  }

  lemma StringEnd(t: Text, pos: nat, acc: Text)
    requires pos < |t| && t[pos] == QUOTE
    ensures At(t, pos, RenderParts([])) && StringFrom(t, pos, acc) == Ok((acc + PartsMeaning([]), pos + |RenderParts([])|))
  {
    assert acc + PartsMeaning([]) == acc;
    AtOne(t, pos, QUOTE);
  }

  lemma StringHead(t: Text, pos: nat, acc: Text) returns (p: Part)
    requires pos < |t| && t[pos] != QUOTE
    requires StringFrom(t, pos, acc).Ok? && J.IsClean(StringFrom(t, pos, acc).value.0)
    ensures PartFormed(p) && !J.IsSurrogate(PartMeaning(p)) && At(t, pos, RenderPart(p))
    ensures StringFrom(t, pos + |RenderPart(p)|, acc + [PartMeaning(p)]) == StringFrom(t, pos, acc)
    ensures pos < pos + |RenderPart(p)| <= |t|
  {
    p := FirstPart(t, pos, acc);
    CleanStep(t, pos + |RenderPart(p)|, acc, p, acc + [PartMeaning(p)]);
  }

  /** A first part in front of the parts that were read after it. */
  lemma JoinParts(t: Text, pos: nat, q: nat, acc: Text, p: Part, rest: seq<Part>, got: Text, end: nat)
    requires PartFormed(p) && !J.IsSurrogate(PartMeaning(p)) && StrictParts(rest)
    requires At(t, pos, RenderPart(p)) && q == pos + |RenderPart(p)| && At(t, q, RenderParts(rest))
    requires got == acc + [PartMeaning(p)] + PartsMeaning(rest) && end == q + |RenderParts(rest)|
    ensures var ps := [p] + rest;
      && StrictParts(ps) && At(t, pos, RenderParts(ps))
      && got == acc + PartsMeaning(ps) && end == pos + |RenderParts(ps)|
  {
    PartsSplit(t, pos, q, [p] + rest, p, rest);
    PartsMeaningStep(acc, [p] + rest, p, rest);
  }

  lemma CleanStep(t: Text, q: nat, acc: Text, p: Part, more: Text)
    requires PartFormed(p) && more == acc + [PartMeaning(p)]
    requires q <= |t| && StringFrom(t, q, more).Ok? && J.IsClean(StringFrom(t, q, more).value.0)
    ensures !J.IsSurrogate(PartMeaning(p))
  {
    StringExtends(t, q, more);
    assert more[|acc|] == StringFrom(t, q, more).value.0[|acc|];
  }

  /** The part the string loop reads next. */
  lemma FirstPart(t: Text, pos: nat, acc: Text) returns (p: Part)
    requires pos < |t| && t[pos] != QUOTE
    requires StringFrom(t, pos, acc).Ok? && J.IsClean(StringFrom(t, pos, acc).value.0)
    ensures PartFormed(p) && At(t, pos, RenderPart(p))
    ensures StringFrom(t, pos, acc) == StringFrom(t, pos + |RenderPart(p)|, acc + [PartMeaning(p)])
  {
    if t[pos] == BACKSLASH {
      assert At(t, pos, [BACKSLASH, t[pos + 1]]);
      if ShortMeaning(t[pos + 1]).Some? {
        p := Short(t[pos + 1]);
      } else {
        var u := UnicodeAt(t, pos + 2).value;
        StringExtends(t, u.1, acc + u.0);
        CleanPrefix(acc + u.0, StringFrom(t, pos, acc).value.0);
        assert u.0 == (acc + u.0)[|acc|..];
        p := UnicodePart(t, pos);
      }
    } else {
      p := Raw(t[pos]);
      AtOne(t, pos, t[pos]);
    }
  }

  // ---------------------------------------------------------------------
  // Completeness of values
  // ---------------------------------------------------------------------

  /** What a value can start with; in particular not white space and not a closing bracket. */
  predicate StartsValue(c: Code)
  {
    c == LBRACE || c == LBRACKET || c == QUOTE || c == MINUS || IsDigit(c) || c == 0x74 || c == 0x66 || c == 0x6E
  }

  lemma RenderFirst(s: Syntax)
    requires Formed(s)
    ensures Render(s) != [] && StartsValue(Render(s)[0])
  {}

  lemma ValueStart(t: Text, pos: nat, s: Syntax)
    requires Formed(s) && At(t, pos, Render(s))
    ensures pos < |t| && t[pos] == Render(s)[0] && StartsValue(t[pos])
  {
    RenderFirst(s);
    AtIndex(t, pos, Render(s), 0);
  }

  lemma {:induction false} ValueComplete(t: Text, pos: nat, end: nat, s: Syntax, depth: nat)
    requires Strict(s, depth) && At(t, pos, Render(s)) && end == pos + |Render(s)| && Delimited(t, end)
    ensures ValueAt(t, pos, depth) == Ok((Meaning(s), end))
    decreases s, 2
  {
    ValueStart(t, pos, s);
    match s {
      case NullLit =>
      case TrueLit =>
      case FalseLit =>
      case NumLit(n) => NumberComplete(t, pos, end, n, depth);
      case StrLit(ps) => QuotedComplete(t, pos, end, ps);
      case ArrLit(pad, es) => ArrayComplete(t, pos, end, s, depth);
      case ObjLit(pad, es) => ObjectComplete(t, pos, end, s, depth);
    }
  }

  lemma QuotedComplete(t: Text, pos: nat, end: nat, ps: seq<Part>)
    requires StrictParts(ps) && At(t, pos, RenderString(ps)) && end == pos + |RenderString(ps)|
    ensures pos < |t| && t[pos] == QUOTE && StringFrom(t, pos + 1, []) == Ok((PartsMeaning(ps), end))
  {
    AtConcat(t, pos, [QUOTE], RenderParts(ps));
    AtOne(t, pos, QUOTE);
    StringComplete(t, pos + 1, end, ps, []);
    assert [] + PartsMeaning(ps) == PartsMeaning(ps);
  }

  lemma NumberComplete(t: Text, pos: nat, end: nat, n: Numeral, depth: nat)
    requires NumeralFormed(n) && StrictNumeral(n)
    requires At(t, pos, RenderNumeral(n)) && end == pos + |RenderNumeral(n)| && Delimited(t, end)
    ensures ValueAt(t, pos, depth) == Ok((NumeralMeaning(n), end))
  {
    MatchComplete(t, pos, n, end);
    NumberStarts(t, pos, n);
  }

  /** A numeral starts with a minus sign or a digit, and is not a negative infinity. */
  lemma NumberStarts(t: Text, pos: nat, n: Numeral)
    requires NumeralFormed(n) && At(t, pos, RenderNumeral(n))
    ensures pos < |t| && (t[pos] == MINUS || IsDigit(t[pos])) && !StartsWith(t, pos, [MINUS] + INFINITY_TEXT)
  {
    AtIndex(t, pos, RenderNumeral(n), 0);
    if n.neg {
      AtIndex(t, pos, RenderNumeral(n), 1);
      assert t[pos + 1] == n.whole[0];
    } else {
      assert t[pos] == n.whole[0];
    }
    NotMinusInfinity(t, pos);
  }

  lemma NotMinusInfinity(t: Text, pos: nat)
    requires pos < |t| && (IsDigit(t[pos]) || (pos + 1 < |t| && IsDigit(t[pos + 1])))
    ensures !StartsWith(t, pos, [MINUS] + INFINITY_TEXT)
  {
    var w := [MINUS] + INFINITY_TEXT;
    StartsIndex(t, pos, w, 0);
    StartsIndex(t, pos, w, 1);
  }

  lemma StartsIndex(t: Text, pos: nat, w: Text, i: nat)
    requires i < |w|
    ensures StartsWith(t, pos, w) ==> pos + i < |t| && t[pos + i] == w[i]
  {
    if StartsWith(t, pos, w) { assert t[pos..pos + |w|][i] == w[i]; }
  }

  /** A bracketed text: the opening character, and either padding and the closing one or a list. */
  lemma OpenBracket(t: Text, pos: nat, o: Code, body: Text)
    requires At(t, pos, [o] + body)
    ensures pos < |t| && t[pos] == o && At(t, pos + 1, body)
  {
    AtConcat(t, pos, [o], body);
    AtOne(t, pos, o);
  }

  lemma EmptyBrackets(t: Text, pos: nat, pad: Text, c: Code)
    requires AllWs(pad) && At(t, pos, pad + [c]) && !IsWs(c)
    ensures WsEnd(t, pos) == pos + |pad| < |t| && t[pos + |pad|] == c
  {
    AtConcat(t, pos, pad, [c]);
    AtOne(t, pos + |pad|, c);
    WsEndAt(t, pos, pad);
  }

  lemma {:induction false} ArrayComplete(t: Text, pos: nat, end: nat, s: Syntax, depth: nat)
    requires s.ArrLit? && Strict(s, depth) && At(t, pos, Render(s)) && end == pos + |Render(s)|
    ensures ValueAt(t, pos, depth) == Ok((Meaning(s), end))
    decreases s, 1
  {
    if s.elems == [] {
      OpenBracket(t, pos, LBRACKET, s.pad + [RBRACKET]);
      EmptyBrackets(t, pos + 1, s.pad, RBRACKET);
    } else {
      OpenBracket(t, pos, LBRACKET, RenderElems(s.elems));
      ElemsComplete(t, pos + 1, end, s.elems, depth, []);
      assert [] + ElemsMeaning(s.elems) == ElemsMeaning(s.elems);
    }
  }

  /** The text of an element list, position by position. */
  lemma ElemsSplit(t: Text, pos: nat, p1: nat, p2: nat, p3: nat, es: seq<Elem>)
    requires es != []
    requires p1 == pos + |es[0].before| && p2 == p1 + |Render(es[0].v)| && p3 == p2 + |es[0].after|
    ensures pos + |RenderElems(es)| == p3 + 1 + if |es| == 1 then 0 else |RenderElems(es[1..])|
    ensures At(t, pos, RenderElems(es)) <==>
      && At(t, pos, es[0].before) && At(t, p1, Render(es[0].v)) && At(t, p2, es[0].after)
      && if |es| == 1 then At(t, p3, [RBRACKET])
         else At(t, p3, [COMMA]) && At(t, p3 + 1, RenderElems(es[1..]))
  {
    var tail := if |es| == 1 then [RBRACKET] else [COMMA] + RenderElems(es[1..]);
    AtConcat4(t, pos, p1, p2, p3, es[0].before, Render(es[0].v), es[0].after, tail);
    if |es| > 1 { AtConcat(t, p3, [COMMA], RenderElems(es[1..])); }
  }

  /** After a value come white space and then c, which is no white space. */
  lemma AfterValue(t: Text, p2: nat, p3: nat, after: Text, c: Code)
    requires AllWs(after) && At(t, p2, after) && p3 == p2 + |after| && At(t, p3, [c])
    requires c == COMMA || c == RBRACKET || c == RBRACE
    ensures p3 < |t| && t[p3] == c && WsEnd(t, p2) == p3 && Delimited(t, p2)
  {
    AtOne(t, p3, c);
    WsEndAt(t, p2, after);
    if after != [] { AtIndex(t, p2, after, 0); }
  }

  /** Where the parts of the first element and the rest of its list lie. */
  lemma ElemPositions(t: Text, pos: nat, es: seq<Elem>) returns (p1: nat, p2: nat, p3: nat)
    requires es != [] && ElemsFormed(es) && At(t, pos, RenderElems(es))
    ensures WsEnd(t, pos) == p1 < |t| && StartsValue(t[p1])
    ensures At(t, p1, Render(es[0].v)) && p2 == p1 + |Render(es[0].v)| <= |t| && Delimited(t, p2)
    ensures WsEnd(t, p2) == p3 < |t|
    ensures pos + |RenderElems(es)| == p3 + 1 + if |es| == 1 then 0 else |RenderElems(es[1..])|
    ensures if |es| == 1 then t[p3] == RBRACKET else t[p3] == COMMA && At(t, p3 + 1, RenderElems(es[1..]))
  {
    var e := es[0];
    p1 := pos + |e.before|;
    p2 := p1 + |Render(e.v)|;
    p3 := p2 + |e.after|;
    ElemsSplit(t, pos, p1, p2, p3, es);
    ElemStarts(t, pos, p1, e);
    if |es| == 1 { AfterValue(t, p2, p3, e.after, RBRACKET); } else { AfterValue(t, p2, p3, e.after, COMMA); }
  }

  lemma ElemStarts(t: Text, pos: nat, p1: nat, e: Elem)
    requires AllWs(e.before) && Formed(e.v) && p1 == pos + |e.before| && At(t, pos, e.before) && At(t, p1, Render(e.v))
    ensures WsEnd(t, pos) == p1 < |t| && StartsValue(t[p1])
  {
    ValueStart(t, p1, e.v);
    WsEndAt(t, pos, e.before);
  }

  lemma {:induction false} ElemsComplete(t: Text, pos: nat, end: nat, es: seq<Elem>, depth: nat, items: seq<J.Json>)
    requires es != [] && ElemsFormed(es) && ElemsStrict(es, depth + 1)
    requires At(t, pos, RenderElems(es)) && end == pos + |RenderElems(es)|
    ensures WsEnd(t, pos) < |t| && StartsValue(t[WsEnd(t, pos)])
    ensures Inside(t, WsEnd(t, pos), depth, ArrFrame(items)) == Ok((J.Arr(items + ElemsMeaning(es)), end))
    decreases es, 0
  {
    var p1, p2, p3 := ElemPositions(t, pos, es);
    ValueComplete(t, p1, p2, es[0].v, depth + 1);
    ElemResume(t, p2, p3, end, es, depth, items);
  }

  lemma ElemsMeaningStep(items: seq<J.Json>, es: seq<Elem>)
    requires es != [] && ElemsFormed(es)
    ensures items + [Meaning(es[0].v)] + ElemsMeaning(es[1..]) == items + ElemsMeaning(es)
  {}

  /** The element is stored and the array goes on with the rest of its list. */
  lemma {:induction false} ElemResume(t: Text, p2: nat, p3: nat, end: nat, es: seq<Elem>, depth: nat, items: seq<J.Json>)
    requires es != [] && ElemsFormed(es) && ElemsStrict(es, depth + 1)
    requires p2 <= p3 < |t| && WsEnd(t, p2) == p3
    requires end == p3 + 1 + if |es| == 1 then 0 else |RenderElems(es[1..])|
    requires if |es| == 1 then t[p3] == RBRACKET else t[p3] == COMMA && At(t, p3 + 1, RenderElems(es[1..]))
    ensures Resume(t, p2, depth, ArrFrame(items), Meaning(es[0].v)) ==
            Ok((J.Arr(items + ElemsMeaning(es)), end))
    decreases es, 0, 0
  {
    var rest, more := es[1..], items + [Meaning(es[0].v)];
    ElemsMeaningStep(items, es);
    if |es| == 1 {
      assert more + ElemsMeaning(rest) == more;
    } else {
      ElemsComplete(t, p3 + 1, end, rest, depth, more);
    }
  }

  lemma {:induction false} ObjectComplete(t: Text, pos: nat, end: nat, s: Syntax, depth: nat)
    requires s.ObjLit? && Strict(s, depth) && At(t, pos, Render(s)) && end == pos + |Render(s)|
    ensures ValueAt(t, pos, depth) == Ok((Meaning(s), end))
    decreases s, 1
  {
    if s.entries == [] {
      EmptyObjectComplete(t, pos, end, s.pad, depth);
    } else {
      OpenBracket(t, pos, LBRACE, RenderEntries(s.entries));
      var q := EntriesComplete(t, pos + 1, end, s.entries, depth, map[]);
      EmptyUnion(EntriesMeaning(s.entries));
      ObjectEnters(t, pos, depth, PartsMeaning(s.entries[0].key), q);
    }
  }

  lemma EmptyObjectComplete(t: Text, pos: nat, end: nat, pad: Text, depth: nat)
    requires AllWs(pad) && depth <= J.MAX_WALK_DEPTH
    requires At(t, pos, [LBRACE] + (pad + [RBRACE])) && end == pos + |pad| + 2
    ensures ValueAt(t, pos, depth) == Ok((J.Obj(map[]), end))
  {
    OpenBracket(t, pos, LBRACE, pad + [RBRACE]);
    EmptyBrackets(t, pos + 1, pad, RBRACE);
  }

  /** An object with members goes on behind its first key. */
  lemma ObjectEnters(t: Text, pos: nat, depth: nat, key: Text, q: nat)
    requires pos < |t| && t[pos] == LBRACE && depth <= J.MAX_WALK_DEPTH
    requires WsEnd(t, pos + 1) < |t| && t[WsEnd(t, pos + 1)] == QUOTE && KeyAt(t, WsEnd(t, pos + 1)) == Ok((key, q))
    ensures q <= |t| && ValueAt(t, pos, depth) == Inside(t, q, depth, ObjFrame(map[], key))
  {}

  lemma EmptyUnion(m: map<Text, J.Json>)
    ensures map[] + m == m
  {}

  /** The text of a member list, position by position: first up to the colon, then after it. */
  lemma EntriesSplit(t: Text, pos: nat, p1: nat, p2: nat, p3: nat, es: seq<Entry>)
    requires es != []
    requires p1 == pos + |es[0].before| && p2 == p1 + |RenderString(es[0].key)| && p3 == p2 + |es[0].afterKey|
    ensures pos + |RenderEntries(es)| == p3 + 1 + |EntryValue(es)|
    ensures At(t, pos, RenderEntries(es)) <==>
      && At(t, pos, es[0].before) && At(t, p1, RenderString(es[0].key)) && At(t, p2, es[0].afterKey)
      && At(t, p3, [COLON]) && At(t, p3 + 1, EntryValue(es))
  {
    var a, b, c, d := es[0].before, RenderString(es[0].key), es[0].afterKey, EntryValue(es);
    EntriesText(es);
    AtConcat5(t, pos, p1, p2, p3, a, b, c, COLON, d);
  }

  lemma AtConcat5(t: Text, pos: nat, p1: nat, p2: nat, p3: nat, a: Text, b: Text, c: Text, x: Code, d: Text)
    requires p1 == pos + |a| && p2 == p1 + |b| && p3 == p2 + |c|
    ensures At(t, pos, a + (b + (c + ([x] + d)))) <==>
      At(t, pos, a) && At(t, p1, b) && At(t, p2, c) && At(t, p3, [x]) && At(t, p3 + 1, d)
    ensures pos + |a + (b + (c + ([x] + d)))| == p3 + 1 + |d|
  {
    var e := [x] + d;
    AtConcat4(t, pos, p1, p2, p3, a, b, c, e);
    AtConcat(t, p3, [x], d);
  }

  lemma EntriesText(es: seq<Entry>)
    requires es != []
    ensures RenderEntries(es) ==
            es[0].before + (RenderString(es[0].key) + (es[0].afterKey + ([COLON] + EntryValue(es))))
  {}

  function EntryTail(es: seq<Entry>): Text
    requires es != []
  {
    if |es| == 1 then [RBRACE] else [COMMA] + RenderEntries(es[1..])
  }

  /** What follows the first colon. */
  function EntryValue(es: seq<Entry>): Text
    requires es != []
  {
    es[0].beforeValue + (Render(es[0].v) + (es[0].after + EntryTail(es)))
  }

  lemma EntryValueSplit(t: Text, p3: nat, p4: nat, p5: nat, p6: nat, es: seq<Entry>)
    requires es != []
    requires p4 == p3 + 1 + |es[0].beforeValue| && p5 == p4 + |Render(es[0].v)| && p6 == p5 + |es[0].after|
    ensures p3 + 1 + |EntryValue(es)| == p6 + 1 + if |es| == 1 then 0 else |RenderEntries(es[1..])|
    ensures At(t, p3 + 1, EntryValue(es)) <==>
      && At(t, p3 + 1, es[0].beforeValue) && At(t, p4, Render(es[0].v)) && At(t, p5, es[0].after)
      && if |es| == 1 then At(t, p6, [RBRACE])
         else At(t, p6, [COMMA]) && At(t, p6 + 1, RenderEntries(es[1..]))
  {
    var a, b, c, d := es[0].beforeValue, Render(es[0].v), es[0].after, EntryTail(es);
    assert EntryValue(es) == a + (b + (c + d));
    AtConcat4(t, p3 + 1, p4, p5, p6, a, b, c, d);
    TailSplit(t, p6, es);
  }

  lemma TailSplit(t: Text, p6: nat, es: seq<Entry>)
    requires es != []
    ensures |EntryTail(es)| == 1 + if |es| == 1 then 0 else |RenderEntries(es[1..])|
    ensures At(t, p6, EntryTail(es)) <==>
      if |es| == 1 then At(t, p6, [RBRACE]) else At(t, p6, [COMMA]) && At(t, p6 + 1, RenderEntries(es[1..]))
  {
    if |es| > 1 { AtConcat(t, p6, [COMMA], RenderEntries(es[1..])); }
  }

  /** A quoted key, white space, a colon, white space. */
  lemma KeyRead(t: Text, p1: nat, p2: nat, p3: nat, p4: nat, key: Text)
    requires p1 < |t| && t[p1] == QUOTE && StringFrom(t, p1 + 1, []) == Ok((key, p2))
    requires p2 <= |t| && WsEnd(t, p2) == p3 < |t| && t[p3] == COLON && WsEnd(t, p3 + 1) == p4
    ensures KeyAt(t, p1) == Ok((key, p4))
  {}

  lemma ColonThere(t: Text, p2: nat, p3: nat, p4: nat, e: Entry)
    requires AllWs(e.afterKey) && AllWs(e.beforeValue) && p3 == p2 + |e.afterKey| && p4 == p3 + 1 + |e.beforeValue|
    requires At(t, p2, e.afterKey) && At(t, p3, [COLON])
    requires At(t, p3 + 1, e.beforeValue) && p4 < |t| && StartsValue(t[p4])
    ensures p2 <= |t| && WsEnd(t, p2) == p3 < |t| && t[p3] == COLON && WsEnd(t, p3 + 1) == p4
  {
    AtOne(t, p3, COLON);
    WsEndAt(t, p2, e.afterKey);
    WsEndAt(t, p3 + 1, e.beforeValue);
  }

  lemma KeyComplete(t: Text, p1: nat, p2: nat, p3: nat, p4: nat, e: Entry)
    requires StrictParts(e.key) && AllWs(e.afterKey) && AllWs(e.beforeValue)
    requires p2 == p1 + |RenderString(e.key)| && p3 == p2 + |e.afterKey| && p4 == p3 + 1 + |e.beforeValue|
    requires At(t, p1, RenderString(e.key)) && At(t, p2, e.afterKey) && At(t, p3, [COLON])
    requires At(t, p3 + 1, e.beforeValue) && p4 < |t| && StartsValue(t[p4])
    ensures p1 < |t| && t[p1] == QUOTE && KeyAt(t, p1) == Ok((PartsMeaning(e.key), p4))
  {
    QuotedComplete(t, p1, p2, e.key);
    ColonThere(t, p2, p3, p4, e);
    KeyRead(t, p1, p2, p3, p4, PartsMeaning(e.key));
  }

  /** The keys still to come are new and pairwise distinct. */
  ghost predicate FreshKeys(es: seq<Entry>, members: map<Text, J.Json>)
    requires EntriesFormed(es)
  {
    DistinctKeys(es) && EntriesMeaning(es).Keys !! members.Keys
  }

  lemma FreshStep(es: seq<Entry>, members: map<Text, J.Json>, v: J.Json)
    requires es != [] && EntriesFormed(es) && FreshKeys(es, members)
    ensures PartsMeaning(es[0].key) !in members
    ensures FreshKeys(es[1..], members[PartsMeaning(es[0].key) := v])
  {
    assert PartsMeaning(es[0].key) in EntriesMeaning(es);
  }

  lemma EntriesMeaningStep(es: seq<Entry>, members: map<Text, J.Json>)
    requires es != [] && EntriesFormed(es) && EntriesFormed(es[1..])
    ensures members[PartsMeaning(es[0].key) := Meaning(es[0].v)] + EntriesMeaning(es[1..]) ==
            members + EntriesMeaning(es)
  {}

  /** Where the parts of the first member lie, up to its value. */
  lemma KeyPositions(t: Text, pos: nat, es: seq<Entry>) returns (p1: nat, p3: nat, q: nat)
    requires es != [] && EntriesFormed(es) && StrictParts(es[0].key) && At(t, pos, RenderEntries(es))
    ensures WsEnd(t, pos) == p1 < |t| && t[p1] == QUOTE
    ensures q <= |t| && KeyAt(t, p1) == Ok((PartsMeaning(es[0].key), q))
    ensures q == p3 + 1 + |es[0].beforeValue| && At(t, p3 + 1, EntryValue(es))
    ensures pos + |RenderEntries(es)| == p3 + 1 + |EntryValue(es)|
  {
    var e := es[0];
    p1 := pos + |e.before|;
    var p2 := p1 + |RenderString(e.key)|;
    p3 := p2 + |e.afterKey|;
    q := p3 + 1 + |e.beforeValue|;
    EntriesSplit(t, pos, p1, p2, p3, es);
    ValueBegins(t, p3, q, es);
    KeyThere(t, pos, p1, p2, p3, q, e);
  }

  lemma KeyThere(t: Text, pos: nat, p1: nat, p2: nat, p3: nat, q: nat, e: Entry)
    requires StrictParts(e.key) && AllWs(e.before) && AllWs(e.afterKey) && AllWs(e.beforeValue)
    requires p1 == pos + |e.before| && p2 == p1 + |RenderString(e.key)|
    requires p3 == p2 + |e.afterKey| && q == p3 + 1 + |e.beforeValue|
    requires At(t, pos, e.before) && At(t, p1, RenderString(e.key)) && At(t, p2, e.afterKey) && At(t, p3, [COLON])
    requires At(t, p3 + 1, e.beforeValue) && q < |t| && StartsValue(t[q])
    ensures WsEnd(t, pos) == p1 < |t| && t[p1] == QUOTE && KeyAt(t, p1) == Ok((PartsMeaning(e.key), q))
  {
    KeyComplete(t, p1, p2, p3, q, e);
    WsEndAt(t, pos, e.before);
  }

  /** Behind the colon and white space the value begins. */
  lemma ValueBegins(t: Text, p3: nat, q: nat, es: seq<Entry>)
    requires es != [] && EntriesFormed(es) && At(t, p3 + 1, EntryValue(es)) && q == p3 + 1 + |es[0].beforeValue|
    ensures At(t, p3 + 1, es[0].beforeValue) && q < |t| && StartsValue(t[q])
  {
    var e := es[0];
    EntryValueSplit(t, p3, q, q + |Render(e.v)|, q + |Render(e.v)| + |e.after|, es);
    ValueStart(t, q, e.v);
  }

  lemma {:induction false} EntriesComplete(t: Text, pos: nat, end: nat, es: seq<Entry>, depth: nat, members: map<Text, J.Json>)
    returns (q: nat)
    requires es != [] && EntriesFormed(es) && FreshKeys(es, members)
    requires EntriesStrict(es, depth + 1)
    requires At(t, pos, RenderEntries(es)) && end == pos + |RenderEntries(es)|
    ensures WsEnd(t, pos) < |t| && t[WsEnd(t, pos)] == QUOTE && q <= |t|
    ensures KeyAt(t, WsEnd(t, pos)) == Ok((PartsMeaning(es[0].key), q))
    ensures Inside(t, q, depth, ObjFrame(members, PartsMeaning(es[0].key))) ==
            Ok((J.Obj(members + EntriesMeaning(es)), end))
    decreases es, 0
  {
    var p1, p3, q' := KeyPositions(t, pos, es);
    q := q';
    EntryInside(t, p3, q, end, es, depth, members);
  }

  /** Where the parts of the first member lie, from its value on. */
  lemma EntryPositions(t: Text, p3: nat, q: nat, es: seq<Entry>) returns (p5: nat, p6: nat)
    requires es != [] && EntriesFormed(es) && At(t, p3 + 1, EntryValue(es))
    requires q == p3 + 1 + |es[0].beforeValue|
    ensures At(t, q, Render(es[0].v)) && p5 == q + |Render(es[0].v)| <= |t| && Delimited(t, p5)
    ensures WsEnd(t, p5) == p6 < |t|
    ensures p3 + 1 + |EntryValue(es)| == p6 + 1 + if |es| == 1 then 0 else |RenderEntries(es[1..])|
    ensures if |es| == 1 then t[p6] == RBRACE else t[p6] == COMMA && At(t, p6 + 1, RenderEntries(es[1..]))
  {
    var e := es[0];
    p5 := q + |Render(e.v)|;
    p6 := p5 + |e.after|;
    EntryValueSplit(t, p3, q, p5, p6, es);
    AfterValue(t, p5, p6, e.after, if |es| == 1 then RBRACE else COMMA);
  }

  /** The value after the colon and everything behind it. */
  lemma {:induction false} EntryInside(t: Text, p3: nat, q: nat, end: nat, es: seq<Entry>, depth: nat, members: map<Text, J.Json>)
    requires es != [] && EntriesFormed(es) && FreshKeys(es, members)
    requires EntriesStrict(es, depth + 1)
    requires At(t, p3 + 1, EntryValue(es)) && q == p3 + 1 + |es[0].beforeValue| <= |t|
    requires end == p3 + 1 + |EntryValue(es)|
    ensures Inside(t, q, depth, ObjFrame(members, PartsMeaning(es[0].key))) ==
            Ok((J.Obj(members + EntriesMeaning(es)), end))
    decreases es, 0, 1
  {
    var p5, p6 := EntryPositions(t, p3, q, es);
    ValueComplete(t, q, p5, es[0].v, depth + 1);
    EntryResume(t, p5, p6, end, es, depth, members);
  }

  /** The member is stored and the object goes on with the rest of its list. */
  lemma {:induction false} EntryResume(t: Text, p5: nat, p6: nat, end: nat, es: seq<Entry>, depth: nat, members: map<Text, J.Json>)
    requires es != [] && EntriesFormed(es) && FreshKeys(es, members)
    requires EntriesStrict(es, depth + 1)
    requires p5 <= p6 < |t| && WsEnd(t, p5) == p6
    requires end == p6 + 1 + if |es| == 1 then 0 else |RenderEntries(es[1..])|
    requires if |es| == 1 then t[p6] == RBRACE else t[p6] == COMMA && At(t, p6 + 1, RenderEntries(es[1..]))
    ensures Resume(t, p5, depth, ObjFrame(members, PartsMeaning(es[0].key)), Meaning(es[0].v)) ==
            Ok((J.Obj(members + EntriesMeaning(es)), end))
    decreases es, 0, 0
  {
    var key, v := PartsMeaning(es[0].key), Meaning(es[0].v);
    FreshStep(es, members, v);
    var rest, more := es[1..], members[key := v];
    if |es| == 1 {
      LastMeaning(es, members);
      ObjectEnds(t, p5, p6, depth, members, key, v);
    } else {
      EntriesMeaningStep(es, members);
      var q := EntriesComplete(t, p6 + 1, end, rest, depth, more);
      ObjectResumes(t, p5, p6, depth, members, key, v, PartsMeaning(rest[0].key), q, more);
    }
  }

  lemma LastMeaning(es: seq<Entry>, members: map<Text, J.Json>)
    requires |es| == 1 && EntriesFormed(es)
    ensures members + EntriesMeaning(es) == members[PartsMeaning(es[0].key) := Meaning(es[0].v)]
  {
    assert es[1..] == [];
  }

  lemma ObjectEnds(t: Text, p5: nat, p6: nat, depth: nat, members: map<Text, J.Json>, key: Text, v: J.Json)
    requires p5 <= p6 < |t| && WsEnd(t, p5) == p6 && t[p6] == RBRACE && key !in members
    ensures Resume(t, p5, depth, ObjFrame(members, key), v) == Ok((J.Obj(members[key := v]), p6 + 1))
  {}

  /** Behind a comma an object goes on with the next key. */
  lemma ObjectResumes(t: Text, p5: nat, p6: nat, depth: nat, members: map<Text, J.Json>, key: Text, v: J.Json, next: Text, q: nat,
                      more: map<Text, J.Json>)
    requires more == members[key := v]
    requires p5 <= p6 < |t| && WsEnd(t, p5) == p6 && t[p6] == COMMA && key !in members
    requires WsEnd(t, p6 + 1) < |t| && KeyAt(t, WsEnd(t, p6 + 1)) == Ok((next, q)) && q <= |t|
    ensures Resume(t, p5, depth, ObjFrame(members, key), v) == Inside(t, q, depth, ObjFrame(more, next))
  {}

  /** Every strict document is accepted, and read as what it means. */
  lemma DocumentComplete(d: Document)
    requires IsStrictDocument(d)
    ensures DocumentOf(RenderDocument(d)) == Ok(Meaning(d.v))
  {
    var t := RenderDocument(d);
    var p1 := |d.before|;
    var p2 := p1 + |Render(d.v)|;
    DocumentText(t, d.before, Render(d.v), d.after);
    ValueStart(t, p1, d.v);
    WsEndAt(t, 0, d.before);
    WsEndAt(t, p2, d.after);
    if d.after != [] { AtIndex(t, p2, d.after, 0); }
    ValueComplete(t, p1, p2, d.v, 0);
  }

  // ---------------------------------------------------------------------
  // Soundness of values
  // ---------------------------------------------------------------------

  /** The finished container c still holds what its frame held, and v where it was waited for. */
  ghost predicate Keeps(frame: Frame, v: J.Json, c: J.Json)
  {
    match frame
    case ArrFrame(items) => c.Arr? && items + [v] <= c.items
    case ObjFrame(members, key) => c.Obj? && key !in members && members[key := v].Items <= c.members.Items
  }

  lemma {:induction false} ResumeKeeps(t: Text, pos: nat, depth: nat, frame: Frame, v: J.Json)
    requires pos <= |t| && Resume(t, pos, depth, frame, v).Ok?
    ensures Keeps(frame, v, Resume(t, pos, depth, frame, v).value.0)
    decreases |t| - pos
  {
    var q := WsEnd(t, pos);
    if t[q] == COMMA {
      if frame.ArrFrame? {
        InsideKeeps(t, WsEnd(t, q + 1), depth, ArrFrame(frame.items + [v]));
      } else {
        var k := KeyAt(t, WsEnd(t, q + 1)).value;
        InsideKeeps(t, k.1, depth, ObjFrame(frame.members[frame.key := v], k.0));
      }
    }
  }

  lemma {:induction false} InsideKeeps(t: Text, pos: nat, depth: nat, frame: Frame)
    requires pos <= |t| && Inside(t, pos, depth, frame).Ok?
    ensures var c := Inside(t, pos, depth, frame).value.0;
      match frame
      case ArrFrame(items) => c.Arr? && items <= c.items
      case ObjFrame(members, key) => c.Obj? && members.Items <= c.members.Items && key !in members && key in c.members
    decreases |t| - pos
  {
    var r := ValueAt(t, pos, depth + 1).value;
    ResumeKeeps(t, r.1, depth, frame, r.0);
    if frame.ObjFrame? {
      var m, c := frame.members[frame.key := r.0], Inside(t, pos, depth, frame).value.0;
      forall kv | kv in frame.members.Items ensures kv in c.members.Items { assert kv in m.Items; }
      assert (frame.key, r.0) in m.Items;
    }
  }

  /** White space skipped from pos, as a text. */
  lemma WsAt(t: Text, pos: nat) returns (ws: Text)
    requires pos <= |t|
    ensures AllWs(ws) && At(t, pos, ws) && WsEnd(t, pos) == pos + |ws|
  {
    WsEndSound(t, pos);
    ws := t[pos..WsEnd(t, pos)];
  }

  /** Members of a finished container that the walk accepts are themselves accepted. */
  lemma KeptWalks(frame: Frame, v: J.Json, c: J.Json, depth: nat)
    requires Keeps(frame, v, c) && J.Walks(c, depth, J.CleanNode)
    ensures J.Walks(v, depth + 1, J.CleanNode)
    ensures frame.ObjFrame? ==> J.IsClean(frame.key)
  {
    match frame
    case ArrFrame(items) => assert c.items[|items|] == (items + [v])[|items|] == v;
    case ObjFrame(members, key) =>
      assert (key, v) in members[key := v].Items;
      assert key in c.members && c.members[key] == v;
  }

  lemma {:induction false} ValueSound(t: Text, pos: nat, depth: nat, v: J.Json, end: nat) returns (s: Syntax)
    requires pos <= |t| && ValueAt(t, pos, depth) == Ok((v, end)) && J.Walks(v, depth, J.CleanNode)
    ensures Strict(s, depth) && At(t, pos, Render(s)) && end == pos + |Render(s)| && Meaning(s) == v
    decreases |t| - pos, 0, 1
  {
    if t[pos] == LBRACE {
      s := ObjectSound(t, pos, depth, v, end);
    } else if t[pos] == LBRACKET {
      s := ArraySound(t, pos, depth, v, end);
    } else if t[pos] == QUOTE {
      var ps := QuotedSound(t, pos, v.s, end);
      s := StrLit(ps);
    } else if t[pos] == MINUS || IsDigit(t[pos]) {
      var n := NumberSound(t, pos, v, end);
      s := NumLit(n);
    } else {
      s := KeywordSound(t, pos, v, end);
    }
  }

  lemma NumberSound(t: Text, pos: nat, v: J.Json, end: nat) returns (n: Numeral)
    requires pos < |t| && NumberAt(t, pos) == Ok((v, end))
    ensures NumeralFormed(n) && StrictNumeral(n) && NumeralMeaning(n) == v
    ensures At(t, pos, RenderNumeral(n)) && end == pos + |RenderNumeral(n)|
  {
    n := MatchNumber(t, pos).value.0;
    MatchSound(t, pos, n, end);
  }

  lemma KeywordSound(t: Text, pos: nat, v: J.Json, end: nat) returns (s: Syntax)
    requires pos < |t| && KeywordAt(t, pos) == Ok((v, end))
    ensures s.NullLit? || s.TrueLit? || s.FalseLit?
    ensures At(t, pos, Render(s)) && end == pos + |Render(s)| && Meaning(s) == v
  {
    s := if StartsWith(t, pos, TRUE_TEXT) then TrueLit
         else if StartsWith(t, pos, FALSE_TEXT) then FalseLit else NullLit;
  }

  lemma QuotedSound(t: Text, pos: nat, str: Text, end: nat) returns (ps: seq<Part>)
    requires pos < |t| && t[pos] == QUOTE && StringFrom(t, pos + 1, []) == Ok((str, end)) && J.IsClean(str)
    ensures StrictParts(ps) && At(t, pos, RenderString(ps))
    ensures PartsMeaning(ps) == str && end == pos + |RenderString(ps)|
  {
    ps := StringSound(t, pos + 1, [], str, end);
    AtOne(t, pos, QUOTE);
    AtConcat(t, pos, [QUOTE], RenderParts(ps));
    assert [] + PartsMeaning(ps) == PartsMeaning(ps);
  }

  /** Brackets around nothing but white space. */
  lemma EmptySound(t: Text, pos: nat, o: Code, pad: Text, c: Code)
    requires pos < |t| && t[pos] == o && At(t, pos + 1, pad)
    requires pos + 1 + |pad| < |t| && t[pos + 1 + |pad|] == c
    ensures At(t, pos, [o] + (pad + [c]))
  {
    AtOne(t, pos, o);
    AtOne(t, pos + 1 + |pad|, c);
    AtConcat(t, pos + 1, pad, [c]);
    AtConcat(t, pos, [o], pad + [c]);
  }

  lemma {:induction false} ArraySound(t: Text, pos: nat, depth: nat, v: J.Json, end: nat) returns (s: Syntax)
    requires pos < |t| && t[pos] == LBRACKET && ValueAt(t, pos, depth) == Ok((v, end))
    requires J.Walks(v, depth, J.CleanNode)
    ensures Strict(s, depth) && At(t, pos, Render(s)) && end == pos + |Render(s)| && Meaning(s) == v
    decreases |t| - pos, 0, 0
  {
    var pad := WsAt(t, pos + 1);
    var p := WsEnd(t, pos + 1);
    if t[p] == RBRACKET {
      s := ArrLit(pad, []);
      EmptySound(t, pos, LBRACKET, pad, RBRACKET);
    } else {
      var es := ElemsSound(t, pos + 1, p, pad, depth, [], v, end);
      s := ArrLit([], es);
      Bracketed(t, pos, es);
    }
  }

  /** An opening bracket before an element list; the list starts from no items. */
  lemma Bracketed(t: Text, pos: nat, es: seq<Elem>)
    requires pos < |t| && t[pos] == LBRACKET && es != [] && ElemsFormed(es) && At(t, pos + 1, RenderElems(es))
    ensures At(t, pos, [LBRACKET] + RenderElems(es)) && [] + ElemsMeaning(es) == ElemsMeaning(es)
  {
    AtOne(t, pos, LBRACKET);
    AtConcat(t, pos, [LBRACKET], RenderElems(es));
  }

  /** An element list, starting with white space. */
  lemma {:induction false} ElemsSound(t: Text, pos: nat, p1: nat, before: Text, depth: nat, items: seq<J.Json>, c: J.Json, end: nat)
    returns (es: seq<Elem>)
    requires AllWs(before) && At(t, pos, before) && p1 == pos + |before|
    requires Inside(t, p1, depth, ArrFrame(items)) == Ok((c, end)) && J.Walks(c, depth, J.CleanNode)
    ensures es != [] && ElemsFormed(es) && ElemsStrict(es, depth + 1) && At(t, pos, RenderElems(es))
    ensures c == J.Arr(items + ElemsMeaning(es)) && end == pos + |RenderElems(es)|
    decreases |t| - p1, 1
  {
    var v0, p2, q, more := InsideArray(t, p1, depth, items, c, end);
    var v := ValueSound(t, p1, depth + 1, v0, p2);
    var after := WsAt(t, p2);
    var rest := ElemsRest(t, q, depth, more, c, end);
    es := JoinElems(t, pos, p1, p2, q, Elem(before, v, after), rest);
    ElemsMeaningStep(items, es);
  }

  /** One element read: its value, the position after it, and what follows. */
  lemma InsideArray(t: Text, p1: nat, depth: nat, items: seq<J.Json>, c: J.Json, end: nat)
    returns (v0: J.Json, p2: nat, q: nat, more: seq<J.Json>)
    requires p1 <= |t| && Inside(t, p1, depth, ArrFrame(items)) == Ok((c, end)) && J.Walks(c, depth, J.CleanNode)
    ensures ValueAt(t, p1, depth + 1) == Ok((v0, p2)) && J.Walks(v0, depth + 1, J.CleanNode)
    ensures p1 < p2 <= q < |t| && WsEnd(t, p2) == q && more == items + [v0]
    ensures ArrayGoesOn(t, q, depth, more, c, end)
  {
    v0, p2 := ValueAt(t, p1, depth + 1).value.0, ValueAt(t, p1, depth + 1).value.1;
    q, more := WsEnd(t, p2), items + [v0];
    ResumeKeeps(t, p2, depth, ArrFrame(items), v0);
    KeptWalks(ArrFrame(items), v0, c, depth);
  }

  ghost predicate ArrayGoesOn(t: Text, q: nat, depth: nat, items: seq<J.Json>, c: J.Json, end: nat)
  {
    q < |t| &&
    if t[q] == COMMA then Inside(t, WsEnd(t, q + 1), depth, ArrFrame(items)) == Ok((c, end))
    else t[q] == RBRACKET && c == J.Arr(items) && end == q + 1
  }

  lemma JoinElems(t: Text, pos: nat, p1: nat, p2: nat, q: nat, e: Elem, rest: seq<Elem>) returns (es: seq<Elem>)
    requires p1 == pos + |e.before| && p2 == p1 + |Render(e.v)| && q == p2 + |e.after|
    requires At(t, pos, e.before) && At(t, p1, Render(e.v)) && At(t, p2, e.after)
    requires if rest == [] then At(t, q, [RBRACKET]) else At(t, q, [COMMA]) && At(t, q + 1, RenderElems(rest))
    ensures es == [e] + rest && es[1..] == rest && At(t, pos, RenderElems(es))
    ensures pos + |RenderElems(es)| == q + 1 + if rest == [] then 0 else |RenderElems(rest)|
  {
    es := [e] + rest;
    assert es[0] == e && es[1..] == rest;
    ElemsSplit(t, pos, p1, p2, q, es);
  }

  /** After an element: a closing bracket, or a comma and a further list. */
  lemma {:induction false} ElemsRest(t: Text, q: nat, depth: nat, items: seq<J.Json>, c: J.Json, end: nat)
    returns (rest: seq<Elem>)
    requires ArrayGoesOn(t, q, depth, items, c, end) && J.Walks(c, depth, J.CleanNode)
    ensures ElemsFormed(rest) && ElemsStrict(rest, depth + 1)
    ensures if rest == [] then At(t, q, [RBRACKET]) else At(t, q, [COMMA]) && At(t, q + 1, RenderElems(rest))
    ensures c == J.Arr(items + ElemsMeaning(rest))
    ensures end == q + 1 + if rest == [] then 0 else |RenderElems(rest)|
    decreases |t| - q, 0
  {
    AtOne(t, q, t[q]);
    if t[q] == COMMA {
      var ws := WsAt(t, q + 1);
      rest := ElemsSound(t, q + 1, WsEnd(t, q + 1), ws, depth, items, c, end);
    } else {
      rest := [];
      assert items + ElemsMeaning(rest) == items;
    }
  }

  /** A key read from white space on, up to the value behind its colon. */
  lemma KeySound(t: Text, pos: nat, p1: nat, before: Text, key: Text, q: nat) returns (e: Entry, p2: nat, p3: nat)
    requires AllWs(before) && At(t, pos, before) && p1 == pos + |before|
    requires KeyAt(t, p1) == Ok((key, q)) && J.IsClean(key)
    ensures e.before == before && StrictParts(e.key) && AllWs(e.afterKey) && AllWs(e.beforeValue)
    ensures PartsMeaning(e.key) == key && q == p3 + 1 + |e.beforeValue|
    ensures p2 == p1 + |RenderString(e.key)| && p3 == p2 + |e.afterKey|
    ensures At(t, p1, RenderString(e.key)) && At(t, p2, e.afterKey)
    ensures At(t, p3, [COLON]) && At(t, p3 + 1, e.beforeValue)
  {
    p2 := StringFrom(t, p1 + 1, []).value.1;
    var ps := QuotedSound(t, p1, key, p2);
    var afterKey := WsAt(t, p2);
    p3 := WsEnd(t, p2);
    AtOne(t, p3, COLON);
    var beforeValue := WsAt(t, p3 + 1);
    e := Entry(before, ps, afterKey, beforeValue, NullLit, []);
  }

  lemma {:induction false} ObjectSound(t: Text, pos: nat, depth: nat, v: J.Json, end: nat) returns (s: Syntax)
    requires pos < |t| && t[pos] == LBRACE && ValueAt(t, pos, depth) == Ok((v, end))
    requires J.Walks(v, depth, J.CleanNode)
    ensures Strict(s, depth) && At(t, pos, Render(s)) && end == pos + |Render(s)| && Meaning(s) == v
    decreases |t| - pos, 0, 0
  {
    var pad := WsAt(t, pos + 1);
    var p := WsEnd(t, pos + 1);
    ObjectOpens(t, pos, depth, v, end);
    if t[p] == RBRACE {
      s := ObjLit(pad, []);
      EmptyObjectSound(t, pos, p, pad, depth);
    } else {
      var es := EntriesSound(t, pos + 1, p, pad, depth, map[], v, end);
      s := ObjLit([], es);
      Braced(t, pos, es);
      StrictObject([], es, depth);
    }
  }

  lemma EmptyObjectSound(t: Text, pos: nat, p: nat, pad: Text, depth: nat)
    requires AllWs(pad) && depth <= J.MAX_WALK_DEPTH && p == pos + 1 + |pad|
    requires p < |t| && t[pos] == LBRACE && At(t, pos + 1, pad) && t[p] == RBRACE
    ensures var s := ObjLit(pad, []);
      Strict(s, depth) && Meaning(s) == J.Obj(map[]) && At(t, pos, Render(s)) && pos + |Render(s)| == p + 1
  {
    EmptySound(t, pos, LBRACE, pad, RBRACE);
    StrictObject(pad, [], depth);
  }

  /** An object literal with strict members is strict. */
  lemma StrictObject(pad: Text, es: seq<Entry>, depth: nat)
    requires AllWs(pad) && depth <= J.MAX_WALK_DEPTH
    requires EntriesFormed(es) && DistinctKeys(es) && EntriesStrict(es, depth + 1)
    ensures Strict(ObjLit(pad, es), depth) && Meaning(ObjLit(pad, es)) == J.Obj(EntriesMeaning(es))
  {}

  lemma ObjectOpens(t: Text, pos: nat, depth: nat, v: J.Json, end: nat)
    requires pos < |t| && t[pos] == LBRACE && ValueAt(t, pos, depth) == Ok((v, end))
    ensures depth <= J.MAX_WALK_DEPTH
    ensures var p := WsEnd(t, pos + 1);
      p < |t| && if t[p] == RBRACE then v == J.Obj(map[]) && end == p + 1 else ReadsMembers(t, p, depth, map[], v, end)
  {}

  /** An opening brace before a member list; the list starts from no members. */
  lemma Braced(t: Text, pos: nat, es: seq<Entry>)
    requires pos < |t| && t[pos] == LBRACE && es != [] && EntriesFormed(es) && At(t, pos + 1, RenderEntries(es))
    ensures At(t, pos, [LBRACE] + RenderEntries(es)) && map[] + EntriesMeaning(es) == EntriesMeaning(es)
  {
    AtOne(t, pos, LBRACE);
    AtConcat(t, pos, [LBRACE], RenderEntries(es));
    EmptyUnion(EntriesMeaning(es));
  }

  /** The members read from pos on make up the object c. */
  ghost predicate ReadsMembers(t: Text, pos: nat, depth: nat, members: map<Text, J.Json>, c: J.Json, end: nat)
  {
    pos <= |t| && KeyAt(t, pos).Ok? &&
    Inside(t, KeyAt(t, pos).value.1, depth, ObjFrame(members, KeyAt(t, pos).value.0)) == Ok((c, end))
  }

  /** A member list, starting with white space. */
  lemma {:induction false} EntriesSound(t: Text, pos: nat, p1: nat, before: Text, depth: nat, members: map<Text, J.Json>, c: J.Json, end: nat)
    returns (es: seq<Entry>)
    requires AllWs(before) && At(t, pos, before) && p1 == pos + |before|
    requires ReadsMembers(t, p1, depth, members, c, end) && J.Walks(c, depth, J.CleanNode)
    ensures es != [] && EntriesFormed(es) && EntriesStrict(es, depth + 1) && FreshKeys(es, members)
    ensures At(t, pos, RenderEntries(es)) && end == pos + |RenderEntries(es)|
    ensures c == J.Obj(members + EntriesMeaning(es))
    decreases |t| - p1, 2
  {
    var key, q := KeyAt(t, p1).value.0, KeyAt(t, p1).value.1;
    InsideKeeps(t, q, depth, ObjFrame(members, key));
    var e, p2, p3 := KeySound(t, pos, p1, before, key, q);
    es := EntrySound(t, p3, q, depth, members, e, c, end);
    EntriesSplit(t, pos, p1, p2, p3, es);
  }

  /** The value behind a colon, and everything after it. */
  lemma {:induction false} EntrySound(t: Text, p3: nat, q: nat, depth: nat, members: map<Text, J.Json>, e: Entry, c: J.Json, end: nat)
    returns (es: seq<Entry>)
    requires AllWs(e.before) && StrictParts(e.key) && AllWs(e.afterKey) && AllWs(e.beforeValue)
    requires PartsMeaning(e.key) !in members
    requires At(t, p3 + 1, e.beforeValue) && q == p3 + 1 + |e.beforeValue|
    requires Inside(t, q, depth, ObjFrame(members, PartsMeaning(e.key))) == Ok((c, end))
    requires J.Walks(c, depth, J.CleanNode)
    ensures es != [] && EntriesFormed(es) && EntriesStrict(es, depth + 1) && FreshKeys(es, members)
    ensures es[0] == e.(v := es[0].v, after := es[0].after)
    ensures At(t, p3 + 1, EntryValue(es)) && end == p3 + 1 + |EntryValue(es)|
    ensures c == J.Obj(members + EntriesMeaning(es))
    decreases |t| - q, 1
  {
    var v0, p5, p6, more := InsideObject(t, q, depth, members, PartsMeaning(e.key), c, end);
    var v := ValueSound(t, q, depth + 1, v0, p5);
    var after := WsAt(t, p5);
    var rest := EntriesRest(t, p6, depth, more, c, end);
    es := JoinEntries(e.(v := v, after := after), rest, depth, members);
    EntryValueSplit(t, p3, q, p5, p6, es);
  }

  /** One member value read: the value, the position after it, and what follows. */
  lemma InsideObject(t: Text, q: nat, depth: nat, members: map<Text, J.Json>, key: Text, c: J.Json, end: nat)
    returns (v0: J.Json, p5: nat, p6: nat, more: map<Text, J.Json>)
    requires q <= |t| && Inside(t, q, depth, ObjFrame(members, key)) == Ok((c, end)) && J.Walks(c, depth, J.CleanNode)
    ensures ValueAt(t, q, depth + 1) == Ok((v0, p5)) && J.Walks(v0, depth + 1, J.CleanNode)
    ensures q < p5 <= p6 < |t| && WsEnd(t, p5) == p6 && more == members[key := v0]
    ensures ObjectGoesOn(t, p6, depth, more, c, end)
  {
    v0, p5 := ValueAt(t, q, depth + 1).value.0, ValueAt(t, q, depth + 1).value.1;
    p6, more := WsEnd(t, p5), members[key := v0];
    ResumeKeeps(t, p5, depth, ObjFrame(members, key), v0);
    KeptWalks(ObjFrame(members, key), v0, c, depth);
  }

  ghost predicate ObjectGoesOn(t: Text, q: nat, depth: nat, members: map<Text, J.Json>, c: J.Json, end: nat)
  {
    q < |t| &&
    if t[q] == COMMA then ReadsMembers(t, WsEnd(t, q + 1), depth, members, c, end)
    else t[q] == RBRACE && c == J.Obj(members) && end == q + 1
  }

  /** A new first member in front of a list that knows its key. */
  lemma JoinEntries(e: Entry, rest: seq<Entry>, depth: nat, members: map<Text, J.Json>) returns (es: seq<Entry>)
    requires AllWs(e.before) && StrictParts(e.key) && AllWs(e.afterKey) && AllWs(e.beforeValue) && AllWs(e.after)
    requires Strict(e.v, depth + 1) && EntriesFormed(rest) && EntriesStrict(rest, depth + 1)
    requires PartsMeaning(e.key) !in members
    requires FreshKeys(rest, members[PartsMeaning(e.key) := Meaning(e.v)])
    ensures es == [e] + rest && es[1..] == rest
    ensures EntriesFormed(es) && EntriesStrict(es, depth + 1) && FreshKeys(es, members)
    ensures members[PartsMeaning(e.key) := Meaning(e.v)] + EntriesMeaning(rest) == members + EntriesMeaning(es)
  {
    es := [e] + rest;
    assert es[0] == e && es[1..] == rest;
    var key, more := PartsMeaning(e.key), members[PartsMeaning(e.key) := Meaning(e.v)];
    assert key in more && key !in EntriesMeaning(rest);
    assert forall k :: k in members ==> k in more;
    assert EntriesMeaning(es).Keys == {key} + EntriesMeaning(rest).Keys;
    EntriesMeaningStep(es, members);
  }

  /** After a member: a closing brace, or a comma and a further list. */
  lemma {:induction false} EntriesRest(t: Text, q: nat, depth: nat, members: map<Text, J.Json>, c: J.Json, end: nat)
    returns (rest: seq<Entry>)
    requires ObjectGoesOn(t, q, depth, members, c, end) && J.Walks(c, depth, J.CleanNode)
    ensures EntriesFormed(rest) && EntriesStrict(rest, depth + 1) && FreshKeys(rest, members)
    ensures if rest == [] then At(t, q, [RBRACE]) else At(t, q, [COMMA]) && At(t, q + 1, RenderEntries(rest))
    ensures c == J.Obj(members + EntriesMeaning(rest))
    ensures end == q + 1 + if rest == [] then 0 else |RenderEntries(rest)|
    decreases |t| - q, 0
  {
    AtOne(t, q, t[q]);
    if t[q] == COMMA {
      var ws := WsAt(t, q + 1);
      rest := EntriesSound(t, q + 1, WsEnd(t, q + 1), ws, depth, members, c, end);
    } else {
      rest := [];
      assert members + EntriesMeaning(rest) == members;
    }
  }

  /** A value between white space, filling the whole text. */
  lemma DocumentText(t: Text, before: Text, r: Text, after: Text)
    ensures t == before + r + after <==>
            |t| == |before| + |r| + |after| && At(t, 0, before) && At(t, |before|, r) && At(t, |before| + |r|, after)
  {
    AtConcat(t, 0, before + r, after);
    AtConcat(t, 0, before, r);
    assert t[0..|t|] == t;
  }

  /** Whatever is accepted is a strict document, read as what it means. */
  lemma DocumentSound(t: Text, v: J.Json) returns (d: Document)
    requires Load(t) == Ok(v)
    ensures IsStrictDocument(d) && RenderDocument(d) == t && Meaning(d.v) == v
  {
    var before := WsAt(t, 0);
    var p1 := WsEnd(t, 0);
    var p2 := LoadReads(t, v);
    var s := ValueSound(t, p1, 0, v, p2);
    var after := WsAt(t, p2);
    d := Document(before, s, after);
    JoinDocument(t, p1, p2, d, v);
  }

  lemma JoinDocument(t: Text, p1: nat, p2: nat, d: Document, v: J.Json)
    requires AllWs(d.before) && AllWs(d.after) && Strict(d.v, 0) && Meaning(d.v) == v && v.Obj?
    requires p1 == |d.before| && p2 == p1 + |Render(d.v)| && |t| == p2 + |d.after|
    requires At(t, 0, d.before) && At(t, p1, Render(d.v)) && At(t, p2, d.after)
    ensures IsStrictDocument(d) && RenderDocument(d) == t
  {
    DocumentText(t, d.before, Render(d.v), d.after);
    ObjectSyntax(d.v);
  }

  lemma LoadReads(t: Text, v: J.Json) returns (p2: nat)
    requires Load(t) == Ok(v)
    ensures ValueAt(t, WsEnd(t, 0), 0) == Ok((v, p2)) && p2 <= |t| && WsEnd(t, p2) == |t|
    ensures v.Obj? && J.Walks(v, 0, J.CleanNode)
  {
    p2 := ValueAt(t, WsEnd(t, 0), 0).value.1;
  }

  /** Only object syntax means an object. */
  lemma ObjectSyntax(s: Syntax)
    requires Formed(s)
    ensures Meaning(s).Obj? <==> s.ObjLit?
  {}

  // ---------------------------------------------------------------------
  // Strict syntax means acceptable values
  // ---------------------------------------------------------------------

  lemma {:induction false} ValBound(t: Text)
    requires AllDigits(t)
    ensures Val(t) < Pow10(|t|)
  {
    if t != [] { ValBound(t[..|t| - 1]); }
  }

  lemma {:induction false} PowMonotone(i: nat, j: nat)
    requires i <= j
    ensures Pow10(i) <= Pow10(j)
  {
    if i < j { PowMonotone(i, j - 1); }
  }

  lemma NumeralInModel(n: Numeral)
    requires NumeralFormed(n) && StrictNumeral(n)
    ensures J.ModelNode(NumeralMeaning(n)) && J.CleanNode(NumeralMeaning(n))
  {
    if IsIntegral(n) {
      ValBound(n.whole);
      PowMonotone(|n.whole|, J.MAX_INT_DIGITS);
    }
  }

  lemma PartsClean(ps: seq<Part>)
    requires StrictParts(ps)
    ensures J.IsClean(PartsMeaning(ps))
  {}

  /** The value of strict syntax passes both node checks at its depth. */
  lemma {:induction false} StrictWalks(s: Syntax, depth: nat)
    requires Strict(s, depth)
    ensures J.Walks(Meaning(s), depth, J.ModelNode) && J.Walks(Meaning(s), depth, J.CleanNode)
    decreases s, 1
  {
    match s {
      case NumLit(n) => NumeralInModel(n);
      case StrLit(ps) => PartsClean(ps);
      case ArrLit(_, es) => ElemsWalk(es, depth + 1);
      case ObjLit(_, es) => EntriesWalk(es, depth + 1);
      case _ =>
    }
  }

  lemma {:induction false} ElemsWalk(es: seq<Elem>, depth: nat)
    requires ElemsFormed(es) && ElemsStrict(es, depth)
    ensures forall i :: 0 <= i < |es| ==>
      J.Walks(ElemsMeaning(es)[i], depth, J.ModelNode) && J.Walks(ElemsMeaning(es)[i], depth, J.CleanNode)
    decreases es, 0
  {
    if es != [] {
      StrictWalks(es[0].v, depth);
      ElemsWalk(es[1..], depth);
      var vs, rest := ElemsMeaning(es), ElemsMeaning(es[1..]);
      forall i | 0 <= i < |es|
        ensures J.Walks(vs[i], depth, J.ModelNode) && J.Walks(vs[i], depth, J.CleanNode)
      {
        if i > 0 { assert vs[i] == rest[i - 1]; }
      }
    }
  }

  lemma {:induction false} EntriesWalk(es: seq<Entry>, depth: nat)
    requires EntriesFormed(es) && EntriesStrict(es, depth)
    ensures forall k :: k in EntriesMeaning(es) ==>
      && J.IsClean(k)
      && J.Walks(EntriesMeaning(es)[k], depth, J.ModelNode) && J.Walks(EntriesMeaning(es)[k], depth, J.CleanNode)
    decreases es, 0
  {
    if es != [] {
      StrictWalks(es[0].v, depth);
      PartsClean(es[0].key);
      EntriesWalk(es[1..], depth);
    }
  }

  // ---------------------------------------------------------------------
  // The main theorem
  // ---------------------------------------------------------------------

  lemma LoadComplete(d: Document)
    requires IsStrictDocument(d)
    ensures Load(RenderDocument(d)) == Ok(Meaning(d.v))
  {
    var t := RenderDocument(d);
    DocumentComplete(d);
    StrictWalks(d.v, 0);
    ObjectSyntax(d.v);
    assert t[|d.before|] == LBRACE;
    assert t[0] == if d.before == [] then LBRACE else d.before[0];
  }

  /**
   The parser is exactly the strict grammar: a text is accepted with value v if
   and only if it is the text of a strict document that means v.
   */
  lemma LoadIsStrictGrammar(t: Text, v: J.Json)
    ensures Load(t) == Ok(v) <==>
            exists d: Document :: IsStrictDocument(d) && RenderDocument(d) == t && Meaning(d.v) == v
  {
    if Load(t) == Ok(v) {
      var d := DocumentSound(t, v);
    }
    forall d: Document | IsStrictDocument(d) && RenderDocument(d) == t && Meaning(d.v) == v
      ensures Load(t) == Ok(v)
    {
      LoadComplete(d);
    }
  }

  /** Whatever is loaded can be serialized: the limits are closed under parsing. */
  lemma LoadedIsAcceptable(t: Text, v: J.Json)
    requires Load(t) == Ok(v)
    ensures v.Obj? && J.Acceptable(v)
  {
    var d := DocumentSound(t, v);
    StrictWalks(d.v, 0);
  }
}
