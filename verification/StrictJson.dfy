/**
 The strict parser. The functions are the recursive reading of the source's
 rules, error by error; the methods are the loops of the source, an explicit
 frame stack in `ParseDocument`, each proved to return what its function says.
 */
module StrictJson {
  import opened Texts
  import opened Numbers
  import opened Grammar
  import J = Json

  datatype ParseError =
    | EmptyInput
    | BomNotAllowed
    | UnexpectedEnd
    | TooDeep
    | ExpectedKey
    | ExpectedColon
    | UnterminatedString
    | UnterminatedEscape
    | InvalidUnicodeEscape
    | InvalidEscape
    | ControlCharacter
    | NonFinite
    | InvalidNumber
    | TooManyDigits
    | ScaleExceeded
    | InvalidValue
    | DuplicateKey
    | ExpectedCommaOrBracket
    | ExpectedCommaOrBrace
    | TrailingData
    | WalkRejected
    | NotAnObject

  datatype Result<+T> = Ok(value: T) | Err(error: ParseError)

  /** A value and the position after it. */
  type Parsed<T> = Result<(T, nat)>

  // ---------------------------------------------------------------------
  // White space
  // ---------------------------------------------------------------------

  function WsEnd(t: Text, pos: nat): (end: nat)
    requires pos <= |t|
    ensures pos <= end <= |t|
    decreases |t| - pos
  {
    if pos < |t| && IsWs(t[pos]) then WsEnd(t, pos + 1) else pos
  }

  /** `_skip_ws` */
  method SkipWs(t: Text, start: nat) returns (pos: nat)
    requires start <= |t|
    ensures pos == WsEnd(t, start)
  {
    pos := start;
    while pos < |t| && IsWs(t[pos])
      invariant start <= pos <= |t|
      invariant WsEnd(t, pos) == WsEnd(t, start)
    {
      pos := pos + 1;
    }
  }

  // ---------------------------------------------------------------------
  // Strings
  // ---------------------------------------------------------------------

  /** `_parse_unicode_escape`: four hex digits. */
  function HexAt(t: Text, pos: nat): (r: Result<Code>)
    requires pos <= |t|
  {
    if pos + 4 <= |t| && IsHex4(t[pos..pos + 4]) then Ok(HexValue(t[pos..pos + 4]))
    else Err(InvalidUnicodeEscape)
  }

  /** What a \u escape contributes; pos is just after the `u`. */
  function UnicodeAt(t: Text, pos: nat): (r: Parsed<Text>)
    requires pos <= |t|
    ensures r.Ok? ==> pos < r.value.1 <= |t|
  {
    match HexAt(t, pos)
    case Err(e) => Err(e)
    case Ok(code) =>
      var p := pos + 4;
      if IsHigh(code) && p + 2 <= |t| && t[p] == BACKSLASH && t[p + 1] == LOWER_U then
        match HexAt(t, p + 2)
        case Err(e) => Err(e)
        case Ok(low) =>
          Ok((if IsLow(low) then [Combine(code, low)] else [code, low], p + 6))
      else Ok(([code], p))
  }

  /** The rest of a string literal from pos, after `acc` has been read. */
  function StringFrom(t: Text, pos: nat, acc: Text): (r: Parsed<Text>)
    requires pos <= |t|
    ensures r.Ok? ==> pos < r.value.1 <= |t|
    decreases |t| - pos
  {
    if pos >= |t| then Err(UnterminatedString)
    else if t[pos] == QUOTE then Ok((acc, pos + 1))
    else if t[pos] == BACKSLASH then
      if pos + 1 >= |t| then Err(UnterminatedEscape)
      else if ShortMeaning(t[pos + 1]).Some? then
        StringFrom(t, pos + 2, acc + [ShortMeaning(t[pos + 1]).value])
      else if t[pos + 1] == LOWER_U then
        match UnicodeAt(t, pos + 2)
        case Err(e) => Err(e)
        case Ok((chars, p)) => StringFrom(t, p, acc + chars)
      else Err(InvalidEscape)
    else if t[pos] < 0x20 then Err(ControlCharacter)
    else StringFrom(t, pos + 1, acc + [t[pos]])
  }

  /** `_parse_string`; pos is at the opening quote. */
  method ParseString(t: Text, start: nat) returns (r: Parsed<Text>)
    requires start < |t|
    ensures r == StringFrom(t, start + 1, [])
  {
    var pos := start + 1;
    var out: Text := [];
    while true
      invariant pos <= |t|
      invariant StringFrom(t, pos, out) == StringFrom(t, start + 1, [])
      decreases |t| - pos
    {
      if pos >= |t| { return Err(UnterminatedString); }
      var ch := t[pos];
      if ch == QUOTE { return Ok((out, pos + 1)); }
      if ch == BACKSLASH {
        if pos + 1 >= |t| { return Err(UnterminatedEscape); }
        var esc := t[pos + 1];
        var short := ShortMeaning(esc);
        if short.Some? {
          out := out + [short.value];
          pos := pos + 2;
          continue;
        }
        if esc == LOWER_U {
          var code := HexAt(t, pos + 2);
          if code.Err? { return Err(code.error); }
          var p := pos + 6;
          if IsHigh(code.value) && p + 2 <= |t| && t[p] == BACKSLASH && t[p + 1] == LOWER_U {
            var low := HexAt(t, p + 2);
            if low.Err? { return Err(low.error); }
            if IsLow(low.value) {
              out := out + [Combine(code.value, low.value)];
            } else {
              out := out + [code.value, low.value];
            }
            pos := p + 6;
            continue;
          }
          out := out + [code.value];
          pos := p;
          continue;
        }
        return Err(InvalidEscape);
      }
      if ch < 0x20 { return Err(ControlCharacter); }
      out := out + [ch];
      pos := pos + 1;
    }
  }

  // ---------------------------------------------------------------------
  // Numbers and keywords
  // ---------------------------------------------------------------------

  function DigitsEnd(t: Text, pos: nat): (end: nat)
    requires pos <= |t|
    ensures pos <= end <= |t|
    ensures forall i :: pos <= i < end ==> IsDigit(t[i])
    ensures end < |t| ==> !IsDigit(t[end])
    decreases |t| - pos
  {
    if pos < |t| && IsDigit(t[pos]) then DigitsEnd(t, pos + 1) else pos
  }

  function SignEnd(t: Text, pos: nat): (end: nat)
    requires pos <= |t|
    ensures pos <= end <= |t|
  {
    if pos < |t| && (t[pos] == PLUS || t[pos] == MINUS) then pos + 1 else pos
  }

  function WholeEnd(t: Text, pos: nat): (end: nat)
    requires pos < |t| && IsDigit(t[pos])
    ensures pos < end <= |t|
  {
    if t[pos] == ZERO then pos + 1 else DigitsEnd(t, pos)
  }

  function FractionEnd(t: Text, pos: nat): (end: nat)
    requires pos <= |t|
    ensures pos <= end <= |t| && (end > pos ==> end > pos + 1)
  {
    if pos + 1 < |t| && t[pos] == DOT && IsDigit(t[pos + 1]) then DigitsEnd(t, pos + 1) else pos
  }

  function FractionAt(t: Text, pos: nat): (r: Text)
    requires pos <= |t|
  {
    var end := FractionEnd(t, pos);
    if end == pos then [] else t[pos + 1..end]
  }

  function ExponentEnd(t: Text, pos: nat): (end: nat)
    requires pos <= |t|
    ensures pos <= end <= |t|
    ensures end > pos ==> end > SignEnd(t, pos + 1)
  {
    if pos < |t| && (t[pos] == LOWER_E || t[pos] == UPPER_E) then
      var q := SignEnd(t, pos + 1);
      if q < |t| && IsDigit(t[q]) then DigitsEnd(t, q) else pos
    else pos
  }

  function ExponentAt(t: Text, pos: nat): (r: Option<Exponent>)
    requires pos <= |t|
  {
    var end := ExponentEnd(t, pos);
    if end == pos then None
    else
      var q := SignEnd(t, pos + 1);
      Some(Exponent(t[pos], t[pos + 1..q], t[q..end]))
  }

  /** The longest match of the number pattern after its sign, and where it ends. */
  function MatchUnsigned(t: Text, pos: nat, neg: bool): (r: Option<(Numeral, nat)>)
    requires pos <= |t|
    ensures r.Some? ==> NumeralFormed(r.value.0) && pos < r.value.1 <= |t|
  {
    if pos < |t| && IsDigit(t[pos]) then
      var p2 := WholeEnd(t, pos);
      var p3 := FractionEnd(t, p2);
      Some((Numeral(neg, t[pos..p2], FractionAt(t, p2), ExponentAt(t, p3)), ExponentEnd(t, p3)))
    else None
  }

  function MatchNumber(t: Text, pos: nat): (r: Option<(Numeral, nat)>)
    requires pos <= |t|
    ensures r.Some? ==> NumeralFormed(r.value.0) && pos < r.value.1 <= |t|
  {
    if pos < |t| && t[pos] == MINUS then MatchUnsigned(t, pos + 1, true)
    else MatchUnsigned(t, pos, false)
  }

  predicate IsNumberDelimiter(c: Code) { IsWs(c) || c == COMMA || c == RBRACKET || c == RBRACE }

  predicate Delimited(t: Text, pos: nat)
    requires pos <= |t|
  {
    pos < |t| ==> IsNumberDelimiter(t[pos])
  }

  /** `_parse_int` and `_parse_decimal`: the frozen limits, then the exact value. */
  function NumeralValue(n: Numeral): Result<J.Json>
    requires NumeralFormed(n)
  {
    if StrictNumeral(n) then Ok(NumeralMeaning(n))
    else if IsIntegral(n) then Err(TooManyDigits)
    else Err(ScaleExceeded)
  }

  /** `_parse_number` */
  function NumberAt(t: Text, pos: nat): (r: Parsed<J.Json>)
    requires pos <= |t|
    ensures r.Ok? ==> pos < r.value.1 <= |t|
  {
    match MatchNumber(t, pos)
    case None => Err(InvalidNumber)
    case Some((n, end)) =>
      if !Delimited(t, end) then Err(InvalidNumber)
      else
        match NumeralValue(n)
        case Err(e) => Err(e)
        case Ok(v) => Ok((v, end))
  }

  /** `text.startswith(w, pos)` */
  predicate StartsWith(t: Text, pos: nat, w: Text)
  {
    pos + |w| <= |t| && t[pos..pos + |w|] == w
  }

  const NAN_TEXT: Text := [0x4E, 0x61, 0x4E]
  const INFINITY_TEXT: Text := [0x49, 0x6E, 0x66, 0x69, 0x6E, 0x69, 0x74, 0x79]

  /** `_parse_keyword` */
  function KeywordAt(t: Text, pos: nat): (r: Parsed<J.Json>)
    requires pos <= |t|
    ensures r.Ok? ==> pos < r.value.1 <= |t|
  {
    if StartsWith(t, pos, TRUE_TEXT) then Ok((J.Bool(true), pos + 4))
    else if StartsWith(t, pos, FALSE_TEXT) then Ok((J.Bool(false), pos + 5))
    else if StartsWith(t, pos, NULL_TEXT) then Ok((J.Null, pos + 4))
    else if StartsWith(t, pos, NAN_TEXT) || StartsWith(t, pos, INFINITY_TEXT) then Err(NonFinite)
    else Err(InvalidValue)
  }

  // ---------------------------------------------------------------------
  // Values
  // ---------------------------------------------------------------------

  /** An open container: what it holds so far, and the key waiting for its value. */
  datatype Frame =
    | ArrFrame(items: seq<J.Json>)
    | ObjFrame(members: map<Text, J.Json>, key: Text)

  /** `_parse_object_key`: the key and the position of its value. */
  function KeyAt(t: Text, pos: nat): (r: Parsed<Text>)
    requires pos <= |t|
    ensures r.Ok? ==> pos < r.value.1 <= |t|
  {
    if pos >= |t| || t[pos] != QUOTE then Err(ExpectedKey)
    else
      match StringFrom(t, pos + 1, [])
      case Err(e) => Err(e)
      case Ok((key, p)) =>
        var q := WsEnd(t, p);
        if q >= |t| || t[q] != COLON then Err(ExpectedColon)
        else Ok((key, WsEnd(t, q + 1)))
  }

  /** The value at pos, inside `depth` open containers. */
  function ValueAt(t: Text, pos: nat, depth: nat): (r: Parsed<J.Json>)
    requires pos <= |t|
    ensures r.Ok? ==> pos < r.value.1 <= |t|
    decreases |t| - pos, 0
  {
    if pos >= |t| then Err(UnexpectedEnd)
    else if t[pos] == LBRACE then
      if depth > J.MAX_WALK_DEPTH then Err(TooDeep)
      else
        var p := WsEnd(t, pos + 1);
        if p < |t| && t[p] == RBRACE then Ok((J.Obj(map[]), p + 1))
        else
          match KeyAt(t, p)
          case Err(e) => Err(e)
          case Ok((key, q)) => Inside(t, q, depth, ObjFrame(map[], key))
    else if t[pos] == LBRACKET then
      if depth > J.MAX_WALK_DEPTH then Err(TooDeep)
      else
        var p := WsEnd(t, pos + 1);
        if p < |t| && t[p] == RBRACKET then Ok((J.Arr([]), p + 1))
        else Inside(t, p, depth, ArrFrame([]))
    else if t[pos] == QUOTE then
      match StringFrom(t, pos + 1, [])
      case Err(e) => Err(e)
      case Ok((s, p)) => Ok((J.Str(s), p))
    else if t[pos] == MINUS || IsDigit(t[pos]) then
      if StartsWith(t, pos, [MINUS] + INFINITY_TEXT) then Err(NonFinite) else NumberAt(t, pos)
    else KeywordAt(t, pos)
  }

  /** The rest of an open container whose next value starts at pos. */
  function Inside(t: Text, pos: nat, depth: nat, frame: Frame): (r: Parsed<J.Json>)
    requires pos <= |t|
    ensures r.Ok? ==> pos < r.value.1 <= |t|
    decreases |t| - pos, 1
  {
    match ValueAt(t, pos, depth + 1)
    case Err(e) => Err(e)
    case Ok((v, p)) => Resume(t, p, depth, frame, v)
  }

  /** The rest of an open container after `v` has been completed for it. */
  function Resume(t: Text, pos: nat, depth: nat, frame: Frame, v: J.Json): (r: Parsed<J.Json>)
    requires pos <= |t|
    ensures r.Ok? ==> pos < r.value.1 <= |t|
    decreases |t| - pos, 2
  {
    var q := WsEnd(t, pos);
    match frame
    case ArrFrame(items) =>
      if q < |t| && t[q] == COMMA then
        Inside(t, WsEnd(t, q + 1), depth, ArrFrame(items + [v]))
      else if q < |t| && t[q] == RBRACKET then Ok((J.Arr(items + [v]), q + 1))
      else Err(ExpectedCommaOrBracket)
    case ObjFrame(members, key) =>
      if key in members then Err(DuplicateKey)
      else if q < |t| && t[q] == COMMA then
        match KeyAt(t, WsEnd(t, q + 1))
        case Err(e) => Err(e)
        case Ok((next, p)) => Inside(t, p, depth, ObjFrame(members[key := v], next))
      else if q < |t| && t[q] == RBRACE then Ok((J.Obj(members[key := v]), q + 1))
      else Err(ExpectedCommaOrBrace)
  }

  /** One whole text: a value between white space. */
  function DocumentOf(t: Text): Result<J.Json>
  {
    match ValueAt(t, WsEnd(t, 0), 0)
    case Err(e) => Err(e)
    case Ok((v, p)) => if WsEnd(t, p) == |t| then Ok(v) else Err(TrailingData)
  }

  // ---------------------------------------------------------------------
  // The stack machine
  // ---------------------------------------------------------------------

  /** What remains to be read when `v` is complete and `stack` is still open. */
  ghost function Unwind(t: Text, pos: nat, stack: seq<Frame>, v: J.Json): Parsed<J.Json>
    requires pos <= |t|
    decreases |stack|
  {
    if stack == [] then Ok((v, pos))
    else
      var outer := stack[..|stack| - 1];
      match Resume(t, pos, |outer|, stack[|outer|], v)
      case Err(e) => Err(e)
      case Ok((c, p)) => Unwind(t, p, outer, c)
  }

  /** What remains to be read when the next value starts at pos and `stack` is open. */
  ghost function Continue(t: Text, pos: nat, stack: seq<Frame>): Parsed<J.Json>
    requires pos <= |t|
  {
    match ValueAt(t, pos, |stack|)
    case Err(e) => Err(e)
    case Ok((v, p)) => Unwind(t, p, stack, v)
  }

  /** What remains when the contents of this frame above the others are read from pos on. */
  ghost function AfterInside(t: Text, pos: nat, left: seq<Frame>, frame: Frame): Parsed<J.Json>
    requires pos <= |t|
  {
    match Inside(t, pos, |left|, frame)
    case Err(e) => Err(e)
    case Ok((c, p)) => Unwind(t, p, left, c)
  }

  /** Opening a container only splits the remaining work between the new frame and the old ones. */
  lemma Push(t: Text, pos: nat, stack: seq<Frame>, frame: Frame)
    requires pos <= |t|
    ensures Continue(t, pos, stack + [frame]) == AfterInside(t, pos, stack, frame)
  {
    var frames := stack + [frame];
    assert frames[..|frames| - 1] == stack;
  }

  method ParseObjectKey(t: Text, pos: nat) returns (r: Parsed<Text>)
    requires pos <= |t|
    ensures r == KeyAt(t, pos)
  {
    if pos >= |t| || t[pos] != QUOTE { return Err(ExpectedKey); }
    var s := ParseString(t, pos);
    if s.Err? { return Err(s.error); }
    var q := SkipWs(t, s.value.1);
    if q >= |t| || t[q] != COLON { return Err(ExpectedColon); }
    q := SkipWs(t, q + 1);
    return Ok((s.value.0, q));
  }

  /** How the machine goes on: a finished value to attach, or a value to read next. */
  datatype Move = Completed(v: J.Json, pos: nat) | ReadAt(stack: seq<Frame>, pos: nat)

  /** The outcome of the whole document is kept by one move, which consumes text; `open` is what a finished value returns to. */
  ghost predicate MovesOn(t: Text, pos: nat, open: seq<Frame>, outcome: Parsed<J.Json>, r: Result<Move>)
  {
    if r.Err? then outcome == Err(r.error)
    else
      && pos < r.value.pos <= |t|
      && outcome ==
           if r.value.Completed? then Unwind(t, r.value.pos, open, r.value.v) else Continue(t, r.value.pos, r.value.stack)
  }

  /** The value-reading half of the loop body: a scalar, an empty container, or one more open frame. */
  method ReadValue(t: Text, pos: nat, stack: seq<Frame>) returns (r: Result<Move>)
    requires pos <= |t|
    ensures MovesOn(t, pos, stack, Continue(t, pos, stack), r)
  {
    if pos >= |t| { return Err(UnexpectedEnd); }
    var ch := t[pos];
    if ch == LBRACE {
      if |stack| > J.MAX_WALK_DEPTH { return Err(TooDeep); }
      var p := SkipWs(t, pos + 1);
      if p < |t| && t[p] == RBRACE { return Ok(Completed(J.Obj(map[]), p + 1)); }
      var key := ParseObjectKey(t, p);
      if key.Err? { return Err(key.error); }
      Push(t, key.value.1, stack, ObjFrame(map[], key.value.0));
      return Ok(ReadAt(stack + [ObjFrame(map[], key.value.0)], key.value.1));
    } else if ch == LBRACKET {
      if |stack| > J.MAX_WALK_DEPTH { return Err(TooDeep); }
      var p := SkipWs(t, pos + 1);
      if p < |t| && t[p] == RBRACKET { return Ok(Completed(J.Arr([]), p + 1)); }
      Push(t, p, stack, ArrFrame([]));
      return Ok(ReadAt(stack + [ArrFrame([])], p));
    } else if ch == QUOTE {
      var s := ParseString(t, pos);
      if s.Err? { return Err(s.error); }
      return Ok(Completed(J.Str(s.value.0), s.value.1));
    }
    var scalar;
    if ch == MINUS || IsDigit(ch) {
      if StartsWith(t, pos, [MINUS] + INFINITY_TEXT) { return Err(NonFinite); }
      scalar := NumberAt(t, pos);
    } else {
      scalar := KeywordAt(t, pos);
    }
    if scalar.Err? { return Err(scalar.error); }
    return Ok(Completed(scalar.value.0, scalar.value.1));
  }

  /** What remains once v has been given to this frame above the others. */
  ghost function AfterAttach(t: Text, pos: nat, left: seq<Frame>, frame: Frame, v: J.Json): Parsed<J.Json>
    requires pos <= |t|
  {
    match Resume(t, pos, |left|, frame, v)
    case Err(e) => Err(e)
    case Ok((c, p)) => Unwind(t, p, left, c)
  }

  method AttachItem(t: Text, pos: nat, left: seq<Frame>, items: seq<J.Json>, v: J.Json) returns (r: Result<Move>)
    requires pos <= |t|
    ensures MovesOn(t, pos, left, AfterAttach(t, pos, left, ArrFrame(items), v), r)
  {
    var more := items + [v];
    var q := SkipWs(t, pos);
    if q < |t| && t[q] == COMMA {
      q := SkipWs(t, q + 1);
      Push(t, q, left, ArrFrame(more));
      return Ok(ReadAt(left + [ArrFrame(more)], q));
    }
    if q < |t| && t[q] == RBRACKET { return Ok(Completed(J.Arr(more), q + 1)); }
    return Err(ExpectedCommaOrBracket);
  }

  method AttachMember(t: Text, pos: nat, left: seq<Frame>, members: map<Text, J.Json>, key: Text, v: J.Json)
    returns (r: Result<Move>)
    requires pos <= |t|
    ensures MovesOn(t, pos, left, AfterAttach(t, pos, left, ObjFrame(members, key), v), r)
  {
    if key in members { return Err(DuplicateKey); }
    var more := members[key := v];
    var q := SkipWs(t, pos);
    if q < |t| && t[q] == COMMA {
      q := SkipWs(t, q + 1);
      var next := ParseObjectKey(t, q);
      if next.Err? { return Err(next.error); }
      Push(t, next.value.1, left, ObjFrame(more, next.value.0));
      return Ok(ReadAt(left + [ObjFrame(more, next.value.0)], next.value.1));
    }
    if q < |t| && t[q] == RBRACE { return Ok(Completed(J.Obj(more), q + 1)); }
    return Err(ExpectedCommaOrBrace);
  }

  /** The attaching half: give `v` to the innermost frame, which may close in turn. */
  method Attach(t: Text, pos: nat, stack: seq<Frame>, v: J.Json) returns (r: Result<Move>, left: seq<Frame>)
    requires pos <= |t| && stack != []
    ensures |left| == |stack| - 1 && MovesOn(t, pos, left, Unwind(t, pos, stack, v), r)
  {
    var frame := stack[|stack| - 1];
    left := stack[..|stack| - 1];
    assert Unwind(t, pos, stack, v) == AfterAttach(t, pos, left, frame, v);
    if frame.ArrFrame? {
      r := AttachItem(t, pos, left, frame.items, v);
    } else {
      r := AttachMember(t, pos, left, frame.members, frame.key, v);
    }
  }

  /** `_parse_document`: two nested loops over an explicit stack of open containers. */
  method ParseDocument(t: Text) returns (r: Result<J.Json>)
    ensures r == DocumentOf(t)
  {
    var pos := SkipWs(t, 0);
    ghost var whole := Continue(t, pos, []);
    var stack: seq<Frame> := [];
    var root := J.Null;
    var haveRoot := false;
    while !haveRoot
      invariant pos <= |t|
      invariant whole == if haveRoot then Ok((root, pos)) else Continue(t, pos, stack)
      decreases !haveRoot, |t| - pos
    {
      var move := ReadValue(t, pos, stack);
      if move.Err? { return Err(move.error); }
      var next := move.value;
      while next.Completed? && stack != []
        invariant next.pos <= |t| && next.pos > pos
        invariant whole == if next.Completed? then Unwind(t, next.pos, stack, next.v)
                           else Continue(t, next.pos, next.stack)
        decreases |t| - next.pos
      {
        var step, left := Attach(t, next.pos, stack, next.v);
        if step.Err? { return Err(step.error); }
        next := step.value;
        stack := left;
      }
      pos := next.pos;
      if next.Completed? {
        root, haveRoot := next.v, true;
      } else {
        stack := next.stack;
      }
    }
    var end := SkipWs(t, pos);
    if end != |t| { return Err(TrailingData); }
    return Ok(root);
  }

  // ---------------------------------------------------------------------
  // The public entry
  // ---------------------------------------------------------------------

  const BOM: Code := 0xFEFF

  /** White space in Python's sense, as `str.strip` removes it. */
  predicate IsPythonSpace(c: Code)
  {
    0x09 <= c <= 0x0D || 0x1C <= c <= 0x20 || c == 0x85 || c == 0xA0 || c == 0x1680 ||
    0x2000 <= c <= 0x200A || c == 0x2028 || c == 0x2029 || c == 0x202F || c == 0x205F || c == 0x3000
  }

  predicate IsBlank(t: Text) { forall i :: 0 <= i < |t| ==> IsPythonSpace(t[i]) }

  /** `load_strict_json` on text: parse, then the post-parse walk, then the top-level check. */
  ghost function Load(t: Text): Result<J.Json>
  {
    if t != [] && t[0] == BOM then Err(BomNotAllowed)
    else if IsBlank(t) then Err(EmptyInput)
    else
      match DocumentOf(t)
      case Err(e) => Err(e)
      case Ok(v) =>
        if !J.HasCleanText(v) then Err(WalkRejected)
        else if !v.Obj? then Err(NotAnObject)
        else Ok(v)
  }

  method LoadStrictJson(t: Text) returns (r: Result<J.Json>)
    ensures r == Load(t)
  {
    if t != [] && t[0] == BOM { return Err(BomNotAllowed); }
    if IsBlank(t) { return Err(EmptyInput); }
    var data := ParseDocument(t);
    if data.Err? { return data; }
    var clean := J.WalkTree(data.value, J.CleanNode);
    if !clean { return Err(WalkRejected); }
    if !data.value.Obj? { return Err(NotAnObject); }
    return data;
  }
}
