/**
 The assumptions made of the outside world can be met: a concrete hash, registry
 and record that satisfy them.
 */
module KernelExample {
  import opened Texts
  import opened Manifest
  import opened Store
  import opened Publication
  import J = Json
  import C = Canonical
  import R = RoundTrip

  /** One lower-case hex digit. */
  function Digit(d: nat): Code
    requires d < 16
  {
    if d < 10 then 0x30 + d else 0x57 + d
  }

  function Pow16(n: nat): nat { if n == 0 then 1 else 16 * Pow16(n - 1) }

  /** The n lowest hex digits of c. */
  function Digits(c: nat, n: nat): (t: Text)
    ensures |t| == n
    ensures forall i :: 0 <= i < |t| ==> 0x30 <= t[i] <= 0x39 || 0x61 <= t[i] <= 0x66
  {
    if n == 0 then [] else Digits(c / 16, n - 1) + [Digit(c % 16)]
  }

  lemma {:induction false} DigitsInjective(a: nat, b: nat, n: nat)
    requires a < Pow16(n) && b < Pow16(n) && Digits(a, n) == Digits(b, n)
    ensures a == b
  {
    if n > 0 {
      assert Digits(a, n)[n - 1] == Digit(a % 16) && Digits(b, n)[n - 1] == Digit(b % 16);
      assert Digits(a / 16, n - 1) == Digits(a, n)[..n - 1] && Digits(b / 16, n - 1) == Digits(b, n)[..n - 1];
      DigitsInjective(a / 16, b / 16, n - 1);
    }
  }

  /** A code point as six hex digits. */
  function Six(c: Code): (t: Text)
    ensures |t| == 6
  {
    Digits(c, 6)
  }

  lemma SixInjective(a: Code, b: Code)
    requires Six(a) == Six(b)
    ensures a == b
  {
    assert Pow16(1) == 16 && Pow16(2) == 256 && Pow16(3) == 4096;
    assert Pow16(4) == 0x10000 && Pow16(5) == 0x100000 && Pow16(6) == 0x1000000;
    DigitsInjective(a, b, 6);
  }

  /** A collision-free stand-in for a hash: the text itself, in hex, behind one digit. */
  function HexHash(t: Text): (h: Text)
    ensures |h| == 6 * |t| + 1
  {
    if t == [] then [0x30] else Six(t[0]) + HexHash(t[1..])
  }

  lemma HexHashSplit(t: Text)
    requires t != []
    ensures |HexHash(t)| >= 6 && Six(t[0]) == HexHash(t)[..6] && HexHash(t[1..]) == HexHash(t)[6..]
  {}

  lemma {:induction false} HexHashInjective(a: Text, b: Text)
    requires HexHash(a) == HexHash(b)
    ensures a == b
  {
    if a != [] {
      HexHashSplit(a);
      HexHashSplit(b);
      SixInjective(a[0], b[0]);
      HexHashInjective(a[1..], b[1..]);
      assert a == [a[0]] + a[1..] && b == [b[0]] + b[1..];
    }
  }

  lemma HexConcat(a: Text, b: Text)
    requires IsHexText(a) && IsHexText(b)
    ensures IsHexText(a + b)
  {}

  lemma {:induction false} HexHashIsHex(t: Text)
    ensures IsHexText(HexHash(t))
  {
    if t != [] {
      HexHashIsHex(t[1..]);
      HexConcat(Six(t[0]), HexHash(t[1..]));
    }
  }

  const FAMILY: Text := [0x61, 0x2F, 0x62]
  const ID_FIELD: Text := [0x69]

  function Example(): Kernel
  {
    Kernel(HexHash, n => true, map[FAMILY := ID_FIELD], (f, v) => true, p => true)
  }

  const PAYLOAD := J.Obj(map[K_SCHEMA := J.Str(FAMILY), ID_FIELD := J.Str([])])

  lemma PayloadIsAcceptable()
    ensures J.Acceptable(PAYLOAD)
  {
    assert J.Walks(J.Str(FAMILY), 1, J.ModelNode) && J.Walks(J.Str(FAMILY), 1, J.CleanNode);
    assert J.Walks(J.Str([]), 1, J.ModelNode) && J.Walks(J.Str([]), 1, J.CleanNode);
  }

  lemma FamilyIsFamily()
    ensures IsFamily(FAMILY)
  {
    assert FAMILY[1] == SLASH && FAMILY[..1] == [0x61] && FAMILY[2..] == [0x62];
  }

  lemma ExampleIsOk()
    ensures KernelOk(Example())
  {
    var k := Example();
    forall a, b | k.hash(a) == k.hash(b) ensures a == b { HexHashInjective(a, b); }
    forall t ensures IsDigest(k, k.hash(t)) { HexHashIsHex(t); }
    FamilyIsFamily();
  }

  lemma ExampleLoads(r: Record)
    requires r == Record(FAMILY, J.Normalize(PAYLOAD))
    ensures LoadedRecord(Example(), C.Dump(PAYLOAD)) == Some(r) && Identity(Example(), r).Some?
  {
    PayloadIsAcceptable();
    R.LoadOfDump(PAYLOAD);
    NormalMember(PAYLOAD, K_SCHEMA);
    NormalMember(PAYLOAD, ID_FIELD);
  }

  /** The example meets every assumption, and a record can be published under it. */
  lemma AssumptionsCanBeMet()
    ensures KernelOk(Example()) && exists r :: Publishable(Example(), r)
  {
    ExampleIsOk();
    var r := Record(FAMILY, J.Normalize(PAYLOAD));
    ExampleLoads(r);
    assert Publishable(Example(), r);
  }
}
