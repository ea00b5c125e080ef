/** Node ids and the text that NodeIdMap files them under. */
module NodeIds {
  import opened Bytes
  import opened Numerals

  datatype Identifier =
    | Numeric(number: nat)
    | Named(name: Text)
    | Guid(data1: nat, data2: nat, data3: nat, data4: Text)
    | Opaque(bytes: Text)

  datatype NodeId = NodeId(namespaceIndex: nat, id: Identifier)

  /** Upper-case hexadecimal digits, padded with zeros to the width. */
  function Hex(n: nat, width: nat): (t: Text)
    ensures |t| == width
    decreases width
  {
    if width == 0 then [] else Hex(n / 16, width - 1) + [HexDigit(n % 16)]
  }

  /** The eight bytes of a GUID's last part, with colons between them. */
  function ByteList(t: Text): Text {
    if t == [] then [] else Hex(t[0], 2) + (if |t| == 1 then [] else [COLON] + ByteList(t[1..]))
  }

  function GuidText(g: Identifier): Text
    requires g.Guid?
  {
    var last := [LBRACKET] + (ByteList(g.data4) + [RBRACKET]);
    Hex(g.data1, 8) + ([COLON] + (Hex(g.data2, 4) + ([COLON] + (Hex(g.data3, 4) + last))))
  }

  function IdText(id: Identifier): Text {
    match id
    case Numeric(n) => Decimal(n)
    case Named(s) => s
    case Opaque(s) => s
    case Guid(_, _, _, _) => GuidText(id)
  }

  /** toString of a node id. */
  function ToString(n: NodeId): Text {
    Decimal(n.namespaceIndex) + [COLON] + IdText(n.id)
  }

  /** The fields of a GUID have 32, 16, 16 and eight times 8 bits. */
  predicate Valid(n: NodeId) {
    n.id.Guid? ==> n.id.data1 < 0x1_0000_0000 && n.id.data2 < 0x1_0000 && n.id.data3 < 0x1_0000 && |n.id.data4| == 8
  }

  predicate SameKind(a: Identifier, b: Identifier) {
    a.Numeric? == b.Numeric? && a.Named? == b.Named? && a.Guid? == b.Guid?
  }

  // ---- what the text looks like ----

  /** `t` is the decimal numeral of `n`, without leading zeros. */
  predicate IsNumeral(t: Text, n: nat) {
    t != [] && AllDigits(t) && (t[0] == ZERO ==> |t| == 1) && DigitsFrom(t, 0) && Denoted(t, 0, 0) == n
  }

  /** `t` is made of upper-case hexadecimal digits and denotes `n`. */
  predicate IsHexNumeral(t: Text, n: nat) {
    if t == [] then n == 0
    else
      var last := t[|t| - 1];
      IsHexDigit(last) && last <= 0x46 && n % 16 == HexNumber(last) && IsHexNumeral(t[..|t| - 1], n / 16)
  }

  lemma {:induction false} HexIsNumeral(n: nat, width: nat)
    requires n < Power16(width)
    ensures IsHexNumeral(Hex(n, width), n)
    decreases width
  {
    if width > 0 {
      HexIsNumeral(n / 16, width - 1);
      assert Hex(n, width)[..width - 1] == Hex(n / 16, width - 1);
    }
  }

  lemma {:induction false} ByteListShape(t: Text)
    requires t != []
    ensures |ByteList(t)| == 3 * |t| - 1
    ensures forall i | 0 <= i < |t| :: ByteList(t)[3 * i..3 * i + 2] == Hex(t[i], 2)
    ensures forall i | 0 <= i < |t| - 1 :: ByteList(t)[3 * i + 2] == COLON
  {
    hide Hex, ByteList;
    if |t| > 1 {
      var u := t[1..];
      ByteListShape(u);
      ByteListFirst(t);
      forall i | 0 <= i < |t|
        ensures ByteList(t)[3 * i..3 * i + 2] == Hex(t[i], 2) && (i < |t| - 1 ==> ByteList(t)[3 * i + 2] == COLON)
      {
        if i > 0 {
          var k := 3 * (i - 1);
          Shifted(Hex(t[0], 2) + [COLON], ByteList(u), k);
          assert u[i - 1] == t[i];
        }
      }
    } else {
      ByteListFirst(t);
    }
  }

  lemma ByteListFirst(t: Text)
    requires t != []
    ensures ByteList(t) == Hex(t[0], 2) + (if |t| == 1 then [] else [COLON] + ByteList(t[1..]))
    ensures |t| > 1 ==> ByteList(t) == Hex(t[0], 2) + [COLON] + ByteList(t[1..])
    ensures |ByteList(t)| >= 2 && ByteList(t)[0..2] == Hex(t[0], 2) && (|t| > 1 ==> ByteList(t)[2] == COLON)
  {
    hide Hex;
  }

  lemma Shifted(a: Text, b: Text, k: nat)
    requires |a| == 3 && k + 2 <= |b|
    ensures (a + b)[k + 3..k + 5] == b[k..k + 2]
    ensures k + 2 < |b| ==> (a + b)[k + 5] == b[k + 2]
  {
  }

  /** Three numbers of 8, 4 and 4 digits, then the bytes in brackets, with colons between all of them. */
  predicate IsGuidText(t: Text, g: Identifier)
    requires g.Guid? && |g.data4| == 8
  {
    && |t| == 43 && t[8] == t[13] == COLON && t[18] == LBRACKET && t[42] == RBRACKET
    && IsHexNumeral(t[0..8], g.data1) && IsHexNumeral(t[9..13], g.data2) && IsHexNumeral(t[14..18], g.data3)
    && (forall i | 0 <= i < 8 :: IsHexNumeral(t[19 + 3 * i..21 + 3 * i], g.data4[i]))
    && (forall i | 0 <= i < 7 :: t[21 + 3 * i] == COLON)
  }

  lemma GuidShape(g: Identifier)
    requires g.Guid? && Valid(NodeId(0, g))
    ensures IsGuidText(GuidText(g), g)
  {
    hide Hex, ByteList, IsHexNumeral;
    var t, bytes := GuidText(g), ByteList(g.data4);
    ByteListShape(g.data4);
    Powers();
    HexIsNumeral(g.data1, 8);
    HexIsNumeral(g.data2, 4);
    HexIsNumeral(g.data3, 4);
    assert t[0..8] == Hex(g.data1, 8) && t[9..13] == Hex(g.data2, 4) && t[14..18] == Hex(g.data3, 4);
    assert t[19..42] == bytes;
    forall i | 0 <= i < 8
      ensures IsHexNumeral(t[19 + 3 * i..21 + 3 * i], g.data4[i]) && (i < 7 ==> t[21 + 3 * i] == COLON)
    {
      assert Power16(2) == 256;
      HexIsNumeral(g.data4[i], 2);
      assert t[19 + 3 * i..21 + 3 * i] == t[19..42][3 * i..3 * i + 2];
      assert i < 7 ==> t[21 + 3 * i] == t[19..42][3 * i + 2];
    }
  }

  lemma DecimalIsNumeral(n: nat)
    ensures IsNumeral(Decimal(n), n)
  {
    DecimalShape(n);
    DenotedDecimal([], n);
    assert [] + Decimal(n) == Decimal(n);
  }

  /** The text of a node id: the numeral of its namespace, a colon, and then a numeral, the bytes of a name as they
      are, or the fields of a GUID. */
  lemma TextShape(n: NodeId) returns (namespace: Text, id: Text)
    requires Valid(n)
    ensures ToString(n) == namespace + [COLON] + id && IsNumeral(namespace, n.namespaceIndex)
    ensures match n.id
            case Numeric(m) => IsNumeral(id, m)
            case Named(s) => id == s
            case Opaque(s) => id == s
            case Guid(_, _, _, _) => IsGuidText(id, n.id)
  {
    hide Decimal, GuidText;
    namespace, id := Decimal(n.namespaceIndex), IdText(n.id);
    DecimalIsNumeral(n.namespaceIndex);
    match n.id {
      case Numeric(m) => DecimalIsNumeral(m);
      case Guid(_, _, _, _) => GuidShape(n.id);
      case _ =>
    }
  }

  // ---- texts tell node ids apart, up to the kind of identifier ----

  lemma SplitConcat<T>(a: seq<T>, x: seq<T>, b: seq<T>, y: seq<T>)
    requires a + x == b + y && |a| == |b|
    ensures a == b && x == y
  {
    assert (a + x)[..|a|] == a && (b + y)[..|b|] == b;
    assert (a + x)[|a|..] == x && (b + y)[|b|..] == y;
  }

  lemma DecimalInjective(m: nat, n: nat)
    requires Decimal(m) == Decimal(n)
    ensures m == n
  {
    DenotedDecimal([], m);
    DenotedDecimal([], n);
    assert [] + Decimal(m) == Decimal(m) && [] + Decimal(n) == Decimal(n);
  }

  lemma {:induction false} HexInjective(m: nat, n: nat, width: nat)
    requires Hex(m, width) == Hex(n, width) && m < Power16(width) && n < Power16(width)
    ensures m == n
    decreases width
  {
    if width > 0 {
      SplitConcat(Hex(m / 16, width - 1), [HexDigit(m % 16)], Hex(n / 16, width - 1), [HexDigit(n % 16)]);
      assert HexDigit(m % 16) == HexDigit(n % 16);
      HexInjective(m / 16, n / 16, width - 1);
    }
  }

  function Power16(k: nat): nat {
    if k == 0 then 1 else 16 * Power16(k - 1)
  }

  lemma FirstByteInjective(s: Text, t: Text)
    requires s != [] && |s| == |t| && ByteList(s) == ByteList(t)
    ensures s[0] == t[0] && (|s| > 1 ==> ByteList(s[1..]) == ByteList(t[1..]))
  {
    hide Hex;
    var x := if |s| == 1 then [] else [COLON] + ByteList(s[1..]);
    var y := if |t| == 1 then [] else [COLON] + ByteList(t[1..]);
    SplitConcat(Hex(s[0], 2), x, Hex(t[0], 2), y);
    assert Power16(2) == 256;
    HexInjective(s[0], t[0], 2);
    if |s| > 1 {
      SplitConcat([COLON], ByteList(s[1..]), [COLON], ByteList(t[1..]));
    }
  }

  lemma {:induction false} ByteListInjective(s: Text, t: Text)
    requires |s| == |t| && ByteList(s) == ByteList(t)
    ensures s == t
  {
    hide ByteList;
    if s != [] {
      FirstByteInjective(s, t);
      if |s| > 1 {
        ByteListInjective(s[1..], t[1..]);
      }
      assert s == [s[0]] + s[1..] && t == [t[0]] + t[1..];
    }
  }

  lemma NoColonInDigits(a: Text, x: Text, k: nat)
    requires AllDigits(a) && k < |a + [COLON] + x| && (a + [COLON] + x)[k] == COLON
    ensures |a| <= k
  {
  }

  /** A number is told from the text after it by its colon. */
  lemma DigitsBeforeColon(a: Text, x: Text, b: Text, y: Text)
    requires a + [COLON] + x == b + [COLON] + y && AllDigits(a) && AllDigits(b)
    ensures a == b && x == y
  {
    assert (a + [COLON] + x)[|a|] == COLON && (b + [COLON] + y)[|b|] == COLON;
    NoColonInDigits(a, x, |b|);
    NoColonInDigits(b, y, |a|);
    SplitConcat(a + [COLON], x, b + [COLON], y);
    SplitConcat(a, [COLON], b, [COLON]);
  }

  lemma GuidInjective(a: Identifier, b: Identifier)
    requires a.Guid? && b.Guid? && Valid(NodeId(0, a)) && Valid(NodeId(0, b)) && GuidText(a) == GuidText(b)
    ensures a == b
  {
    hide Hex, ByteList;
    var a6, b6 := [LBRACKET] + (ByteList(a.data4) + [RBRACKET]), [LBRACKET] + (ByteList(b.data4) + [RBRACKET]);
    var a5, b5 := Hex(a.data3, 4) + a6, Hex(b.data3, 4) + b6;
    var a4, b4 := [COLON] + a5, [COLON] + b5;
    var a3, b3 := Hex(a.data2, 4) + a4, Hex(b.data2, 4) + b4;
    var a2, b2 := [COLON] + a3, [COLON] + b3;
    SplitConcat(Hex(a.data1, 8), a2, Hex(b.data1, 8), b2);
    SplitConcat([COLON], a3, [COLON], b3);
    SplitConcat(Hex(a.data2, 4), a4, Hex(b.data2, 4), b4);
    SplitConcat([COLON], a5, [COLON], b5);
    SplitConcat(Hex(a.data3, 4), a6, Hex(b.data3, 4), b6);
    SplitConcat([LBRACKET], ByteList(a.data4) + [RBRACKET], [LBRACKET], ByteList(b.data4) + [RBRACKET]);
    assert ByteList(a.data4) == (ByteList(a.data4) + [RBRACKET])[..|ByteList(a.data4) + [RBRACKET]| - 1];
    assert ByteList(b.data4) == (ByteList(b.data4) + [RBRACKET])[..|ByteList(b.data4) + [RBRACKET]| - 1];
    ByteListInjective(a.data4, b.data4);
    Powers();
    HexInjective(a.data1, b.data1, 8);
    HexInjective(a.data2, b.data2, 4);
    HexInjective(a.data3, b.data3, 4);
  }

  lemma Powers()
    ensures Power16(4) == 0x1_0000 && Power16(8) == 0x1_0000_0000
  {
  }

  /** Two node ids have the same text exactly if they agree in namespace and identifier text, and then they are equal
      unless their identifiers are of different kinds. */
  lemma SameTextExactly(a: NodeId, b: NodeId)
    requires Valid(a) && Valid(b)
    ensures ToString(a) == ToString(b) <==> a.namespaceIndex == b.namespaceIndex && IdText(a.id) == IdText(b.id)
    ensures ToString(a) == ToString(b) && SameKind(a.id, b.id) ==> a == b
  {
    hide GuidText, Decimal;
    if ToString(a) == ToString(b) {
      DecimalShape(a.namespaceIndex);
      DecimalShape(b.namespaceIndex);
      DigitsBeforeColon(Decimal(a.namespaceIndex), IdText(a.id), Decimal(b.namespaceIndex), IdText(b.id));
      DecimalInjective(a.namespaceIndex, b.namespaceIndex);
      if a.id.Numeric? && b.id.Numeric? {
        DecimalInjective(a.id.number, b.id.number);
      } else if a.id.Guid? && b.id.Guid? {
        GuidInjective(a.id, b.id);
      }
    }
  }

  /** Every numeric id shares its text with a string id, and every string id with a byte string id. */
  lemma TextsCollide(ns: nat, n: nat, s: Text)
    ensures ToString(NodeId(ns, Numeric(n))) == ToString(NodeId(ns, Named(Decimal(n))))
    ensures ToString(NodeId(ns, Named(s))) == ToString(NodeId(ns, Opaque(s)))
  {
  }
}
