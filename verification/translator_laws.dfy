/** What the translators promise: the raw layouts they write, the round trips that hold,
    the one that does not (IPv6), and the facts the hub module's own examples show. */
module TranslatorLaws {
  import opened Base
  import opened Strings
  import opened Values
  import opened Translators

  // ---------------------------------------------------------------------------
  // Words and their hex form

  /** The number a sequence of words denotes, most significant word first. */
  function WordsValue(ws: seq<nat>, size: nat): nat {
    if ws == [] then 0 else WordsValue(ws[..|ws| - 1], size) * size + ws[|ws| - 1]
  }

  lemma DivBelowPow(n: nat, size: nat, p: nat)
    requires size > 0 && n < size * p
    ensures n / size < p
  {
    assert n == size * (n / size) + n % size;
  }

  lemma DivMod(n: nat, size: nat)
    requires size > 0
    ensures n == (n / size) * size + n % size
  {
  }

  lemma WordsSnoc(n: nat, count: nat, size: nat)
    requires size > 0 && count > 0
    ensures Words(n, count, size) == Words(n / size, count - 1, size) + [n % size]
  {
  }

  lemma WordsValueSnoc(ws: seq<nat>, w: nat, size: nat)
    ensures WordsValue(ws + [w], size) == WordsValue(ws, size) * size + w
  {
    assert (ws + [w])[..|ws|] == ws;
  }

  /** Splitting a number into `count` words and reading them back gives the number. */
  lemma {:induction false} WordsValueOfWords(n: nat, count: nat, size: nat)
    requires size > 0 && n < Pow(size, count)
    ensures WordsValue(Words(n, count, size), size) == n
    decreases count
  {
    if count > 0 {
      var q, r := n / size, n % size;
      DivBelowPow(n, size, Pow(size, count - 1));
      var ws0 := Words(q, count - 1, size);
      WordsValueOfWords(q, count - 1, size);
      WordsSnoc(n, count, size);
      assert Words(n, count, size) == ws0 + [r];
      WordsValueSnoc(ws0, r, size);
      assert WordsValue(ws0 + [r], size) == q * size + r;
      DivMod(n, size);
    } else {
      assert n == 0;
    }
  }

  lemma AddressLimits()
    ensures Pow(0x100, 4) == IPV4_LIMIT
    ensures Pow(0x10000, 8) == IPV6_LIMIT
  {
    assert Pow(0x10000, 4) == 0x1_0000_0000_0000_0000;
    assert Pow(0x10000, 8) == Pow(0x10000, 4) * Pow(0x10000, 4) by {
      PowAdd(0x10000, 4, 4);
    }
  }

  /** One word written with at least two hex digits: 2 to 4 digits for a 16-bit word,
      exactly 2 for an octet, exactly 4 from 0x1000 on. */
  lemma WordDigits(w: nat)
    requires w < 0x10000
    ensures Number(Hex(w, 2), 16) == w
    ensures 2 <= |Hex(w, 2)| <= 4
    ensures w < 0x100 ==> |Hex(w, 2)| == 2
    ensures w >= 0x1000 ==> |Hex(w, 2)| == 4
  {
    PadDigitsValue(w, 16, 2);
    PowersOf16();
    DigitsFit(w, 16, 4);
    if w < 0x100 {
      DigitsFit(w, 16, 2);
    }
    if w >= 0x1000 {
      assert Pow(16, 3) == 0x1000;
      DigitsFit(w, 16, 3);
    }
  }

  /** Octets each written with exactly two digits read back as the number they form. */
  lemma {:induction false} OctetsValue(ws: seq<nat>)
    requires forall i :: 0 <= i < |ws| ==> ws[i] < 0x100
    ensures |FormatWords(ws, 2)| == 2 * |ws|
    ensures Number(FormatWords(ws, 2), 16) == WordsValue(ws, 0x100)
  {
    if ws != [] {
      var init, w := ws[..|ws| - 1], ws[|ws| - 1];
      OctetsValue(init);
      WordDigits(w);
      ValueOfAppend(FormatWords(init, 2), Hex(w, 2), 16);
      PowersOf16();
    }
  }

  /** The i-th pair of digits of octets written two digits each is the i-th octet. */
  lemma {:induction false} OctetAt(ws: seq<nat>, i: nat)
    requires forall j :: 0 <= j < |ws| ==> ws[j] < 0x100
    requires i < |ws|
    ensures |FormatWords(ws, 2)| == 2 * |ws|
    ensures FormatWords(ws, 2)[2 * i .. 2 * i + 2] == Hex(ws[i], 2)
  {
    OctetsValue(ws);
    var init := ws[..|ws| - 1];
    OctetsValue(init);
    WordDigits(ws[|ws| - 1]);
    if i < |ws| - 1 {
      OctetAt(init, i);
      assert FormatWords(ws, 2)[2 * i .. 2 * i + 2] == FormatWords(init, 2)[2 * i .. 2 * i + 2];
    } else {
      assert FormatWords(ws, 2)[2 * i .. 2 * i + 2] == Hex(ws[i], 2);
    }
  }

  // ---------------------------------------------------------------------------
  // NullTranslator

  /** Every raw string survives decoding and re-encoding unchanged, and None and
      non-empty text survive encoding and decoding. */
  lemma NullRoundTrip(raw: string, v: Value)
    ensures NullEncode(NullDecode(raw)) == Ok(raw)
    ensures v.Null? || (v.Text? && v.text != "") ==>
      NullEncode(v).Ok? && NullDecode(NullEncode(v).value) == v
  {
  }

  // ---------------------------------------------------------------------------
  // IntTranslator / PortTranslator

  /** None is the empty string and an integer its decimal text, both ways. */
  lemma IntRoundTrip(i: int)
    ensures IntEncode(Null) == Ok("") && IntDecode("") == Ok(Null)
    ensures IntEncode(Int(i)).Ok? && IntEncode(Int(i)).value != ""
    ensures IntDecode(IntEncode(Int(i)).value) == Ok(Int(i))
  {
    ParseIntOfString(i);
  }

  // ---------------------------------------------------------------------------
  // BoolTranslator

  /** Text spelling "false" in any letter case. */
  predicate IsFalseText(v: Value) {
    v.Text? && Lower(v.text) == "false"
  }

  /** Decoding what was encoded gives Python's truth value of the input, except that
      text spelling "false" in any case reads as false; only "1" decodes to true. */
  lemma BoolLaws(v: Value, raw: string)
    ensures BoolEncode(v) == (if Truthy(v) && !IsFalseText(v) then "1" else "2")
    ensures BoolDecode(BoolEncode(v)) == Bool(Truthy(v) && !IsFalseText(v))
    ensures BoolDecode(raw) == Bool(true) <==> raw == "1"
    ensures v.Bool? ==> BoolDecode(BoolEncode(v)) == v
  {
  }

  lemma BoolFalseSpellings()
    ensures BoolEncode(Text("false")) == "2" && BoolEncode(Text("FALSE")) == "2"
    ensures BoolEncode(Text("False")) == "2" && BoolEncode(Text("true")) == "1"
    ensures BoolEncode(Null) == "2" && BoolEncode(Int(0)) == "2" && BoolEncode(Text("")) == "2"
  {
    assert Lower("FALSE") == "false";
    assert Lower("False") == "false";
    assert Lower("false") == "false";
    assert Lower("true") == "true";
  }

  // ---------------------------------------------------------------------------
  // EnumTranslator

  /** Every member is listed in its own enumeration. */
  lemma MemberListed(m: Member)
    ensures m in Members(m.Kind())
  {
    var ms := Members(m.Kind());
    match m {
      case Version(v) =>
        match v {
          case IPv4 => assert ms[0] == m;
          case IPv6 => assert ms[1] == m;
          case GodKnows => assert ms[2] == m;
        }
      case Protocol(p) =>
        match p {
          case UDP => assert ms[0] == m;
          case TCP => assert ms[1] == m;
          case BOTH => assert ms[2] == m;
        }
      case Status(st) =>
        match st {
          case Active => assert ms[0] == m;
          case NotInService => assert ms[1] == m;
          case NotReady => assert ms[2] == m;
          case CreateAndGo => assert ms[3] == m;
          case CreateAndWait => assert ms[4] == m;
          case Destroy => assert ms[5] == m;
        }
    }
  }

  /** Within one enumeration no two members share a wire value or a name. */
  lemma MembersDistinct(k: EnumKind)
    ensures forall i, j :: 0 <= i < j < |Members(k)| ==>
      Members(k)[i].WireValue() != Members(k)[j].WireValue() && Members(k)[i].Name() != Members(k)[j].Name()
  {
  }

  lemma {:induction false} FindByValueOf(ms: seq<Member>, m: Member)
    requires m in ms
    requires forall i, j :: 0 <= i < j < |ms| ==> ms[i].WireValue() != ms[j].WireValue()
    ensures FindByValue(ms, m.WireValue()) == Some(m)
  {
    if ms[0] != m {
      assert ms[0].WireValue() != m.WireValue();
      FindByValueOf(ms[1..], m);
    }
  }

  lemma {:induction false} FindByNameOf(ms: seq<Member>, m: Member)
    requires m in ms
    requires forall i, j :: 0 <= i < j < |ms| ==> ms[i].Name() != ms[j].Name()
    ensures FindByName(ms, m.Name()) == Some(m)
  {
    if ms[0] != m {
      assert ms[0].Name() != m.Name();
      FindByNameOf(ms[1..], m);
    }
  }

  /** A member is written as its wire value and read back as itself. */
  lemma EnumRoundTrip(m: Member)
    ensures EnumEncode(m.Kind(), Enum(m)) == Ok(m.WireValue())
    ensures EnumDecode(m.Kind(), m.WireValue()) == Ok(Enum(m))
  {
    MemberListed(m);
    MembersDistinct(m.Kind());
    FindByValueOf(Members(m.Kind()), m);
  }

  /** Decoding fails exactly for a raw value no member has, and never yields None. */
  lemma EnumDecodeFails(k: EnumKind, raw: string)
    ensures EnumDecode(k, raw).Err? <==> forall m :: m in Members(k) ==> m.WireValue() != raw
    ensures EnumDecode(k, raw).Ok? ==> EnumDecode(k, raw).value.Enum?
    ensures EnumDecode(k, "").Err?
  {
    assert forall m :: m in Members(k) ==> m.WireValue() != "";
  }

  /** snmp() also accepts a member's name as text. */
  lemma EnumByName(m: Member)
    ensures EnumEncode(m.Kind(), Text(m.Name())) == Ok(m.WireValue())
  {
    MemberListed(m);
    MembersDistinct(m.Kind());
    FindByNameOf(Members(m.Kind()), m);
  }

  // ---------------------------------------------------------------------------
  // MacAddressTranslator

  /** A payload of zeros only denotes zero. */
  lemma {:induction false} ZerosNumber(s: string)
    requires AllZeros(s)
    ensures AllDigits(s, 16) && Number(s, 16) == 0
  {
    ValueOfZeros(|s|, 16);
    assert s == seq(|s|, _ => '0');
  }

  /** A non-null MAC address is written as '$' and exactly 12 lower-case hex digits
      denoting it, and reads back as itself. */
  lemma MacRoundTrip(n: Mac48)
    requires n != 0
    ensures MacEncode(Mac(n)).Ok?
    ensures var r := MacEncode(Mac(n)).value;
      |r| == 13 && r[0] == '$' && AllLowerDigits(r[1..]) && Number(r[1..], 16) == n
      && MacDecode(r) == Ok(Mac(n))
  {
    var r := MacEncode(Mac(n)).value;
    PowersOf16();
    PadDigitsValue(n, 16, 12);
    assert r[1..] == Hex(n, 12);
    assert r[..1] == "$";
    assert r != MAC_NULL by {
      assert AllZeros(MAC_NULL[1..]);
      ZerosNumber(MAC_NULL[1..]);
    }
    assert ParseHex(r[1..]) == Some(n);
  }

  /** None is the all-zero payload; the empty string and the all-zero payload read as None;
      anything else without the '$' or of another length fails. */
  lemma MacNullAndMalformed(raw: string)
    ensures MacEncode(Null) == Ok("$000000000000")
    ensures MacDecode("") == Ok(Null) && MacDecode("$000000000000") == Ok(Null)
    ensures raw != "" && raw != MAC_NULL && (!StartsWith(raw, "$") || |raw| != 13) ==>
      MacDecode(raw).Err?
  {
  }

  // ---------------------------------------------------------------------------
  // IPv4Translator

  /** A non-null IPv4 address is written as '$' and 8 lower-case hex digits, one pair per
      octet from the most significant, and reads back as itself. */
  lemma IPv4RoundTrip(n: Address4, i: nat)
    requires n != 0 && i < 4
    ensures IPv4Encode(IP4(n)).Ok?
    ensures var r := IPv4Encode(IP4(n)).value;
      |r| == 9 && r[0] == '$' && AllLowerDigits(r[1..]) && Number(r[1..], 16) == n
      && r[1 + 2 * i .. 3 + 2 * i] == Hex(Words(n, 4, 0x100)[i], 2)
      && IPv4Decode(r) == Ok(IP4(n))
  {
    var ws := Words(n, 4, 0x100);
    var r := IPv4Encode(IP4(n)).value;
    OctetsValue(ws);
    OctetAt(ws, i);
    AddressLimits();
    WordsValueOfWords(n, 4, 0x100);
    assert r[1..] == FormatWords(ws, 2);
    SliceOfTail(r, 2 * i, 2 * i + 2);
    assert r[..1] == "$";
    assert !AllZeros(r[1..]) by {
      if AllZeros(r[1..]) {
        ZerosNumber(r[1..]);
      }
    }
    assert ParseHex(r[1..]) == Some(n);
  }

  lemma IPv4NullAndMalformed(raw: string)
    ensures IPv4Encode(Null) == Ok("$00000000")
    ensures IPv4Decode("") == Ok(Null) && IPv4Decode("$00000000") == Ok(Null)
    ensures raw != "" && (!StartsWith(raw, "$") || |raw| != 9) ==> IPv4Decode(raw).Err?
  {
  }

  // ---------------------------------------------------------------------------
  // IPv6Translator

  /** Once a non-zero word has been written, every later word has four hex digits:
      the only words for which "{0:02x}" per word loses no place value. */
  predicate Aligned(ws: seq<nat>) {
    forall i, j :: 0 <= i < j < |ws| && ws[i] != 0 ==> ws[j] >= 0x1000
  }

  lemma {:induction false} ZeroWords(ws: seq<nat>, size: nat)
    requires forall i :: 0 <= i < |ws| ==> ws[i] == 0
    ensures WordsValue(ws, size) == 0
  {
    if ws != [] {
      ZeroWords(ws[..|ws| - 1], size);
    }
  }

  /** 16-bit words written with "{0:02x}" each read back as the number they form,
      when they are aligned; the text has 2 to 4 digits per word. */
  lemma {:induction false} AlignedValue(ws: seq<nat>)
    requires forall i :: 0 <= i < |ws| ==> ws[i] < 0x10000
    requires Aligned(ws)
    ensures 2 * |ws| <= |FormatWords(ws, 2)| <= 4 * |ws|
    ensures Number(FormatWords(ws, 2), 16) == WordsValue(ws, 0x10000)
  {
    if ws != [] {
      var init, w := ws[..|ws| - 1], ws[|ws| - 1];
      assert Aligned(init);
      AlignedValue(init);
      var f, h := FormatWords(init, 2), Hex(w, 2);
      var v := WordsValue(init, 0x10000);
      assert FormatWords(ws, 2) == f + h;
      WordDigits(w);
      ValueOfAppend(f, h, 16);
      assert Number(f + h, 16) == v * Pow(16, |h|) + w;
      if v != 0 {
        assert exists i :: 0 <= i < |init| && init[i] != 0 by {
          if forall i :: 0 <= i < |init| ==> init[i] == 0 {
            ZeroWords(init, 0x10000);
          }
        }
        assert |h| == 4;
        PowersOf16();
      }
    }
  }

  /** An IPv6 address whose words are aligned is written as '$' and 16 to 32 lower-case
      hex digits, and reads back as itself. */
  lemma IPv6RoundTrip(n: Address6)
    requires n != 0 && Aligned(Words(n, 8, 0x10000))
    ensures IPv6Encode(IP6(n)).Ok?
    ensures var r := IPv6Encode(IP6(n)).value;
      17 <= |r| <= 33 && r[0] == '$' && AllLowerDigits(r[1..]) && Number(r[1..], 16) == n
      && IPv6Decode(r) == Ok(IP6(n))
  {
    var ws := Words(n, 8, 0x10000);
    var r := IPv6Encode(IP6(n)).value;
    AlignedValue(ws);
    AddressLimits();
    WordsValueOfWords(n, 8, 0x10000);
    assert r[1..] == FormatWords(ws, 2);
    assert r[..1] == "$";
    assert !AllZeros(r[1..]) by {
      if AllZeros(r[1..]) {
        ZerosNumber(r[1..]);
      }
    }
    assert ParseHex(r[1..]) == Some(n);
  }

  // ---------------------------------------------------------------------------
  // Concrete digit strings

  /** A literal digit string known to be a zero-padded hex form denotes its number. */
  lemma HexChunk(s: string, n: nat, width: nat)
    requires s == Hex(n, width)
    ensures AllDigits(s, 16) && Number(s, 16) == n
  {
    PadDigitsValue(n, 16, width);
  }

  /** Appending a four-digit hex group shifts by one 16-bit word. */
  lemma AppendGroup(a: string, va: nat, b: string, vb: nat)
    requires b == Hex(vb, 4) && vb < 0x10000
    requires AllDigits(a, 16) && Number(a, 16) == va
    ensures AllDigits(a + b, 16) && Number(a + b, 16) == va * 0x10000 + vb
  {
    HexChunk(b, vb, 4);
    PowersOf16();
    DigitsFit(vb, 16, 4);
    ValueOfAppend(a, b, 16);
  }

  lemma {:induction false} FormatZeros(k: nat)
    ensures FormatWords(seq(k, _ => 0), 2) == seq(2 * k, _ => '0')
  {
    if k > 0 {
      FormatZeros(k - 1);
      assert seq(k, _ => 0)[..k - 1] == seq(k - 1, _ => 0);
      assert Hex(0, 2) == "00";
      assert seq(2 * (k - 1), _ => '0') + "00" == seq(2 * k, _ => '0');
    }
  }

  lemma DigitSplit(vs: nat, a: nat, vt: nat, b: nat, base: Radix)
    requires a < base && b < base && vs * base + a == vt * base + b
    ensures a == b && vs == vt
  {
  }

  /** Two lower-case digit strings of the same length denoting the same number are equal:
      the form Python's format() writes is unique. */
  lemma {:induction false} NumberInjective(s: string, t: string, base: Radix)
    requires AllDigits(s, base) && AllDigits(t, base)
    requires AllLowerDigits(s) && AllLowerDigits(t)
    requires |s| == |t| && Number(s, base) == Number(t, base)
    ensures s == t
  {
    if s != [] {
      var n := |s| - 1;
      var s', t' := s[..n], t[..n];
      var a, b := CharValue(s[n]), CharValue(t[n]);
      assert Number(s', base) * base + a == Number(t', base) * base + b;
      DigitSplit(Number(s', base), a, Number(t', base), b, base);
      assert AllDigits(s', base) && AllDigits(t', base);
      assert AllLowerDigits(s') && AllLowerDigits(t');
      NumberInjective(s', t', base);
      LowerDigitInjective(s[n], t[n]);
      assert s == s' + [s[n]] && t == t' + [t[n]];
    }
  }

  lemma LowerDigitInjective(c: char, d: char)
    requires IsLowerDigit(c) && IsLowerDigit(d) && CharValue(c) == CharValue(d)
    ensures c == d
  {
  }

  // ---------------------------------------------------------------------------
  // The hub module's examples

  lemma MacDigitsText()
    ensures "787b" + "8a64" == "787b8a64"
    ensures "787b8a64" + "13f5" == "787b8a6413f5"
  {
  }

  lemma MacDigits()
    ensures AllDigits("787b8a6413f5", 16) && Number("787b8a6413f5", 16) == 0x787b_8a64_13f5
  {
    MacDigitsText();
    HexChunk("787b", 0x787b, 4);
    AppendGroup("787b", 0x787b, "8a64", 0x8a64);
    AppendGroup("787b8a64", 0x787b_8a64, "13f5", 0x13f5);
  }

  lemma MacHex(n: Mac48)
    requires n == 0x787b_8a64_13f5
    ensures Hex(n, 12) == "787b8a6413f5"
  {
    MacDigits();
    PowersOf16();
    PadDigitsValue(n, 16, 12);
    assert AllLowerDigits("787b8a6413f5");
    NumberInjective(Hex(n, 12), "787b8a6413f5", 16);
  }

  lemma MacExampleText()
    ensures "$" + "787b8a6413f5" == "$787b8a6413f5"
  {
  }

  /** '$787b8a6413f5' is the MAC address 78:7b:8a:64:13:f5, both ways. */
  lemma MacExample(n: Mac48)
    requires n == 0x787b_8a64_13f5
    ensures MacDecode("$787b8a6413f5") == Ok(Mac(n))
    ensures MacEncode(Mac(n)) == Ok("$787b8a6413f5")
  {
    MacExampleText();
    MacExampleDecode(n);
    MacHex(n);
  }

  lemma MacExampleDecode(n: Mac48)
    requires n == 0x787b_8a64_13f5
    ensures MacDecode("$787b8a6413f5") == Ok(Mac(n))
  {
    var r := "$787b8a6413f5";
    MacDigits();
    assert r[..1] == "$" && r[1..] == "787b8a6413f5";
    assert r != MAC_NULL by {
      assert r[1] != MAC_NULL[1];
    }
  }

  lemma IPv4DigitsText()
    ensures "c0a8" + "0464" == "c0a80464"
  {
  }

  lemma IPv4Digits()
    ensures AllDigits("c0a80464", 16) && Number("c0a80464", 16) == 0xc0a8_0464
  {
    IPv4DigitsText();
    HexChunk("c0a8", 0xc0a8, 4);
    AppendGroup("c0a8", 0xc0a8, "0464", 0x0464);
  }

  lemma IPv4Hex(n: Address4)
    requires n == 0xc0a8_0464
    ensures FormatWords(Words(n, 4, 0x100), 2) == "c0a80464"
  {
    var ws := Words(n, 4, 0x100);
    IPv4Digits();
    OctetsValue(ws);
    AddressLimits();
    WordsValueOfWords(n, 4, 0x100);
    assert AllLowerDigits("c0a80464");
    NumberInjective(FormatWords(ws, 2), "c0a80464", 16);
  }

  /** '$c0a80464' is 192.168.4.100, both ways. */
  lemma IPv4ExampleText()
    ensures "$c0a80464"[..1] == "$" && "$c0a80464"[1..] == "c0a80464" && "c0a80464"[0] != '0'
    ensures "$" + "c0a80464" == "$c0a80464"
  {
  }

  lemma IPv4Example(n: Address4)
    requires n == 0xc0a8_0464
    ensures IPv4Decode("$c0a80464") == Ok(IP4(n))
    ensures IPv4Encode(IP4(n)) == Ok("$c0a80464")
  {
    IPv4ExampleText();
    IPv4Digits();
    IPv4Hex(n);
  }

  lemma FormatSnoc(ws: seq<nat>, w: nat, s: string, t: string)
    requires FormatWords(ws, 2) == s && t == s + Hex(w, 2)
    ensures FormatWords(ws + [w], 2) == t
  {
    assert (ws + [w])[..|ws|] == ws;
  }

  lemma {:induction false} FormatWordsAppend(a: seq<nat>, b: seq<nat>)
    ensures FormatWords(a + b, 2) == FormatWords(a, 2) + FormatWords(b, 2)
  {
    if b == [] {
      assert a + b == a;
    } else {
      var init, w := b[..|b| - 1], b[|b| - 1];
      var fa, fi, h := FormatWords(a, 2), FormatWords(init, 2), Hex(w, 2);
      SnocSplit(a, b);
      FormatWordsAppend(a, init);
      FormatSnoc(a + init, w, fa + fi, (fa + fi) + h);
      FormatSnoc(init, w, fi, fi + h);
      StringAssoc(fa, fi, h);
    }
  }

  lemma PlacesLostLow()
    ensures FormatWords([0, 0, 0, 0xc], 2) == "0000000c"
  {
    FormatZeros(3);
    assert seq(3, _ => 0) == [0, 0, 0];
    assert seq(6, _ => '0') == "000000";
    assert [0, 0, 0] + [0xc] == [0, 0, 0, 0xc];
    FormatSnoc([0, 0, 0], 0xc, "000000", "0000000c");
  }

  lemma PlacesLostHighText()
    ensures [] + [0xfd8] == [0xfd8] && [0xfd8] + [0x400f] == [0xfd8, 0x400f]
    ensures [0xfd8, 0x400f] + [0xf558] == [0xfd8, 0x400f, 0xf558]
    ensures [0xfd8, 0x400f, 0xf558] + [0] == [0xfd8, 0x400f, 0xf558, 0]
  {
  }

  lemma PlacesLostHigh()
    ensures FormatWords([0xfd8, 0x400f, 0xf558, 0], 2) == "fd8400ff55800"
  {
    PlacesLostHighText();
    FormatSnoc([], 0xfd8, "", "fd8");
    FormatSnoc([0xfd8], 0x400f, "fd8", "fd8400f");
    FormatSnoc([0xfd8, 0x400f], 0xf558, "fd8400f", "fd8400ff558");
    FormatSnoc([0xfd8, 0x400f, 0xf558], 0, "fd8400ff558", "fd8400ff55800");
  }

  lemma PlacesLostFormatText()
    ensures "0000000c" + "fd8400ff55800" == "0000000cfd8400ff55800"
    ensures [0, 0, 0, 0xc] + [0xfd8, 0x400f, 0xf558, 0] == [0, 0, 0, 0xc, 0xfd8, 0x400f, 0xf558, 0]
  {
  }

  lemma PlacesLostFormat()
    ensures FormatWords([0, 0, 0, 0xc, 0xfd8, 0x400f, 0xf558, 0], 2) == "0000000cfd8400ff55800"
  {
    PlacesLostFormatText();
    PlacesLostLow();
    PlacesLostHigh();
    FormatWordsAppend([0, 0, 0, 0xc], [0xfd8, 0x400f, 0xf558, 0]);
  }

  lemma PlacesLostDigitsLowText()
    ensures "000c" + "0fd8" == "000c0fd8"
  {
  }

  lemma PlacesLostDigitsLow()
    ensures AllDigits("000c0fd8", 16) && Number("000c0fd8", 16) == 0xc_0fd8
  {
    PlacesLostDigitsLowText();
    HexChunk("000c", 0xc, 4);
    AppendGroup("000c", 0xc, "0fd8", 0xfd8);
  }

  lemma PlacesLostDigitsText()
    ensures "000c0fd8" + "400f" == "000c0fd8400f"
    ensures "000c0fd8400f" + "f558" == "000c0fd8400ff558"
    ensures "000c0fd8400ff558" + "0000" == "000c0fd8400ff5580000"
  {
  }

  lemma PlacesLostDigits()
    ensures AllDigits("000c0fd8400ff5580000", 16)
    ensures Number("000c0fd8400ff5580000", 16) == 0xc_0fd8_400f_f558_0000
  {
    PlacesLostDigitsText();
    PlacesLostDigitsLow();
    AppendGroup("000c0fd8", 0xc_0fd8, "400f", 0x400f);
    AppendGroup("000c0fd8400f", 0xc_0fd8_400f, "f558", 0xf558);
    AppendGroup("000c0fd8400ff558", 0xc_0fd8_400f_f558, "0000", 0);
  }

  lemma PlacesLostBackDigitsLowText()
    ensures "00000" + "00cf" == "0000000cf"
    ensures "0000000cf" + "d840" == "0000000cfd840"
  {
  }

  lemma PlacesLostBackDigitsLow()
    ensures AllDigits("0000000cfd840", 16) && Number("0000000cfd840", 16) == 0xcf_d840
  {
    PlacesLostBackDigitsLowText();
    HexChunk("00000", 0, 5);
    AppendGroup("00000", 0, "00cf", 0xcf);
    AppendGroup("0000000cf", 0xcf, "d840", 0xd840);
  }

  lemma PlacesLostBackDigitsText()
    ensures "0000000cfd840" + "0ff5" == "0000000cfd8400ff5"
    ensures "0000000cfd8400ff5" + "5800" == "0000000cfd8400ff55800"
  {
  }

  lemma PlacesLostBackDigits()
    ensures AllDigits("0000000cfd8400ff55800", 16)
    ensures Number("0000000cfd8400ff55800", 16) == 0xcfd8_400f_f558_00
  {
    PlacesLostBackDigitsText();
    PlacesLostBackDigitsLow();
    AppendGroup("0000000cfd840", 0xcf_d840, "0ff5", 0x0ff5);
    AppendGroup("0000000cfd8400ff5", 0xcf_d840_0ff5, "5800", 0x5800);
  }

  lemma PlacesLostWords()
    ensures Words(0xc_0fd8_400f_f558_0000, 8, 0x10000) == [0, 0, 0, 0xc, 0xfd8, 0x400f, 0xf558, 0]
  {
  }

  lemma PlacesLostDecodeText()
    ensures "$000c0fd8400ff5580000"[..1] == "$" && "$000c0fd8400ff5580000"[1..] == "000c0fd8400ff5580000"
    ensures "000c0fd8400ff5580000"[3] == 'c'
    ensures "$0000000cfd8400ff55800"[..1] == "$" && "$0000000cfd8400ff55800"[1..] == "0000000cfd8400ff55800"
    ensures "0000000cfd8400ff55800"[7] == 'c'
  {
  }

  lemma PlacesLostDecode()
    ensures IPv6Decode("$000c0fd8400ff5580000") == Ok(IP6(0xc_0fd8_400f_f558_0000))
    ensures IPv6Decode("$0000000cfd8400ff55800") == Ok(IP6(0xcfd8_400f_f558_00))
  {
    PlacesLostDecodeText();
    PlacesLostDigits();
    PlacesLostBackDigits();
  }

  lemma IPv6EncodeLosesPlacesText()
    ensures "$" + "0000000cfd8400ff55800" == "$0000000cfd8400ff55800"
  {
  }

  /** The example from the hub module: ::c:fd8:400f:f558:0 is written with the word 0xfd8
      in three digits, and that text reads back as a different address. Encoding is not
      the inverse of decoding. */
  lemma IPv6EncodeLosesPlaces(n: Address6)
    requires n == 0xc_0fd8_400f_f558_0000
    ensures IPv6Decode("$000c0fd8400ff5580000") == Ok(IP6(n))
    ensures IPv6Encode(IP6(n)) == Ok("$0000000cfd8400ff55800")
    ensures IPv6Decode("$0000000cfd8400ff55800") == Ok(IP6(0xcfd8_400f_f558_00))
    ensures 0xcfd8_400f_f558_00 != n
  {
    IPv6EncodeLosesPlacesText();
    PlacesLostDecode();
    PlacesLostWords();
    PlacesLostFormat();
  }

  lemma LoopbackText()
    ensures "0000000000000000" + "0000000000000001" == "00000000000000000000000000000001"
  {
  }

  lemma LoopbackDigits()
    ensures AllDigits("0000000000000001", 16) && Number("0000000000000001", 16) == 1
    ensures AllDigits("00000000000000000000000000000001", 16)
    ensures Number("00000000000000000000000000000001", 16) == 1
  {
    HexChunk("0000000000000000", 0, 16);
    HexChunk("0000000000000001", 1, 16);
    ValueOfAppend("0000000000000000", "0000000000000001", 16);
    LoopbackText();
  }

  lemma LoopbackFormat()
    ensures FormatWords(Words(1, 8, 0x10000), 2) == "0000000000000001"
  {
    var ws := Words(1, 8, 0x10000);
    assert ws == seq(7, _ => 0) + [1];
    FormatZeros(7);
    assert Hex(1, 2) == "01";
    FormatSnoc(seq(7, _ => 0), 1, seq(14, _ => '0'), seq(14, _ => '0') + "01");
    assert seq(14, _ => '0') + "01" == "0000000000000001";
  }

  lemma IPv6LoopbackEncodeText()
    ensures "$" + "0000000000000001" == "$0000000000000001"
  {
  }

  /** ::1 is written with two digits per word, as the hub module's example shows. */
  lemma IPv6LoopbackEncode()
    ensures IPv6Encode(IP6(1)) == Ok("$0000000000000001")
  {
    IPv6LoopbackEncodeText();
    LoopbackFormat();
  }

  lemma IPv6LoopbackDecodeText()
    ensures var short := "$0000000000000001";
      short[..1] == "$" && short[1..] == "0000000000000001" && short[1..][15] == '1'
    ensures var long := "$00000000000000000000000000000001";
      long[..1] == "$" && long[1..] == "00000000000000000000000000000001" && long[1..][31] == '1'
  {
  }

  /** ::1 reads back from the 16-digit form and from the full 32-digit form. */
  lemma IPv6LoopbackDecode()
    ensures IPv6Decode("$0000000000000001") == Ok(IP6(1))
    ensures IPv6Decode("$00000000000000000000000000000001") == Ok(IP6(1))
    ensures IPv6Decode(IPV6_NULL) == Ok(Null) && IPv6Decode("") == Ok(Null)
  {
    IPv6LoopbackDecodeText();
    LoopbackDigits();
  }

  // ---------------------------------------------------------------------------
  // IPAddressTranslator

  lemma IPv6NullText()
    ensures IPV6_NULL[..1] == "$" && AllZeros(IPV6_NULL[1..])
  {
    assert IPV6_NULL[..1] == "$";
  }

  /** None is written as the IPv4 null; the all-zero IPv4 and IPv6 forms read as None;
      a short raw value or one without the '$' reads as an exception object, not a failure. */
  lemma IPAddressNullAndShort(raw: string)
    ensures IPAddressEncode(Null) == Ok(IPV4_NULL)
    ensures IPAddressDecode("") == Ok(Null)
    ensures IPAddressDecode(IPV4_NULL) == Ok(Null) && IPAddressDecode(IPV6_NULL) == Ok(Null)
    ensures raw != "" && (!StartsWith(raw, "$") || |raw| < 9) ==>
      IPAddressDecode(raw).Ok? && IPAddressDecode(raw).value.Raised?
  {
    IPv6NullText();
  }

  /** A raw value of nine characters is read as IPv4, a longer one as IPv6. */
  lemma IPAddressDispatch(raw: string)
    requires StartsWith(raw, "$") && |raw| >= 9
    ensures |raw| == 9 ==> IPAddressDecode(raw) == IPv4Decode(raw)
    ensures |raw| > 9 ==> IPAddressDecode(raw) == IPv6Decode(raw)
  {
  }

  // ---------------------------------------------------------------------------
  // DateTimeTranslator

  lemma SliceOfFields(y: string, mo: string, d: string, h: string, mi: string, se: string)
    requires |y| == 4 && |mo| == 2 && |d| == 2 && |h| == 2 && |mi| == 2 && |se| == 2
    ensures var raw := "$" + y + mo + d + h + mi + se + "00";
      Slice(raw, 1, 5) == y && Slice(raw, 5, 7) == mo && Slice(raw, 7, 9) == d
      && Slice(raw, 9, 11) == h && Slice(raw, 11, 13) == mi && Slice(raw, 13, 15) == se
      && raw[1..5] == y
  {
  }

  lemma ParseHexOfHex(n: nat, width: nat)
    ensures ParseHex(Hex(n, width)) == Some(n)
  {
    PadDigitsValue(n, 16, width);
    assert |Digits(n, 16)| >= 1;
  }

  lemma DecodeFields(raw: string, d: ValidDateTime)
    requires raw != "" && raw != DATETIME_NULL
    requires HexField(raw, 1, 5) == Some(d.year) && HexField(raw, 5, 7) == Some(d.month)
    requires HexField(raw, 7, 9) == Some(d.day) && HexField(raw, 9, 11) == Some(d.hour)
    requires HexField(raw, 11, 13) == Some(d.minute) && HexField(raw, 13, 15) == Some(d.second)
    ensures DateTimeDecode(raw) == Ok(Date(d))
  {
  }

  /** A field below 16^width is written in exactly `width` digits and parses back. */
  lemma FieldHex(n: nat, width: nat)
    requires width >= 1 && n < Pow(16, width)
    ensures |Hex(n, width)| == width && ParseHex(Hex(n, width)) == Some(n)
  {
    PadDigitsValue(n, 16, width);
  }

  /** The null timestamp has year zero, which no valid timestamp has. */
  lemma NullYear()
    ensures HexField(DATETIME_NULL, 1, 5) == Some(0)
  {
    var y := DATETIME_NULL[1..5];
    assert Slice(DATETIME_NULL, 1, 5) == y;
    assert AllZeros(y);
    ZerosNumber(y);
  }

  /** The layout DateTimeEncode writes: '$', six fields in hex, "00". */
  lemma DateTimeLayout(d: ValidDateTime) returns (raw: string)
    ensures DateTimeEncode(Date(d)) == Ok(raw)
    ensures |raw| == 17 && raw[0] == '$' && raw[15..] == "00"
    ensures HexField(raw, 1, 5) == Some(d.year) && HexField(raw, 5, 7) == Some(d.month)
    ensures HexField(raw, 7, 9) == Some(d.day) && HexField(raw, 9, 11) == Some(d.hour)
    ensures HexField(raw, 11, 13) == Some(d.minute) && HexField(raw, 13, 15) == Some(d.second)
  {
    PowersOf16();
    FieldHex(d.year, 4);
    FieldHex(d.month, 2);
    FieldHex(d.day, 2);
    FieldHex(d.hour, 2);
    FieldHex(d.minute, 2);
    FieldHex(d.second, 2);
    var y, mo, dd := Hex(d.year, 4), Hex(d.month, 2), Hex(d.day, 2);
    var h, mi, se := Hex(d.hour, 2), Hex(d.minute, 2), Hex(d.second, 2);
    raw := "$" + y + mo + dd + h + mi + se + "00";
    SliceOfFields(y, mo, dd, h, mi, se);
  }

  /** A timestamp is written as '$', the year in four hex digits, five two-digit fields and
      "00", seventeen characters in all, and reads back as itself. */
  lemma DateTimeRoundTrip(d: ValidDateTime)
    ensures DateTimeEncode(Date(d)).Ok?
    ensures var raw := DateTimeEncode(Date(d)).value;
      |raw| == 17 && raw[0] == '$' && raw[15..] == "00"
      && DateTimeDecode(raw) == Ok(Date(d))
  {
    var raw := DateTimeLayout(d);
    NullYear();
    DecodeFields(raw, d);
  }

  /** A field that is not hex is refused, and an accepted raw value reaches the seconds. */
  lemma DateTimeDecodeChecks(raw: string)
    requires raw != "" && raw != DATETIME_NULL
    ensures HexField(raw, 1, 5).None? || HexField(raw, 13, 15).None? ==> DateTimeDecode(raw).Err?
    ensures DateTimeDecode(raw).Ok? ==> |raw| >= 14 && DateTimeDecode(raw).value.Date?
  {
  }

  lemma SliceAfterFirst(raw: string, other: string, lo: nat, hi: nat)
    requires |raw| == |other| >= 1 && raw[1..] == other[1..] && 1 <= lo
    ensures Slice(other, lo, hi) == Slice(raw, lo, hi)
  {
    var l := if lo <= |raw| then lo else |raw|;
    var u := if hi <= |raw| then hi else |raw|;
    if l <= u {
      assert forall i :: 1 <= i < |raw| ==> other[i] == other[1..][i - 1] == raw[1..][i - 1] == raw[i];
      assert |other[l..u]| == |raw[l..u]|;
      assert forall i :: 0 <= i < u - l ==> other[l..u][i] == other[l + i] == raw[l + i] == raw[l..u][i];
    }
  }

  /** The first character is never looked at: the '$' is not checked. */
  lemma DateTimeIgnoresFirstChar(raw: string, c: char)
    requires |raw| >= 1
    requires raw != DATETIME_NULL && [c] + raw[1..] != DATETIME_NULL
    ensures DateTimeDecode([c] + raw[1..]).Ok? <==> DateTimeDecode(raw).Ok?
    ensures DateTimeDecode(raw).Ok? ==> DateTimeDecode([c] + raw[1..]) == DateTimeDecode(raw)
  {
    var other := [c] + raw[1..];
    assert other[1..] == raw[1..] && other != "";
    SliceAfterFirst(raw, other, 1, 5);
    SliceAfterFirst(raw, other, 5, 7);
    SliceAfterFirst(raw, other, 7, 9);
    SliceAfterFirst(raw, other, 9, 11);
    SliceAfterFirst(raw, other, 11, 13);
    SliceAfterFirst(raw, other, 13, 15);
    assert HexField(other, 1, 5) == HexField(raw, 1, 5);
    assert HexField(other, 13, 15) == HexField(raw, 13, 15);
  }

  lemma DateTimeExampleDigits()
    ensures Hex(2018, 4) == "07e2" && Hex(3, 2) == "03" && Hex(14, 2) == "0e"
    ensures Hex(16, 2) == "10" && Hex(7, 2) == "07" && Hex(17, 2) == "11"
  {
  }

  lemma DateTimeExampleText()
    ensures "$" + "07e2" + "03" + "0e" + "10" + "07" + "11" + "00" == "$07e2030e10071100"
  {
  }

  /** '$07e2030e10071100' is 2018-03-14 16:07:17, both ways. */
  lemma DateTimeExample()
    ensures DateTimeEncode(Date(DateTime(2018, 3, 14, 16, 7, 17))) == Ok("$07e2030e10071100")
    ensures DateTimeDecode("$07e2030e10071100") == Ok(Date(DateTime(2018, 3, 14, 16, 7, 17)))
  {
    DateTimeExampleText();
    var d := DateTime(2018, 3, 14, 16, 7, 17);
    assert d.Valid();
    DateTimeExampleDigits();
    DateTimeRoundTrip(d);
  }

  /** Anything false in Python, None included, is written as the all-zero timestamp,
      which reads back as None, as does the empty string. */
  lemma DateTimeNull(v: Value)
    requires !Truthy(v)
    ensures DateTimeEncode(v) == Ok(DATETIME_NULL)
    ensures DateTimeDecode(DATETIME_NULL) == Ok(Null) && DateTimeDecode("") == Ok(Null)
  {
  }

  // ---------------------------------------------------------------------------
  // Proof helpers: sequence identities the proofs above call by name

  lemma SliceOfTail(r: string, lo: nat, hi: nat)
    requires 1 <= |r| && lo <= hi <= |r| - 1
    ensures r[1 + lo .. 1 + hi] == r[1..][lo..hi]
  {
  }

  lemma SnocSplit(a: seq<nat>, b: seq<nat>)
    requires b != []
    ensures a + b == (a + b[..|b| - 1]) + [b[|b| - 1]] && b == b[..|b| - 1] + [b[|b| - 1]]
  {
  }

  lemma StringAssoc(x: string, y: string, z: string)
    ensures (x + y) + z == x + (y + z)
  {
  }
}
