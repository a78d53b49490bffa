/** The translators: pure two-way converters between the hub's raw strings and Python
    values. `Encode` is a translator's `snmp` (Python value to raw string) and `Decode` its
    `pyvalue` (raw string to Python value). A value of a kind a translator cannot take fails
    with TypeMismatch; a raw string a translator cannot read fails with MalformedRawValue. */
module Translators {
  import opened Base
  import opened Strings
  import opened Values

  // ---------------------------------------------------------------------------
  // Fixed-width words of a number, as netaddr's `.words` gives them (most significant first)

  function Words(n: nat, count: nat, size: nat): (ws: seq<nat>)
    requires size > 0
    ensures |ws| == count
    ensures forall i :: 0 <= i < count ==> ws[i] < size
    decreases count
  {
    if count == 0 then [] else Words(n / size, count - 1, size) + [n % size]
  }

  /** ''.join(["{0:0<width>x}".format(w) for w in ws]) */
  function FormatWords(ws: seq<nat>, width: nat): (s: string)
    ensures AllDigits(s, 16) && AllLowerDigits(s)
  {
    if ws == [] then "" else FormatWords(ws[..|ws| - 1], width) + Hex(ws[|ws| - 1], width)
  }

  // ---------------------------------------------------------------------------
  // NullTranslator: None <-> "", anything else by str()

  function NullEncode(v: Value): Result<string> {
    if v.Null? then Ok("")
    else match PyStr(v)
      case Some(s) => Ok(s)
      case None => Err(TypeMismatch)
  }

  function NullDecode(raw: string): Value {
    if raw == "" then Null else Text(raw)
  }

  // ---------------------------------------------------------------------------
  // EnumTranslator: a member by its wire value; snmp() also takes a member's name

  function EnumEncode(k: EnumKind, v: Value): Result<string> {
    if v.Enum? && v.member.Kind() == k then Ok(v.member.WireValue())
    else match PyStr(v)
      case None => Err(TypeMismatch)
      case Some(name) =>
        match FindByName(Members(k), name)
        case Some(m) => Ok(m.WireValue())
        case None => Err(UnknownEnumName(name))
  }

  function EnumDecode(k: EnumKind, raw: string): Result<Value> {
    match FindByValue(Members(k), raw)
    case Some(m) => Ok(Enum(m))
    case None => Err(UnknownEnumValue(raw))
  }

  // ---------------------------------------------------------------------------
  // BoolTranslator: "1" is true, "2" is false

  function BoolEncode(v: Value): string {
    if v.Text? && Lower(v.text) == "false" then "2"
    else if Truthy(v) then "1" else "2"
  }

  function BoolDecode(raw: string): Value {
    Bool(raw == "1")
  }

  // ---------------------------------------------------------------------------
  // IntTranslator and PortTranslator: decimal text, "" for None

  /** int(v) in Python, for the kinds of value that convert. */
  function PyInt(v: Value): Result<int> {
    match v
    case Int(i) => Ok(i)
    case Bool(b) => Ok(if b then 1 else 0)
    case Text(s) =>
      (match ParseInt(s) case Some(i) => Ok(i) case None => Err(MalformedRawValue(s)))
    case Mac(n) => Ok(n)
    case IP4(n) => Ok(n)
    case IP6(n) => Ok(n)
    case _ => Err(TypeMismatch)
  }

  function IntEncode(v: Value): Result<string> {
    if v.Null? then Ok("")
    else match PyInt(v)
      case Ok(i) => Ok(IntToString(i))
      case Err(e) => Err(e)
  }

  function IntDecode(raw: string): Result<Value> {
    if raw == "" then Ok(Null)
    else match ParseInt(raw)
      case Some(i) => Ok(Int(i))
      case None => Err(MalformedRawValue(raw))
  }

  // ---------------------------------------------------------------------------
  // MacAddressTranslator: '$' and 12 hex digits

  const MAC_NULL := "$000000000000"

  function MacEncode(v: Value): Result<string> {
    match v
    case Null => Ok(MAC_NULL)
    case Mac(n) => Ok("$" + Hex(n, 12))
    case _ => Err(TypeMismatch)
  }

  function MacDecode(raw: string): Result<Value> {
    if raw == "" || raw == MAC_NULL then Ok(Null)
    else if !StartsWith(raw, "$") || |raw| != 13 then Err(MalformedRawValue(raw))
    else match ParseHex(raw[1..])
      case None => Err(MalformedRawValue(raw))
      case Some(n) =>
        ValueBound(raw[1..], 16);
        PowersOf16();
        Ok(Mac(n))
  }

  // ---------------------------------------------------------------------------
  // IPv4Translator: '$' and one 2-digit hex pair per octet

  const IPV4_NULL := "$00000000"

  function IPv4Encode(v: Value): Result<string> {
    match v
    case Null => Ok(IPV4_NULL)
    case IP4(n) => Ok("$" + FormatWords(Words(n, 4, 0x100), 2))
    case _ => Err(TypeMismatch)
  }

  function IPv4Decode(raw: string): Result<Value> {
    if raw == "" then Ok(Null)
    else if !StartsWith(raw, "$") || |raw| != 9 then Err(MalformedRawValue(raw))
    else if AllZeros(raw[1..]) then Ok(Null)
    else match ParseHex(raw[1..])
      case None => Err(MalformedRawValue(raw))
      case Some(n) =>
        ValueBound(raw[1..], 16);
        PowersOf16();
        Ok(IP4(n))
  }

  // ---------------------------------------------------------------------------
  // IPv6Translator: '$' and the eight 16-bit words, each with AT LEAST two hex digits

  const IPV6_NULL := "$00000000000000000000000000000000"

  function IPv6Encode(v: Value): Result<string> {
    match v
    case Null => Ok(IPV6_NULL)
    case IP6(n) => Ok("$" + FormatWords(Words(n, 8, 0x10000), 2))
    case _ => Err(TypeMismatch)
  }

  function IPv6Decode(raw: string): Result<Value> {
    if raw == "" then Ok(Null)
    else if !StartsWith(raw, "$") || !(8 < |raw| <= 33) then Err(MalformedRawValue(raw))
    else if AllZeros(raw[1..]) then Ok(Null)
    else match ParseHex(raw[1..])
      case None => Err(MalformedRawValue(raw))
      case Some(n) =>
        ValueBound(raw[1..], 16);
        PowMonotone(16, |raw[1..]|, 32);
        PowersOf16();
        Ok(IP6(n))
  }

  // Proof helpers: powers of 16, used for the bounds above

  lemma PowersOf16()
    ensures Pow(16, 2) == 0x100 && Pow(16, 4) == 0x10000
    ensures Pow(16, 8) == IPV4_LIMIT && Pow(16, 12) == MAC_LIMIT && Pow(16, 32) == IPV6_LIMIT
  {
    assert Pow(16, 4) == 0x10000;
    assert Pow(16, 8) == Pow(16, 4) * Pow(16, 4) by { PowAdd(16, 4, 4); }
    assert Pow(16, 12) == Pow(16, 8) * Pow(16, 4) by { PowAdd(16, 8, 4); }
    assert Pow(16, 16) == Pow(16, 8) * Pow(16, 8) by { PowAdd(16, 8, 8); }
    assert Pow(16, 32) == Pow(16, 16) * Pow(16, 16) by { PowAdd(16, 16, 16); }
  }

  lemma {:induction false} PowAdd(base: nat, j: nat, k: nat)
    ensures Pow(base, j + k) == Pow(base, j) * Pow(base, k)
    decreases k
  {
    if k > 0 {
      PowAdd(base, j, k - 1);
      var a, b := Pow(base, j), Pow(base, k - 1);
      calc {
        Pow(base, j + k);
        base * Pow(base, j + k - 1);
        base * (a * b);
        { MulSwap(base, a, b); }
        a * (base * b);
        a * Pow(base, k);
      }
    }
  }

  lemma MulSwap(x: int, y: int, z: int)
    ensures x * (y * z) == y * (x * z)
  {
  }

  lemma {:induction false} PowMonotone(base: Radix, j: nat, k: nat)
    requires j <= k
    ensures Pow(base, j) <= Pow(base, k)
    decreases k
  {
    if j < k {
      PowMonotone(base, j, k - 1);
    }
  }

  // ---------------------------------------------------------------------------
  // IPAddressTranslator: IPv4 or IPv6 by the raw length

  function IPAddressEncode(v: Value): Result<string> {
    match v
    case Null => Ok(IPV4_NULL)
    case IP4(_) => IPv4Encode(v)
    case IP6(_) => IPv6Encode(v)
    case _ => Err(TypeMismatch)
  }

  /** A raw value without the '$' or shorter than 9 characters gives back an exception
      object as the decoded value instead of failing. */
  function IPAddressDecode(raw: string): Result<Value> {
    if raw == "" then Ok(Null)
    else if !StartsWith(raw, "$") || |raw| < 9 then
      Ok(Raised(raw + " is not an SNMP representation of an IP address!?"))
    else if |raw| == 9 then IPv4Decode(raw)
    else IPv6Decode(raw)
  }

  // ---------------------------------------------------------------------------
  // DateTimeTranslator: '$', year in 4 hex digits, then month, day, hour, minute and
  // second in 2 hex digits each, then a deci-seconds byte written as "00" and never read

  const DATETIME_NULL := "$0000000000000000"

  function DateTimeEncode(v: Value): Result<string> {
    if !Truthy(v) then Ok(DATETIME_NULL)
    else match v
      case Date(d) =>
        Ok("$" + Hex(d.year, 4) + Hex(d.month, 2) + Hex(d.day, 2)
           + Hex(d.hour, 2) + Hex(d.minute, 2) + Hex(d.second, 2) + "00")
      case _ => Err(TypeMismatch)
  }

  /** int(raw[lo:hi], base=16) */
  function HexField(raw: string, lo: nat, hi: nat): Option<nat> {
    ParseHex(Slice(raw, lo, hi))
  }

  function DateTimeDecode(raw: string): Result<Value> {
    if raw == "" || raw == DATETIME_NULL then Ok(Null)
    else
      var year, month, day := HexField(raw, 1, 5), HexField(raw, 5, 7), HexField(raw, 7, 9);
      var hour, minute, second := HexField(raw, 9, 11), HexField(raw, 11, 13), HexField(raw, 13, 15);
      if year.None? || month.None? || day.None? || hour.None? || minute.None? || second.None? then
        Err(MalformedRawValue(raw))
      else
        var d := DateTime(year.value, month.value, day.value, hour.value, minute.value, second.value);
        if d.Valid() then Ok(Date(d)) else Err(MalformedRawValue(raw))
  }

  // ---------------------------------------------------------------------------
  // The translators as one tagged union

  datatype Codec =
    | NullCodec
    | EnumCodec(kind: EnumKind)
    | BoolCodec
    | IntCodec
    | PortCodec
    | MacCodec
    | IPv4Codec
    | IPv6Codec
    | IPAddressCodec
    | DateTimeCodec

  /** The three EnumTranslator instances of the hub module. */
  const IPVersionCodec := EnumCodec(IPVersionEnum)
  const IPProtocolCodec := EnumCodec(IPProtocolEnum)
  const RowStatusCodec := EnumCodec(RowStatusEnum)

  /** The translator's snmp_datatype. */
  function DataTypeOf(c: Codec): DataType {
    match c
    case EnumCodec(k) => if k == IPVersionEnum then STRING else INT
    case BoolCodec => INT
    case IntCodec => INT
    case PortCodec => PORT
    case _ => STRING
  }

  function Encode(c: Codec, v: Value): Result<string> {
    match c
    case NullCodec => NullEncode(v)
    case EnumCodec(k) => EnumEncode(k, v)
    case BoolCodec => Ok(BoolEncode(v))
    case IntCodec => IntEncode(v)
    case PortCodec => IntEncode(v)
    case MacCodec => MacEncode(v)
    case IPv4Codec => IPv4Encode(v)
    case IPv6Codec => IPv6Encode(v)
    case IPAddressCodec => IPAddressEncode(v)
    case DateTimeCodec => DateTimeEncode(v)
  }

  function Decode(c: Codec, raw: string): Result<Value> {
    match c
    case NullCodec => Ok(NullDecode(raw))
    case EnumCodec(k) => EnumDecode(k, raw)
    case BoolCodec => Ok(BoolDecode(raw))
    case IntCodec => IntDecode(raw)
    case PortCodec => IntDecode(raw)
    case MacCodec => MacDecode(raw)
    case IPv4Codec => IPv4Decode(raw)
    case IPv6Codec => IPv6Decode(raw)
    case IPAddressCodec => IPAddressDecode(raw)
    case DateTimeCodec => DateTimeDecode(raw)
  }
}
