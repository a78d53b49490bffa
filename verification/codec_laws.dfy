/** Laws about the translators taken together: which Python values each translator carries
    unchanged through the hub, and what a raw value read from the hub decodes to. */
module CodecLaws {
  import opened Base
  import opened Strings
  import opened Values
  import opened Translators
  import opened TranslatorLaws

  /** The Python values a translator writes so that they read back as themselves. */
  predicate InDomain(c: Codec, v: Value) {
    match c
    case NullCodec => v.Null? || (v.Text? && v.text != "")
    case EnumCodec(k) => v.Enum? && v.member.Kind() == k
    case BoolCodec => v.Bool?
    case IntCodec => v.Null? || v.Int?
    case PortCodec => v.Null? || v.Int?
    case MacCodec => v.Null? || (v.Mac? && v.mac != 0)
    case IPv4Codec => v.Null? || (v.IP4? && v.ip4 != 0)
    case IPv6Codec => v.Null? || (v.IP6? && v.ip6 != 0 && Aligned(Words(v.ip6, 8, 0x10000)))
    case IPAddressCodec =>
      v.Null? || (v.IP4? && v.ip4 != 0)
      || (v.IP6? && v.ip6 != 0 && Aligned(Words(v.ip6, 8, 0x10000)))
    case DateTimeCodec => v.Null? || v.Date?
  }

  /** Every value in a translator's domain is written without error and reads back as itself. */
  lemma CodecRoundTrip(c: Codec, v: Value)
    requires InDomain(c, v)
    ensures Encode(c, v).Ok? && Decode(c, Encode(c, v).value) == Ok(v)
  {
    match c
    case NullCodec => NullRoundTrip("", v);
    case EnumCodec(k) => EnumRoundTrip(v.member);
    case BoolCodec =>
    case IntCodec => if v.Int? { IntRoundTrip(v.i); }
    case PortCodec => if v.Int? { IntRoundTrip(v.i); }
    case MacCodec => if v.Mac? { MacRoundTrip(v.mac); }
    case IPv4Codec =>
      if v.IP4? { IPv4RoundTrip(v.ip4, 0); } else { IPv4NullAndMalformed(""); }
    case IPv6Codec =>
      if v.IP6? { IPv6RoundTrip(v.ip6); } else { IPv6LoopbackDecode(); }
    case IPAddressCodec => IPAddressRoundTrip(v);
    case DateTimeCodec =>
      if v.Date? { DateTimeRoundTrip(v.date); } else { DateTimeNull(v); }
  }

  lemma IPAddressRoundTrip(v: Value)
    requires InDomain(IPAddressCodec, v)
    ensures IPAddressEncode(v).Ok? && IPAddressDecode(IPAddressEncode(v).value) == Ok(v)
  {
    if v.IP4? {
      IPv4RoundTrip(v.ip4, 0);
      var r := IPv4Encode(v).value;
      assert r[..1] == "$";
    } else if v.IP6? {
      IPv6RoundTrip(v.ip6);
      var r := IPv6Encode(v).value;
      assert r[..1] == "$";
    } else {
      IPAddressNullAndShort("");
    }
  }

  /** A payload of digits that denotes zero is all zeros. */
  lemma ZeroPayload(s: string)
    requires |s| > 0 && AllDigits(s, 16) && Number(s, 16) == 0
    ensures AllZeros(s)
  {
    ValueZero(s, 16);
  }

  /** What a MAC, IPv4, integer, enumeration, boolean, text or timestamp translator reads
      from the hub lies in its domain, so writing it back reads back the same value. The
      IPv6 readers are the exception: IPv6EncodeLosesPlaces shows an address read from the
      hub that does not survive being written back. */
  lemma DecodedInDomain(c: Codec, raw: string)
    requires !c.IPv6Codec? && !c.IPAddressCodec?
    ensures Decode(c, raw).Ok? ==> InDomain(c, Decode(c, raw).value)
  {
    match c
    case MacCodec =>
      if MacDecode(raw).Ok? && MacDecode(raw).value.Mac? && MacDecode(raw).value.mac == 0 {
        ZeroPayload(raw[1..]);
        assert false;
      }
    case IPv4Codec =>
      if IPv4Decode(raw).Ok? && IPv4Decode(raw).value.IP4? && IPv4Decode(raw).value.ip4 == 0 {
        ZeroPayload(raw[1..]);
        assert false;
      }
    case _ =>
  }

  /** A value read from the hub by any of those translators is written back as a raw value
      that reads as the same value: writing what was read changes nothing on a re-read. */
  lemma ReadWriteRead(c: Codec, raw: string)
    requires !c.IPv6Codec? && !c.IPAddressCodec?
    requires Decode(c, raw).Ok?
    ensures Encode(c, Decode(c, raw).value).Ok?
    ensures Decode(c, Encode(c, Decode(c, raw).value).value) == Decode(c, raw)
  {
    DecodedInDomain(c, raw);
    CodecRoundTrip(c, Decode(c, raw).value);
  }

  /** The empty raw value is None for every translator except the boolean one, which reads
      it as False, and the enumerations, which have no member with that wire value. */
  lemma EmptyRaw(c: Codec)
    ensures c.BoolCodec? ==> Decode(c, "") == Ok(Bool(false))
    ensures c.EnumCodec? ==> Decode(c, "").Err?
    ensures !c.BoolCodec? && !c.EnumCodec? ==> Decode(c, "") == Ok(Null)
  {
    if c.EnumCodec? {
      EnumDecodeFails(c.kind, "");
    }
  }
}
