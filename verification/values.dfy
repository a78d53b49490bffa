/** The Python-side values the translators produce and accept: the enumerations of the
    hub module, addresses as bounded naturals, timestamps as a record, and None. */
module Values {
  import opened Base
  import opened Strings

  // ---------------------------------------------------------------------------
  // Enumerations (each member has a name and a wire value)

  /** IP address version, wire values "1", "2", "4". */
  datatype IPVersion = IPv4 | IPv6 | GodKnows

  /** IP protocol, wire values "0", "1", "2". */
  datatype IPProtocol = UDP | TCP | BOTH

  /** The RowStatus textual convention of section 2 of RFC 2579, wire values "1" to "6". */
  datatype RowStatus = Active | NotInService | NotReady | CreateAndGo | CreateAndWait | Destroy

  /** The SNMP data type a value is set with. */
  datatype DataType = INT | PORT | STRING

  /** The transport protocols an IPProtocol value stands for. */
  datatype Carrier = Udp | Tcp

  function Carries(p: IPProtocol): set<Carrier> {
    match p
    case UDP => {Udp}
    case TCP => {Tcp}
    case BOTH => {Udp, Tcp}
  }

  /** IPProtocol.overlaps: two protocol settings overlap when they share a transport protocol. */
  function Overlaps(a: IPProtocol, b: IPProtocol): (r: bool)
    ensures r <==> Carries(a) * Carries(b) != {}
  {
    var shared := Carries(a) * Carries(b);
    assert shared != {} <==> Udp in shared || Tcp in shared by {
      if shared != {} {
        var c :| c in shared;
        assert c == Udp || c == Tcp;
      }
    }
    if a == b then true else BOTH in [a, b]
  }

  /** The three enumerations the hub module translates with an EnumTranslator. */
  datatype EnumKind = IPVersionEnum | IPProtocolEnum | RowStatusEnum

  datatype Member = Version(version: IPVersion) | Protocol(protocol: IPProtocol) | Status(status: RowStatus)
  {
    function Kind(): EnumKind {
      match this
      case Version(_) => IPVersionEnum
      case Protocol(_) => IPProtocolEnum
      case Status(_) => RowStatusEnum
    }

    /** member.name */
    function Name(): string {
      match this
      case Version(IPv4) => "IPv4"
      case Version(IPv6) => "IPv6"
      case Version(GodKnows) => "GodKnows"
      case Protocol(UDP) => "UDP"
      case Protocol(TCP) => "TCP"
      case Protocol(BOTH) => "BOTH"
      case Status(Active) => "ACTIVE"
      case Status(NotInService) => "NOT_IN_USE"
      case Status(NotReady) => "NOT_READY"
      case Status(CreateAndGo) => "CREATE_AND_GO"
      case Status(CreateAndWait) => "CREATE_AND_WAIT"
      case Status(Destroy) => "DESTROY"
    }

    /** member.value: what goes over the wire. */
    function WireValue(): string {
      match this
      case Version(IPv4) => "1"
      case Version(IPv6) => "2"
      case Version(GodKnows) => "4"
      case Protocol(UDP) => "0"
      case Protocol(TCP) => "1"
      case Protocol(BOTH) => "2"
      case Status(Active) => "1"
      case Status(NotInService) => "2"
      case Status(NotReady) => "3"
      case Status(CreateAndGo) => "4"
      case Status(CreateAndWait) => "5"
      case Status(Destroy) => "6"
    }
  }

  function ClassName(k: EnumKind): string {
    match k
    case IPVersionEnum => "IPVersion"
    case IPProtocolEnum => "IPProtocol"
    case RowStatusEnum => "RowStatus"
  }

  /** The members of an enumeration, in declaration order. */
  function Members(k: EnumKind): (ms: seq<Member>)
    ensures forall i :: 0 <= i < |ms| ==> ms[i].Kind() == k
  {
    match k
    case IPVersionEnum => [Version(IPv4), Version(IPv6), Version(GodKnows)]
    case IPProtocolEnum => [Protocol(UDP), Protocol(TCP), Protocol(BOTH)]
    case RowStatusEnum =>
      [Status(Active), Status(NotInService), Status(NotReady),
       Status(CreateAndGo), Status(CreateAndWait), Status(Destroy)]
  }

  /** The first member of `ms` whose wire value is `raw`. */
  function FindByValue(ms: seq<Member>, raw: string): (r: Option<Member>)
    ensures r.Some? ==> r.value in ms && r.value.WireValue() == raw
    ensures r.None? ==> forall m :: m in ms ==> m.WireValue() != raw
  {
    if ms == [] then None
    else if ms[0].WireValue() == raw then Some(ms[0])
    else FindByValue(ms[1..], raw)
  }

  /** The first member of `ms` whose name is `name`. */
  function FindByName(ms: seq<Member>, name: string): (r: Option<Member>)
    ensures r.Some? ==> r.value in ms && r.value.Name() == name
    ensures r.None? ==> forall m :: m in ms ==> m.Name() != name
  {
    if ms == [] then None
    else if ms[0].Name() == name then Some(ms[0])
    else FindByName(ms[1..], name)
  }

  // ---------------------------------------------------------------------------
  // Addresses and timestamps

  const MAC_LIMIT: nat := 0x1_0000_0000_0000
  const IPV4_LIMIT: nat := 0x1_0000_0000
  const IPV6_LIMIT: nat := 0x1_0000_0000_0000_0000_0000_0000_0000_0000

  /** An EUI-48 MAC address. */
  type Mac48 = n: nat | n < MAC_LIMIT
  /** An IPv4 address as a 32-bit number. */
  type Address4 = n: nat | n < IPV4_LIMIT
  /** An IPv6 address as a 128-bit number. */
  type Address6 = n: nat | n < IPV6_LIMIT

  predicate IsLeapYear(y: nat) {
    y % 4 == 0 && (y % 100 != 0 || y % 400 == 0)
  }

  function DaysInMonth(y: nat, m: nat): nat
    requires 1 <= m <= 12
  {
    if m == 2 then (if IsLeapYear(y) then 29 else 28)
    else if m in {4, 6, 9, 11} then 30
    else 31
  }

  /** A whole-second datetime.datetime without a time zone. */
  datatype DateTime = DateTime(year: nat, month: nat, day: nat, hour: nat, minute: nat, second: nat)
  {
    /** The ranges datetime.datetime accepts (MINYEAR 1 to MAXYEAR 9999). */
    predicate Valid() {
      1 <= year <= 9999 && 1 <= month <= 12 && 1 <= day <= DaysInMonth(year, month)
      && hour < 24 && minute < 60 && second < 60
    }
  }

  type ValidDateTime = d: DateTime | d.Valid() witness DateTime(1, 1, 1, 0, 0, 0)

  // ---------------------------------------------------------------------------
  // Python values

  /** The Python values that flow through the translators. `Raised` is an exception
      object handed back as a value rather than raised. */
  datatype Value =
    | Null
    | Text(text: string)
    | Int(i: int)
    | Bool(b: bool)
    | Mac(mac: Mac48)
    | IP4(ip4: Address4)
    | IP6(ip6: Address6)
    | Date(date: ValidDateTime)
    | Enum(member: Member)
    | Raised(message: string)

  /** bool(v) in Python. */
  predicate Truthy(v: Value) {
    match v
    case Null => false
    case Text(s) => s != ""
    case Int(i) => i != 0
    case Bool(b) => b
    case Mac(n) => n != 0
    case IP4(n) => n != 0
    case IP6(n) => n != 0
    case Date(_) => true
    case Enum(_) => true
    case Raised(_) => true
  }

  /** str(v) in Python, for the kinds of value whose text form is modelled. */
  function PyStr(v: Value): Option<string> {
    match v
    case Null => Some("None")
    case Text(s) => Some(s)
    case Int(i) => Some(IntToString(i))
    case Bool(b) => Some(if b then "True" else "False")
    case Enum(m) => Some(ClassName(m.Kind()) + "." + m.Name())
    case Raised(msg) => Some(msg)
    case _ => None
  }
}
