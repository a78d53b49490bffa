/** The hub as the attribute and table layer sees it: something that answers snmp_get,
    snmp_set and snmp_walk. The real SNMP transport is not part of this model; in its place
    stands an in-memory hub that can also refuse a set without saying so, or fail outright,
    and that records every call made to it. */
module Hub {
  import opened Base
  import opened Strings
  import opened Values
  import opened Dicts

  /** One call made to the transport. */
  datatype Call =
    | GetCall(oid: string)
    | SetCall(oid: string, raw: string, snmpType: DataType)
    | WalkCall(oid: string)

  /** What the hub holds, as a value. */
  datatype HubState = HubState(
    values: map<string, string>,  // the hub's current raw value per OID
    order: seq<string>,           // the OIDs in the order a walk reports them
    ignored: set<string>,         // OIDs whose sets are acknowledged but not applied
    failing: set<string>)         // OIDs (and walk roots) every access to which raises
  {
    ghost predicate Valid() {
      Distinct(order) && forall o :: o in values <==> o in order
    }

    /** What snmp_get answers. */
    function Answer(oid: string): (r: Result<string>)
      ensures r.Ok? <==> oid !in failing && oid in values
      ensures r.Ok? ==> r.value == values[oid]
      ensures r.Err? ==> r.error == TransportError(oid)
    {
      if oid in failing || oid !in values then Err(TransportError(oid)) else Ok(values[oid])
    }

    /** What snmp_set answers. */
    function SetReply(oid: string): (r: Outcome)
      ensures r.Pass? <==> oid !in failing
    {
      if oid in failing then Fail(TransportError(oid)) else Pass
    }

    /** The hub after snmp_set(oid, raw). */
    function Applied(oid: string, raw: string): (h: HubState)
      ensures Valid() ==> h.Valid()
      ensures h.ignored == ignored && h.failing == failing
      ensures oid !in failing && oid !in ignored ==> h.Answer(oid) == Ok(raw)
      ensures oid in failing || oid in ignored ==> h == this
      ensures forall o :: o != oid ==> h.Answer(o) == Answer(o)
    {
      if oid in failing || oid in ignored then this
      else HubState(values[oid := raw], if oid in values then order else order + [oid], ignored, failing)
    }

    /** What snmp_walk(root) answers: every OID below `root`, in walk order. */
    function Walk(root: string): (r: Result<seq<(string, string)>>)
      requires Valid()
      ensures r.Err? <==> root in failing
      ensures r.Ok? ==> forall p :: p in r.value ==>
        p.0 in values && values[p.0] == p.1 && StartsWith(p.0, root + ".")
      ensures r.Ok? ==> forall o :: o in values && StartsWith(o, root + ".") ==>
        exists p :: p in r.value && p.0 == o
    {
      if root in failing then Err(TransportError(root)) else Ok(Below(order, values, root))
    }
  }

  /** The entries of `oids` below `root`, with their values, in the order of `oids`. */
  function Below(oids: seq<string>, values: map<string, string>, root: string): (ps: seq<(string, string)>)
    requires forall o :: o in oids ==> o in values
    ensures forall p :: p in ps ==> p.0 in oids && values[p.0] == p.1 && StartsWith(p.0, root + ".")
    ensures forall o :: o in oids && StartsWith(o, root + ".") ==> exists p :: p in ps && p.0 == o
  {
    if oids == [] then []
    else
      var rest := Below(oids[1..], values, root);
      if StartsWith(oids[0], root + ".") then [(oids[0], values[oids[0]])] + rest else rest
  }

  /** The in-memory hub, with the calls made to it. */
  class Transport {
    var values: map<string, string>
    var order: seq<string>
    var ignored: set<string>
    var failing: set<string>
    var log: seq<Call>

    function Store(): HubState
      reads this
    {
      HubState(values, order, ignored, failing)
    }

    constructor(hub: HubState)
      requires hub.Valid()
      ensures Store() == hub && Store().Valid() && log == []
    {
      values, order, ignored, failing := hub.values, hub.order, hub.ignored, hub.failing;
      log := [];
    }

    /** snmp_get(oid) */
    method Get(oid: string) returns (r: Result<string>)
      modifies this
      ensures r == old(Store()).Answer(oid)
      ensures Store() == old(Store()) && log == old(log) + [GetCall(oid)]
    {
      r := Store().Answer(oid);
      log := log + [GetCall(oid)];
    }

    /** snmp_set(oid, raw, snmp_datatype) */
    method Set(oid: string, raw: string, snmpType: DataType) returns (r: Outcome)
      modifies this
      ensures r == old(Store()).SetReply(oid)
      ensures Store() == old(Store()).Applied(oid, raw)
      ensures log == old(log) + [SetCall(oid, raw, snmpType)]
    {
      r := Store().SetReply(oid);
      var h := Store().Applied(oid, raw);
      values, order := h.values, h.order;
      log := log + [SetCall(oid, raw, snmpType)];
    }

    /** snmp_walk(root) */
    method Walk(root: string) returns (r: Result<seq<(string, string)>>)
      requires Store().Valid()
      modifies this
      ensures r == old(Store()).Walk(root)
      ensures Store() == old(Store()) && log == old(log) + [WalkCall(root)]
    {
      r := Store().Walk(root);
      log := log + [WalkCall(root)];
    }
  }
}
