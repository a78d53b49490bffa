/** RawAttribute and Attribute: one SNMP value of the hub, cached. The cache holds the raw
    string; Attribute decodes it on every read and encodes on every write. */
module Attributes {
  import opened Base
  import opened Values
  import opened Translators
  import opened Hub

  /** AttributeStatus. UNSET and NEEDS_WRITE carry the same number (2), so Python makes
      NEEDS_WRITE an alias of UNSET: they are one state here, `Unset`. */
  datatype Status = OK | Unset | NeedsRead

  /** `_status` and `_value` of an attribute. Python holds None in `_value` until the first
      read or write; the model holds "" there, which no operation looks at. */
  datatype Cache = Cache(status: Status, raw: string)

  /** RawAttribute.__get__, given what the hub answers to a get. The hub is asked only when
      the status is NeedsRead; a failed get leaves the cache as it was. */
  function ReadStep(oid: string, c: Cache, answer: Result<string>): (r: (Cache, Result<string>))
    ensures c.status == OK ==> r == (c, Ok(c.raw))
    ensures c.status == Unset ==> r == (c, Err(AttributeNotYetSet(oid)))
    ensures c.status == NeedsRead ==> r.1 == answer
    ensures r.1.Ok? ==> r.0 == Cache(OK, r.1.value)
    ensures r.1.Err? ==> r.0 == c
  {
    match c.status
    case OK => (c, Ok(c.raw))
    case Unset => (c, Err(AttributeNotYetSet(oid)))
    case NeedsRead =>
      match answer
      case Ok(raw) => (Cache(OK, raw), Ok(raw))
      case Err(e) => (c, Err(e))
  }

  /** RawAttribute._write, given the hub's reply to the set and, with read-back on, its
      answer to the get that follows. A failure at any step leaves the cache as it was. */
  function WriteStep(oid: string, c: Cache, raw: string, readback: bool, setReply: Outcome,
                     answer: Result<string>): (r: (Cache, Outcome))
    ensures r.1.Pass? <==> setReply.Pass? && (!readback || answer == Ok(raw))
    ensures r.1.Pass? ==> r.0 == Cache(OK, raw)
    ensures r.1.Fail? ==> r.0 == c
    ensures setReply.Pass? && readback && answer.Ok? && answer.value != raw ==>
      r.1 == Fail(WriteNotAccepted(oid, raw, answer.value))
  {
    if setReply.Fail? then (c, setReply)
    else if readback && answer.Err? then (c, Fail(answer.error))
    else if readback && answer.value != raw then (c, Fail(WriteNotAccepted(oid, raw, answer.value)))
    else (Cache(OK, raw), Pass)
  }

  /** The calls _write makes: the set, then, if the set went through and read-back is on,
      one get. */
  function WriteCalls(oid: string, raw: string, snmpType: DataType, readback: bool, setReply: Outcome): (cs: seq<Call>)
    ensures |cs| >= 1 && cs[0] == SetCall(oid, raw, snmpType)
    ensures |cs| == 2 <==> setReply.Pass? && readback
    ensures |cs| == 2 ==> cs[1] == GetCall(oid)
  {
    [SetCall(oid, raw, snmpType)] + (if setReply.Pass? && readback then [GetCall(oid)] else [])
  }

  /** Attribute.__get__ after RawAttribute.__get__: the raw result, decoded. */
  function Translated(codec: Codec, r: Result<string>): Result<Value> {
    match r
    case Ok(raw) => Decode(codec, raw)
    case Err(e) => Err(e)
  }

  /** Once a read has succeeded, every later read gives the same raw value whatever the hub
      would answer, and asks nothing of it. */
  lemma ReadIsCached(oid: string, c: Cache, answer: Result<string>, later: Result<string>)
    requires ReadStep(oid, c, answer).1.Ok?
    ensures var (c', r) := ReadStep(oid, c, answer);
      c'.status == OK && ReadStep(oid, c', later) == (c', r)
  {
  }

  /** After a write that went through, a read gives exactly what was written, without
      asking the hub. */
  lemma ReadAfterWrite(oid: string, c: Cache, raw: string, readback: bool, setReply: Outcome,
                       answer: Result<string>, later: Result<string>)
    requires WriteStep(oid, c, raw, readback, setReply, answer).1.Pass?
    ensures var c' := WriteStep(oid, c, raw, readback, setReply, answer).0;
      c'.status == OK && ReadStep(oid, c', later) == (c', Ok(raw))
  {
  }

  class Attribute {
    const oid: string
    const codec: Codec
    const readback: bool
    var status: Status
    var raw: string

    function State(): Cache
      reads this
    {
      Cache(status, raw)
    }

    constructor(oid: string, codec: Codec, readback: bool, status: Status, raw: string)
      ensures this.oid == oid && this.codec == codec && this.readback == readback
      ensures State() == Cache(status, raw)
    {
      this.oid, this.codec, this.readback := oid, codec, readback;
      this.status, this.raw := status, raw;
    }

    /** Attribute.__init__ with RawAttribute.__init__: NEEDS_READ ignores `v`; otherwise `v`
        is encoded first, and Unset (NEEDS_WRITE) then needs a transport and writes at once. */
    static method Create(t: Transport?, oid: string, codec: Codec, v: Value, status: Status, readback: bool)
      returns (r: Result<Attribute>)
      modifies t
      ensures r.Ok? ==> fresh(r.value)
      ensures r.Ok? ==> r.value.oid == oid && r.value.codec == codec && r.value.readback == readback
      ensures status == NeedsRead ==> r.Ok? && r.value.status == NeedsRead
      ensures status == OK ==> r.Ok? == Encode(codec, v).Ok?
      ensures status == OK && r.Ok? ==> r.value.State() == Cache(OK, Encode(codec, v).value)
      ensures status != NeedsRead && Encode(codec, v).Err? ==> r == Err(Encode(codec, v).error)
      ensures t != null && (status != Unset || Encode(codec, v).Err?) ==> unchanged(t)
      ensures status == Unset && Encode(codec, v).Ok? && t == null ==> r == Err(MissingWriteContext)
      ensures status == Unset && Encode(codec, v).Ok? && t != null ==>
        var raw := Encode(codec, v).value;
        var (c, o) := WriteStep(oid, Cache(Unset, raw), raw, readback, old(t.Store()).SetReply(oid),
                                old(t.Store()).Applied(oid, raw).Answer(oid));
        && t.Store() == old(t.Store()).Applied(oid, raw)
        && t.log == old(t.log) + WriteCalls(oid, raw, DataTypeOf(codec), readback, old(t.Store()).SetReply(oid))
        && (r.Ok? <==> o.Pass?)
        && (r.Ok? ==> r.value.State() == c)
        && (r.Err? ==> r.error == o.error)
    {
      if status == NeedsRead {
        var a := new Attribute(oid, codec, readback, NeedsRead, "");
        return Ok(a);
      }
      var e := Encode(codec, v);
      if e.Err? {
        return Err(e.error);
      }
      if status == Unset && t == null {
        return Err(MissingWriteContext);
      }
      var a := new Attribute(oid, codec, readback, status, e.value);
      if status == Unset {
        var o := a.WriteRaw(t, e.value);
        if o.Fail? {
          return Err(o.error);
        }
      }
      return Ok(a);
    }

    /** RawAttribute.reread: fetch the value from the hub whatever the status. */
    method Reread(t: Transport) returns (o: Outcome)
      modifies this, t
      ensures var answer := old(t.Store()).Answer(oid);
        && (answer.Ok? ==> o == Pass && State() == Cache(OK, answer.value))
        && (answer.Err? ==> o == Fail(answer.error) && State() == old(State()))
      ensures t.Store() == old(t.Store()) && t.log == old(t.log) + [GetCall(oid)]
    {
      var got := t.Get(oid);
      if got.Err? {
        return Fail(got.error);
      }
      raw, status := got.value, OK;
      o := Pass;
    }

    /** RawAttribute.__get__: a reread when the status is NeedsRead, then the cached raw value. */
    method RawRead(t: Transport) returns (r: Result<string>)
      modifies this, t
      ensures (State(), r) == ReadStep(oid, old(State()), old(t.Store()).Answer(oid))
      ensures t.Store() == old(t.Store())
      ensures t.log == old(t.log) + (if old(status) == NeedsRead then [GetCall(oid)] else [])
    {
      if status == NeedsRead {
        var o := Reread(t);
        if o.Fail? {
          return Err(o.error);
        }
      } else if status == Unset {
        return Err(AttributeNotYetSet(oid));
      }
      return Ok(raw);
    }

    /** Attribute.__get__: the raw value through the translator. */
    method Read(t: Transport) returns (r: Result<Value>)
      modifies this, t
      ensures var (c, raw) := ReadStep(oid, old(State()), old(t.Store()).Answer(oid));
        State() == c && r == Translated(codec, raw)
      ensures t.Store() == old(t.Store())
      ensures t.log == old(t.log) + (if old(status) == NeedsRead then [GetCall(oid)] else [])
    {
      var got := RawRead(t);
      r := Translated(codec, got);
    }

    /** RawAttribute._write (its __set__): set, optionally read back and compare, then cache. */
    method WriteRaw(t: Transport, value: string) returns (o: Outcome)
      modifies this, t
      ensures var reply := old(t.Store()).SetReply(oid);
        (State(), o) == WriteStep(oid, old(State()), value, readback, reply,
                                  old(t.Store()).Applied(oid, value).Answer(oid))
        && t.log == old(t.log) + WriteCalls(oid, value, DataTypeOf(codec), readback, reply)
      ensures t.Store() == old(t.Store()).Applied(oid, value)
    {
      o := t.Set(oid, value, DataTypeOf(codec));
      if o.Fail? {
        return;
      }
      if readback {
        var got := t.Get(oid);
        if got.Err? {
          return Fail(got.error);
        }
        if got.value != value {
          return Fail(WriteNotAccepted(oid, value, got.value));
        }
      }
      raw, status := value, OK;
    }

    /** Attribute.__set__: encode, then write the raw value. A value the translator cannot
        take fails before any call to the hub. */
    method Write(t: Transport, v: Value) returns (o: Outcome)
      modifies this, t
      ensures Encode(codec, v).Err? ==>
        o == Fail(Encode(codec, v).error) && unchanged(this) && unchanged(t)
      ensures Encode(codec, v).Ok? ==>
        var value := Encode(codec, v).value;
        var reply := old(t.Store()).SetReply(oid);
        (State(), o) == WriteStep(oid, old(State()), value, readback, reply,
                                  old(t.Store()).Applied(oid, value).Answer(oid))
        && t.log == old(t.log) + WriteCalls(oid, value, DataTypeOf(codec), readback, reply)
        && t.Store() == old(t.Store()).Applied(oid, value)
    {
      var e := Encode(codec, v);
      if e.Err? {
        return Fail(e.error);
      }
      o := WriteRaw(t, e.value);
    }

    /** RawAttribute.__delete__: deleting a hub value is refused. */
    method Delete() returns (o: Outcome)
      ensures o == Fail(UnsupportedOperation)
    {
      o := Fail(UnsupportedOperation);
    }
  }
}
