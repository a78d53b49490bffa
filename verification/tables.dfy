/** Table: an SNMP table as an insertion-ordered dict from row key to row, loaded from one
    walk of the table OID; new rows are written to the hub as they are made, and a deleted
    row with a `rowstatus` attribute is told to destroy itself first. */
module Tables {
  import opened Base
  import opened Values
  import opened Translators
  import opened CodecLaws
  import opened Dicts
  import opened Hub
  import opened Attributes
  import opened TableParse
  import opened Rows

  // ---------------------------------------------------------------------------
  // Loading rows from a walk

  /** The declared columns present in a raw row, in mapping order. */
  function Present(columns: seq<Column>, cells: Dict<string>): seq<Column> {
    WithIds(columns, cells.entries.Keys)
  }

  /** The raw value a loaded cell is cached with: the walked value decoded by the column's
      translator and encoded again. */
  function Seed(codec: Codec, raw: string): Result<string> {
    match Decode(codec, raw)
    case Ok(v) => Encode(codec, v)
    case Err(e) => Err(e)
  }

  /** A seeded value reads as the walked value read, for every translator but the IPv6 ones. */
  lemma SeedReadsAsWalked(codec: Codec, raw: string)
    requires !codec.IPv6Codec? && !codec.IPAddressCodec? && Seed(codec, raw).Ok?
    ensures Decode(codec, Seed(codec, raw).value) == Decode(codec, raw)
  {
    ReadWriteRead(codec, raw);
  }

  /** The rows the constructor keeps: those with a declared column, in walk order. */
  function KeptRows(columns: seq<Column>, keys: seq<string>, raw: map<string, Dict<string>>): (ks: seq<string>)
    requires forall k :: k in keys ==> k in raw
    ensures forall k :: k in ks <==> k in keys && Present(columns, raw[k]) != []
  {
    if keys == [] then []
    else
      var last := keys[|keys| - 1];
      var init := KeptRows(columns, keys[..|keys| - 1], raw);
      if Present(columns, raw[last]) != [] then init + [last] else init
  }

  lemma KeptRowsNext(columns: seq<Column>, keys: seq<string>, i: nat, raw: map<string, Dict<string>>)
    requires i < |keys| && forall k :: k in keys ==> k in raw
    ensures KeptRows(columns, keys[..i + 1], raw) ==
      KeptRows(columns, keys[..i], raw) + (if Present(columns, raw[keys[i]]) != [] then [keys[i]] else [])
    ensures forall k :: k in keys[..i + 1] <==> k in keys[..i] || k == keys[i]
  {
    assert keys[..i + 1][..i] == keys[..i];
  }

  /** `a` is the cell of column `c` in row `key`: its OID, translator and read-back setting
      are the column's. */
  predicate CellOf(a: Attribute, tableOid: string, key: string, c: Column) {
    a.oid == CellOid(tableOid, c.id, key) && a.codec == c.codec && a.readback == c.readback
  }

  /** The attribute the constructor makes for column `c` of row `key` from the walked `raw`. */
  ghost predicate Seeded(a: Attribute, tableOid: string, key: string, c: Column, raw: string)
    reads a
  {
    CellOf(a, tableOid, key, c) && Seed(c.codec, raw).Ok? && a.State() == Cache(OK, Seed(c.codec, raw).value)
  }

  /** Every declared cell of a raw row survives decoding and encoding. */
  ghost predicate SeedsOk(columns: seq<Column>, cells: Dict<string>) {
    forall c :: c in columns && c.id in cells.entries ==> Seed(c.codec, cells.entries[c.id]).Ok?
  }

  /** A row as the constructor makes it from the raw row `cells`: the declared columns, in
      mapping order, each an OK attribute seeded from its walked value. */
  ghost predicate RowLoaded(row: Row, tableOid: string, key: string, columns: seq<Column>, cells: Dict<string>)
    reads row.attrs.entries.Values
  {
    var present := Present(columns, cells);
    row.Valid() && row.attrs.keys == Names(present)
    && forall i :: 0 <= i < |present| ==>
      Seeded(row.attrs.entries[present[i].name], tableOid, key, present[i], cells.entries[present[i].id])
  }

  /** Distinct ids and distinct names: a column is known by either. */
  lemma MappingKeys(columns: seq<Column>)
    requires Mapping(columns)
    ensures forall c, d :: c in columns && d in columns && c.name == d.name ==> c == d
    ensures forall c, d :: c in columns && d in columns && c.id == d.id ==> c == d
  {
  }

  /** The first dict comprehension of the constructor for one row: an attribute per declared
      cell, with status OK, in the raw row's column order. The first cell whose raw value
      cannot be decoded, or whose decoded value cannot be encoded, stops it. */
  method SeedCells(tableOid: string, columns: seq<Column>, key: string, cells: Dict<string>)
    returns (r: Result<map<string, Attribute>>)
    requires Mapping(columns) && cells.Valid()
    ensures r.Ok? <==> SeedsOk(columns, cells)
    ensures r.Ok? ==> forall c :: c in columns ==> (c.name in r.value <==> c.id in cells.entries)
    ensures r.Ok? ==> forall c :: c in columns && c.id in cells.entries ==>
      Seeded(r.value[c.name], tableOid, key, c, cells.entries[c.id])
    ensures r.Ok? ==> forall n :: n in r.value ==> fresh(r.value[n])
  {
    MappingKeys(columns);
    var attrs: map<string, Attribute> := map[];
    for j := 0 to |cells.keys|
      invariant forall n :: n in attrs ==> fresh(attrs[n])
      invariant forall c :: c in columns ==> (c.name in attrs <==> c.id in cells.keys[..j])
      invariant forall c :: c in columns && c.id in cells.keys[..j] ==>
        Seeded(attrs[c.name], tableOid, key, c, cells.entries[c.id])
    {
      var id := cells.keys[j];
      assert cells.keys[..j + 1] == cells.keys[..j] + [id];
      match ColumnFor(columns, id) {
        case None =>
        case Some(c) =>
          var v := Decode(c.codec, cells.entries[id]);
          if v.Err? {
            return Err(v.error);
          }
          // status OK: the attribute is only cached, so no transport is needed
          var a := Attribute.Create(null, CellOid(tableOid, id, key), c.codec, v.value, OK, c.readback);
          if a.Err? {
            return Err(a.error);
          }
          attrs := attrs[c.name := a.value];
      }
    }
    assert cells.keys[..|cells.keys|] == cells.keys;
    return Ok(attrs);
  }

  lemma NamesAppend(cs: seq<Column>, c: Column)
    ensures Names(cs + [c]) == Names(cs) + [c.name]
  {
  }

  /** No column before the `j`th has the `j`th's name. */
  lemma NameIsNew(columns: seq<Column>, names: set<string>, j: nat)
    requires Mapping(columns) && j < |columns|
    ensures columns[j].name !in Names(WithNames(columns[..j], names))
  {
  }

  /** The second dict comprehension of the constructor: the attributes of `m` again, in
      mapping order. */
  method InMappingOrder(columns: seq<Column>, m: map<string, Attribute>) returns (d: Dict<Attribute>)
    requires Mapping(columns)
    ensures d.Valid() && d.keys == Names(WithNames(columns, m.Keys))
    ensures forall n :: n in d.entries ==> n in m && d.entries[n] == m[n]
  {
    d := Empty();
    for j := 0 to |columns|
      invariant d.Valid() && d.keys == Names(WithNames(columns[..j], m.Keys))
      invariant forall n :: n in d.entries ==> n in m && d.entries[n] == m[n]
    {
      var c := columns[j];
      WithNamesNext(columns, m.Keys, j);
      if c.name in m {
        NameIsNew(columns, m.Keys, j);
        NamesAppend(WithNames(columns[..j], m.Keys), c);
        d := d.Put(c.name, m[c.name]);
      }
    }
    assert columns[..|columns|] == columns;
  }

  /** The constructor's work for one kept row: its attributes, made in raw column order,
      then listed in mapping order. */
  method LoadRow(tableOid: string, columns: seq<Column>, key: string, cells: Dict<string>)
    returns (r: Result<Row>)
    requires Mapping(columns) && cells.Valid()
    ensures r.Ok? <==> SeedsOk(columns, cells)
    ensures r.Ok? ==> fresh(r.value) && RowLoaded(r.value, tableOid, key, columns, cells)
    ensures r.Ok? ==> forall n :: n in r.value.attrs.entries ==> fresh(r.value.attrs.entries[n])
  {
    var first := SeedCells(tableOid, columns, key, cells);
    if first.Err? {
      return Err(first.error);
    }
    SameSelection(columns, first.value.Keys, cells.entries.Keys);
    var attrs := InMappingOrder(columns, first.value);
    var row := new Row(attrs);
    return Ok(row);
  }

  /** The walk the constructor works from: the one passed in, or, when none (or an empty
      one) is passed, the transport's walk of the table OID. */
  ghost function Walked(hub: HubState, tableOid: string, given: WalkResult): Result<WalkResult>
    requires hub.Valid()
  {
    if given != [] then Ok(given) else hub.Walk(tableOid)
  }

  /** The constructor's loops over the parsed walk: the rows with a declared column, in
      walk order, each loaded by LoadRow; the first cell that fails to load fails it all. */
  method LoadRows(tableOid: string, columns: seq<Column>, raw: RawTable) returns (r: Result<Dict<Row>>)
    requires Mapping(columns) && WellFormed(raw)
    ensures r.Ok? <==> forall k :: k in raw.entries ==> SeedsOk(columns, raw.entries[k])
    ensures r.Ok? ==> r.value.Valid() && r.value.keys == KeptRows(columns, raw.keys, raw.entries)
    ensures r.Ok? ==> forall k :: k in r.value.entries ==>
      k in raw.entries && fresh(r.value.entries[k])
      && RowLoaded(r.value.entries[k], tableOid, k, columns, raw.entries[k])
  {
    var rows: Dict<Row> := Empty();
    for i := 0 to |raw.keys|
      invariant rows.Valid() && rows.keys == KeptRows(columns, raw.keys[..i], raw.entries)
      invariant forall k :: k in raw.keys[..i] ==> SeedsOk(columns, raw.entries[k])
      invariant forall k :: k in rows.entries ==>
        k in raw.entries && fresh(rows.entries[k])
        && RowLoaded(rows.entries[k], tableOid, k, columns, raw.entries[k])
    {
      var next := LoadNext(tableOid, columns, raw, i, rows);
      if next.Err? {
        return Err(next.error);
      }
      rows := next.value;
    }
    assert raw.keys[..|raw.keys|] == raw.keys;
    return Ok(rows);
  }

  /** One step of the constructor's loop: load the i-th walked row, if it has a declared
      column, and add it to the rows loaded so far. */
  method LoadNext(tableOid: string, columns: seq<Column>, raw: RawTable, i: nat, rows: Dict<Row>)
    returns (r: Result<Dict<Row>>)
    requires Mapping(columns) && WellFormed(raw) && i < |raw.keys|
    requires rows.Valid() && rows.keys == KeptRows(columns, raw.keys[..i], raw.entries)
    requires forall k :: k in rows.entries ==>
      k in raw.entries && RowLoaded(rows.entries[k], tableOid, k, columns, raw.entries[k])
    ensures r.Ok? <==> SeedsOk(columns, raw.entries[raw.keys[i]])
    ensures r.Ok? ==> r.value.Valid() && r.value.keys == KeptRows(columns, raw.keys[..i + 1], raw.entries)
    ensures r.Ok? ==> forall k :: k in r.value.entries ==>
      k in raw.entries && (k in rows.entries ==> r.value.entries[k] == rows.entries[k])
      && (k !in rows.entries ==> fresh(r.value.entries[k]))
      && RowLoaded(r.value.entries[k], tableOid, k, columns, raw.entries[k])
  {
    var key := raw.keys[i];
    KeptRowsNext(columns, raw.keys, i, raw.entries);
    var cells := raw.entries[key];
    if Present(columns, cells) == [] {
      return Ok(rows);
    }
    assert key !in rows.entries by {
      assert raw.keys[i] !in raw.keys[..i];
    }
    var row := LoadRow(tableOid, columns, key, cells);
    if row.Err? {
      return Err(row.error);
    }
    r := Ok(rows.Put(key, row.value));
  }

  // ---------------------------------------------------------------------------
  // Creating rows

  /** The first argument name that is not a column name. */
  function FirstUnknown(args: seq<string>, names: seq<string>): (r: Option<string>)
    ensures r.None? <==> forall a :: a in args ==> a in names
    ensures r.Some? ==> r.value in args && r.value !in names
  {
    if args == [] then None
    else if args[0] !in names then Some(args[0])
    else FirstUnknown(args[1..], names)
  }

  /** new_row's check of its keyword arguments, in the order they were passed. */
  method CheckArgs(args: seq<string>, names: seq<string>) returns (r: Option<string>)
    ensures r == FirstUnknown(args, names)
  {
    for i := 0 to |args|
      invariant FirstUnknown(args, names) == FirstUnknown(args[i..], names)
    {
      assert args[i..][1..] == args[i + 1..];
      if args[i] !in names {
        return Some(args[i]);
      }
    }
    assert args[|args|..] == [];
    return None;
  }

  /** The sets among some calls, in order. */
  function Sets(calls: seq<Call>): seq<Call> {
    if calls == [] then []
    else (if calls[0].SetCall? then [calls[0]] else []) + Sets(calls[1..])
  }

  lemma {:induction false} SetsAppend(a: seq<Call>, b: seq<Call>)
    ensures Sets(a + b) == Sets(a) + Sets(b)
  {
    if a == [] {
      assert a + b == b;
    } else {
      assert (a + b)[0] == a[0] && (a + b)[1..] == a[1..] + b;
      SetsAppend(a[1..], b);
    }
  }

  /** Proof helper: call lists concatenate associatively. */
  lemma CallsAssoc(a: seq<Call>, b: seq<Call>, c: seq<Call>)
    ensures (a + b) + c == a + (b + c)
  {
  }

  /** A write makes exactly one set. */
  lemma SetsOfWrite(oid: string, raw: string, snmpType: DataType, readback: bool, setReply: Outcome)
    ensures Sets(WriteCalls(oid, raw, snmpType, readback, setReply)) == [SetCall(oid, raw, snmpType)]
  {
    var cs := WriteCalls(oid, raw, snmpType, readback, setReply);
    if |cs| == 2 {
      assert cs[1..][1..] == [];
      assert Sets(cs[1..]) == [] + Sets(cs[1..][1..]);
    }
    assert Sets(cs) == [cs[0]] + Sets(cs[1..]);
  }

  /** The attribute new_row makes for column `c` of row `key`, once written: it is cached,
      with the column's OID, translator and read-back setting. */
  ghost predicate Written(a: Attribute, tableOid: string, key: string, c: Column)
    reads a
  {
    CellOf(a, tableOid, key, c) && a.status == OK
  }

  /** `raws[i]` is what the translator of `cs[i]` makes of the argument named like that
      column. */
  ghost predicate EncodesTo(cs: seq<Column>, args: Dict<Value>, raws: seq<string>) {
    |cs| == |raws|
    && (cs != [] ==>
      var n := |cs| - 1;
      && cs[n].name in args.entries && Encode(cs[n].codec, args.entries[cs[n].name]) == Ok(raws[n])
      && EncodesTo(cs[..n], args, raws[..n]))
  }

  lemma {:induction false} EncodesAt(cs: seq<Column>, args: Dict<Value>, raws: seq<string>, i: nat)
    requires EncodesTo(cs, args, raws) && i < |cs|
    ensures cs[i].name in args.entries && Encode(cs[i].codec, args.entries[cs[i].name]) == Ok(raws[i])
  {
    if i < |cs| - 1 {
      EncodesAt(cs[..|cs| - 1], args, raws[..|cs| - 1], i);
    }
  }

  lemma EncodesNext(cs: seq<Column>, args: Dict<Value>, raws: seq<string>, i: nat, raw: string)
    requires i < |cs| && EncodesTo(cs[..i], args, raws)
    requires cs[i].name in args.entries && Encode(cs[i].codec, args.entries[cs[i].name]) == Ok(raw)
    ensures EncodesTo(cs[..i + 1], args, raws + [raw])
  {
    assert cs[..i + 1][..i] == cs[..i] && (raws + [raw])[..i] == raws;
  }

  /** A value that its column's translator carries unchanged is read back from the new row's
      cache as the value passed to new_row. */
  lemma WrittenReadsBack(cs: seq<Column>, args: Dict<Value>, raws: seq<string>, i: nat)
    requires EncodesTo(cs, args, raws) && i < |cs|
    requires cs[i].name in args.entries && InDomain(cs[i].codec, args.entries[cs[i].name])
    ensures Decode(cs[i].codec, raws[i]) == Ok(args.entries[cs[i].name])
  {
    EncodesAt(cs, args, raws, i);
    CodecRoundTrip(cs[i].codec, args.entries[cs[i].name]);
  }

  /** The sets new_row makes for the columns `cs`, written as `raws`, in order. */
  function NewSets(tableOid: string, key: string, cs: seq<Column>, raws: seq<string>): (ss: seq<Call>)
    requires |cs| == |raws|
    ensures |ss| == |cs|
  {
    if cs == [] then []
    else
      var n := |cs| - 1;
      NewSets(tableOid, key, cs[..n], raws[..n]) + [SetCall(CellOid(tableOid, cs[n].id, key), raws[n], DataTypeOf(cs[n].codec))]
  }

  /** The calls new_row's writes make once every one of them went through: for each column in
      order, its set and, with read-back on, the get that checks it. */
  function NewCalls(tableOid: string, key: string, cs: seq<Column>, raws: seq<string>): seq<Call>
    requires |cs| == |raws|
  {
    if cs == [] then []
    else
      var n := |cs| - 1;
      NewCalls(tableOid, key, cs[..n], raws[..n])
        + WriteCalls(CellOid(tableOid, cs[n].id, key), raws[n], DataTypeOf(cs[n].codec), cs[n].readback, Pass)
  }

  /** The hub after new_row's sets for the columns `cs`, written as `raws`, in order. */
  function Stored(hub: HubState, tableOid: string, key: string, cs: seq<Column>, raws: seq<string>): (h: HubState)
    requires |cs| == |raws|
    ensures h.failing == hub.failing && h.ignored == hub.ignored
  {
    if cs == [] then hub
    else
      var n := |cs| - 1;
      Stored(hub, tableOid, key, cs[..n], raws[..n]).Applied(CellOid(tableOid, cs[n].id, key), raws[n])
  }

  /** Cells of one row in different columns have different OIDs. */
  lemma CellOidsDiffer(tableOid: string, id1: string, id2: string, key: string)
    requires id1 != id2
    ensures CellOid(tableOid, id1, key) != CellOid(tableOid, id2, key)
  {
    var p := tableOid + ".";
    var a, b := CellOid(tableOid, id1, key), CellOid(tableOid, id2, key);
    if |id1| == |id2| {
      assert a[|p|..|p| + |id1|] == id1 && b[|p|..|p| + |id2|] == id2;
    } else {
      assert |a| != |b|;
    }
  }

  /** After new_row's writes, the hub answers each written cell with the raw value written
      to it, unless that OID fails or ignores sets. */
  lemma {:induction false} StoredAnswers(hub: HubState, tableOid: string, key: string, cs: seq<Column>,
                                         raws: seq<string>, k: nat)
    requires Mapping(cs) && |cs| == |raws| && k < |cs|
    requires CellOid(tableOid, cs[k].id, key) !in hub.failing && CellOid(tableOid, cs[k].id, key) !in hub.ignored
    ensures Stored(hub, tableOid, key, cs, raws).Answer(CellOid(tableOid, cs[k].id, key)) == Ok(raws[k])
  {
    var n := |cs| - 1;
    if k < n {
      assert cs[..n][k] == cs[k] && raws[..n][k] == raws[k];
      StoredAnswers(hub, tableOid, key, cs[..n], raws[..n], k);
      CellOidsDiffer(tableOid, cs[n].id, cs[k].id, key);
    }
  }

  /** new_row's writes change the hub's answer for no OID but the row's written cells. */
  lemma {:induction false} StoredElsewhere(hub: HubState, tableOid: string, key: string, cs: seq<Column>,
                                           raws: seq<string>, oid: string)
    requires |cs| == |raws|
    requires forall i :: 0 <= i < |cs| ==> oid != CellOid(tableOid, cs[i].id, key)
    ensures Stored(hub, tableOid, key, cs, raws).Answer(oid) == hub.Answer(oid)
  {
    if cs != [] {
      var n := |cs| - 1;
      assert forall i :: 0 <= i < n ==> cs[..n][i] == cs[i];
      StoredElsewhere(hub, tableOid, key, cs[..n], raws[..n], oid);
    }
  }

  /** Among new_row's calls, the sets are exactly one per column, in mapping order. */
  lemma {:induction false} NewCallsSets(tableOid: string, key: string, cs: seq<Column>, raws: seq<string>)
    requires |cs| == |raws|
    ensures Sets(NewCalls(tableOid, key, cs, raws)) == NewSets(tableOid, key, cs, raws)
  {
    if cs != [] {
      var n := |cs| - 1;
      var oid := CellOid(tableOid, cs[n].id, key);
      NewCallsSets(tableOid, key, cs[..n], raws[..n]);
      SetsAppend(NewCalls(tableOid, key, cs[..n], raws[..n]),
                 WriteCalls(oid, raws[n], DataTypeOf(cs[n].codec), cs[n].readback, Pass));
      SetsOfWrite(oid, raws[n], DataTypeOf(cs[n].codec), cs[n].readback, Pass);
    }
  }

  lemma WritesNext(hub: HubState, tableOid: string, key: string, cs: seq<Column>, raws: seq<string>, i: nat,
                   raw: string)
    requires i < |cs| && |raws| == i
    ensures NewCalls(tableOid, key, cs[..i + 1], raws + [raw]) ==
      NewCalls(tableOid, key, cs[..i], raws)
        + WriteCalls(CellOid(tableOid, cs[i].id, key), raw, DataTypeOf(cs[i].codec), cs[i].readback, Pass)
    ensures Stored(hub, tableOid, key, cs[..i + 1], raws + [raw]) ==
      Stored(hub, tableOid, key, cs[..i], raws).Applied(CellOid(tableOid, cs[i].id, key), raw)
  {
    assert cs[..i + 1][..i] == cs[..i] && (raws + [raw])[..i] == raws;
  }

  /** `attrs` holds, in order, an attribute written for each of the first `n` columns of
      `cs`, whose raw value is the matching one of `raws`. */
  ghost predicate MadeCells(attrs: Dict<Attribute>, tableOid: string, key: string, cs: seq<Column>, n: nat,
                            raws: seq<string>)
    reads attrs.entries.Values
  {
    && n <= |cs| && |raws| == n && attrs.Valid() && attrs.keys == Names(cs[..n])
    && forall k :: 0 <= k < n ==>
      Written(attrs.entries[cs[k].name], tableOid, key, cs[k]) && attrs.entries[cs[k].name].raw == raws[k]
  }

  lemma MadeCellsNext(attrs: Dict<Attribute>, tableOid: string, key: string, cs: seq<Column>, i: nat,
                      raws: seq<string>, a: Attribute)
    requires i < |cs| && Mapping(cs) && MadeCells(attrs, tableOid, key, cs, i, raws)
    requires Written(a, tableOid, key, cs[i])
    ensures MadeCells(attrs.Put(cs[i].name, a), tableOid, key, cs, i + 1, raws + [a.raw])
  {
    assert cs[..i + 1] == cs[..i] + [cs[i]];
    NamesAppend(cs[..i], cs[i]);
    assert forall k :: 0 <= k < i ==> cs[k].name != cs[i].name;
    assert cs[i].name !in attrs.entries by {
      assert forall k :: 0 <= k < i ==> attrs.keys[k] == cs[k].name;
    }
  }

  /** One step of new_row's dict comprehension: the attribute for the `i`th of the columns
      `cs`, made with status NEEDS_WRITE, so its argument is encoded and written at once, then
      put into the dict. `log0` and `hub0` are the calls and the hub before the first step. */
  method AddCell(t: Transport, tableOid: string, key: string, cs: seq<Column>, i: nat, args: Dict<Value>,
                 attrs: Dict<Attribute>, ghost raws: seq<string>, ghost log0: seq<Call>, ghost hub0: HubState)
    returns (r: Result<Dict<Attribute>>, ghost raw: string)
    requires Mapping(cs) && i < |cs| && cs[i].name in args.entries
    requires MadeCells(attrs, tableOid, key, cs, i, raws) && EncodesTo(cs[..i], args, raws)
    requires t.log == log0 + NewCalls(tableOid, key, cs[..i], raws)
    requires t.Store() == Stored(hub0, tableOid, key, cs[..i], raws)
    modifies t
    ensures r.Ok? ==> MadeCells(r.value, tableOid, key, cs, i + 1, raws + [raw])
    ensures r.Ok? ==> EncodesTo(cs[..i + 1], args, raws + [raw])
    ensures r.Ok? ==> t.log == log0 + NewCalls(tableOid, key, cs[..i + 1], raws + [raw])
    ensures r.Ok? ==> t.Store() == Stored(hub0, tableOid, key, cs[..i + 1], raws + [raw])
  {
    var c := cs[i];
    var v := args.entries[c.name];
    ghost var oid := CellOid(tableOid, c.id, key);
    var made := Attribute.Create(t, CellOid(tableOid, c.id, key), c.codec, v, Unset, c.readback);
    raw := "";
    if made.Err? {
      return Err(made.error), raw;
    }
    raw := Encode(c.codec, v).value;
    WritesNext(hub0, tableOid, key, cs, raws, i, raw);
    CallsAssoc(log0, NewCalls(tableOid, key, cs[..i], raws), WriteCalls(oid, raw, DataTypeOf(c.codec), c.readback, Pass));
    EncodesNext(cs, args, raws, i, raw);
    MadeCellsNext(attrs, tableOid, key, cs, i, raws, made.value);
    r := Ok(attrs.Put(c.name, made.value));
  }

  /** What new_row's writes for the columns `cs` amount to: `raws[k]` is what the
      translator of `cs[k]` makes of its argument, the calls `log0` grew into `log` by
      exactly NewCalls, and the hub `hub0` became `hub` by those sets. */
  ghost predicate RowWrites(tableOid: string, key: string, cs: seq<Column>, args: Dict<Value>, raws: seq<string>,
                            log0: seq<Call>, log: seq<Call>, hub0: HubState, hub: HubState)
  {
    && EncodesTo(cs, args, raws)
    && log == log0 + NewCalls(tableOid, key, cs, raws)
    && hub == Stored(hub0, tableOid, key, cs, raws)
  }

  /** The dict comprehension of new_row over the columns `cs` an argument names, in mapping
      order: one NEEDS_WRITE attribute per column, each written as it is made. The first
      attribute whose value cannot be encoded or written stops it; the writes before it stay
      done. Then the row class is instantiated over the attributes. */
  method MakeRow(t: Transport, tableOid: string, key: string, cs: seq<Column>, args: Dict<Value>)
    returns (r: Result<Row>, ghost raws: seq<string>)
    requires Mapping(cs) && forall i :: 0 <= i < |cs| ==> cs[i].name in args.entries
    modifies t
    ensures r.Ok? ==> fresh(r.value)
    ensures r.Ok? ==> MadeCells(r.value.attrs, tableOid, key, cs, |cs|, raws)
    ensures r.Ok? ==> RowWrites(tableOid, key, cs, args, raws, old(t.log), t.log, old(t.Store()), t.Store())
  {
    var attrs: Dict<Attribute> := Empty();
    raws := [];
    for i := 0 to |cs|
      invariant MadeCells(attrs, tableOid, key, cs, i, raws)
      invariant EncodesTo(cs[..i], args, raws)
      invariant t.log == old(t.log) + NewCalls(tableOid, key, cs[..i], raws)
      invariant t.Store() == Stored(old(t.Store()), tableOid, key, cs[..i], raws)
    {
      var next;
      ghost var raw;
      next, raw := AddCell(t, tableOid, key, cs, i, args, attrs, raws, old(t.log), old(t.Store()));
      if next.Err? {
        return Err(next.error), raws;
      }
      attrs, raws := next.value, raws + [raw];
    }
    assert cs[..|cs|] == cs;
    var row := Instantiate(attrs, tableOid, key, cs, raws);
    return Ok(row), raws;
  }

  /** The row class instantiated over attributes made for the columns `cs`; making the row
      object leaves the attributes as they are. */
  method Instantiate(attrs: Dict<Attribute>, ghost tableOid: string, ghost key: string, ghost cs: seq<Column>,
                     ghost raws: seq<string>) returns (row: Row)
    requires MadeCells(attrs, tableOid, key, cs, |cs|, raws)
    ensures fresh(row) && row.attrs == attrs
    ensures MadeCells(row.attrs, tableOid, key, cs, |cs|, raws)
  {
    row := new Row(attrs);
  }

  // ---------------------------------------------------------------------------
  // Where a row's attributes point

  /** Every attribute of `row` is named like a declared column and is that column's cell in
      row `key`, so its OID is the table OID, the column id and the key. */
  ghost predicate RowPlaced(row: Row, tableOid: string, key: string, columns: seq<Column>) {
    && row.Valid()
    && (forall n :: n in row.attrs.entries ==> n in Names(columns))
    && forall c :: c in columns && c.name in row.attrs.entries ==>
      CellOf(row.attrs.entries[c.name], tableOid, key, c)
  }

  lemma NameIn(columns: seq<Column>, c: Column)
    requires c in columns
    ensures c.name in Names(columns)
  {
    var j :| 0 <= j < |columns| && columns[j] == c;
    assert Names(columns)[j] == c.name;
  }

  /** The columns `cs`, taken from a mapping, whose names are exactly the row's attribute
      names, each attribute the cell of its column: then the row is placed. */
  lemma PlacedBy(row: Row, tableOid: string, key: string, columns: seq<Column>, cs: seq<Column>)
    requires Mapping(columns) && row.Valid() && row.attrs.keys == Names(cs)
    requires forall c :: c in cs ==> c in columns
    requires forall i :: 0 <= i < |cs| ==> CellOf(row.attrs.entries[cs[i].name], tableOid, key, cs[i])
    ensures RowPlaced(row, tableOid, key, columns)
  {
    MappingKeys(columns);
    forall n | n in row.attrs.entries
      ensures n in Names(columns)
    {
      var i :| 0 <= i < |cs| && Names(cs)[i] == n;
      NameIn(columns, cs[i]);
    }
    forall c | c in columns && c.name in row.attrs.entries
      ensures CellOf(row.attrs.entries[c.name], tableOid, key, c)
    {
      var i :| 0 <= i < |cs| && Names(cs)[i] == c.name;
      assert cs[i] == c;
    }
  }

  /** A row the constructor loads is placed. */
  lemma LoadedPlaced(row: Row, tableOid: string, key: string, columns: seq<Column>, cells: Dict<string>)
    requires Mapping(columns) && RowLoaded(row, tableOid, key, columns, cells)
    ensures RowPlaced(row, tableOid, key, columns)
  {
    PlacedBy(row, tableOid, key, columns, Present(columns, cells));
  }

  /** A row new_row makes for the named columns is placed. */
  lemma MadePlaced(row: Row, tableOid: string, key: string, columns: seq<Column>, names: set<string>,
                   raws: seq<string>)
    requires Mapping(columns)
    requires var cs := WithNames(columns, names); MadeCells(row.attrs, tableOid, key, cs, |cs|, raws)
    ensures RowPlaced(row, tableOid, key, columns)
  {
    var cs := WithNames(columns, names);
    assert cs[..|cs|] == cs;
    PlacedBy(row, tableOid, key, columns, cs);
  }

  // ---------------------------------------------------------------------------
  // Tables

  class Table {
    const oid: string
    const columns: seq<Column>
    var rows: Dict<Row>

    /** The column ids and names are distinct, the rows form a dict, and every row's
        attributes are the cells of that row under this table's OID. */
    ghost predicate Valid()
      reads this
    {
      && Mapping(columns) && rows.Valid()
      && forall k :: k in rows.entries ==> RowPlaced(rows.entries[k], oid, k, columns)
    }

    constructor(oid: string, columns: seq<Column>, rows: Dict<Row>)
      ensures this.oid == oid && this.columns == columns && this.rows == rows
    {
      this.oid, this.columns, this.rows := oid, columns, rows;
    }

    /** Table.__init__: at most one walk, no get and no set; the walked rows that have a
        declared column, in walk order, each loaded by LoadRow. */
    static method Load(t: Transport, oid: string, columns: seq<Column>, given: WalkResult)
      returns (r: Result<Table>)
      requires Mapping(columns) && t.Store().Valid()
      modifies t
      ensures t.Store() == old(t.Store())
      ensures t.log == old(t.log) + (if given == [] then [WalkCall(oid)] else [])
      ensures Walked(old(t.Store()), oid, given).Err? ==> r == Err(Walked(old(t.Store()), oid, given).error)
      ensures Walked(old(t.Store()), oid, given).Ok? ==>
        var raw := Parse(oid, Walked(old(t.Store()), oid, given).value);
        (r.Ok? <==> forall k :: k in raw.entries ==> SeedsOk(columns, raw.entries[k]))
        && (r.Ok? ==>
          && fresh(r.value) && r.value.Valid() && r.value.oid == oid && r.value.columns == columns
          && r.value.rows.keys == KeptRows(columns, raw.keys, raw.entries)
          && forall k :: k in r.value.rows.entries ==>
            k in raw.entries && fresh(r.value.rows.entries[k])
            && RowLoaded(r.value.rows.entries[k], oid, k, columns, raw.entries[k]))
    {
      var walk := given;
      if walk == [] {
        var w := t.Walk(oid);
        if w.Err? {
          return Err(w.error);
        }
        walk := w.value;
      }
      var raw := ParseTable(oid, walk);
      var rows := LoadRows(oid, columns, raw);
      if rows.Err? {
        return Err(rows.error);
      }
      forall k | k in rows.value.entries
        ensures RowPlaced(rows.value.entries[k], oid, k, columns)
      {
        LoadedPlaced(rows.value.entries[k], oid, k, columns, raw.entries[k]);
      }
      var table := new Table(oid, columns, rows.value);
      return Ok(table);
    }

    /** Table.new_row: a new key, argument names that are all column names, then one
        attribute per named column, each written to the hub as it is made; the row is
        registered only once every write went through. */
    method NewRow(t: Transport, key: string, args: Dict<Value>) returns (r: Result<Row>, ghost raws: seq<string>)
      requires Valid() && args.Valid()
      modifies this, t
      ensures Valid()
      ensures key in old(rows.entries) ==> r == Err(DuplicateRowKey(key)) && unchanged(t)
      ensures key !in old(rows.entries) && FirstUnknown(args.keys, Names(columns)).Some? ==>
        r == Err(UnknownColumn(FirstUnknown(args.keys, Names(columns)).value)) && unchanged(t)
      ensures r.Err? ==> rows == old(rows)
      ensures r.Ok? ==> key !in old(rows.entries) && FirstUnknown(args.keys, Names(columns)).None?
      ensures r.Ok? ==>
        var cs := WithNames(columns, args.entries.Keys);
        && fresh(r.value) && rows == old(rows).Put(key, r.value)
        && MadeCells(r.value.attrs, oid, key, cs, |cs|, raws)
        && RowWrites(oid, key, cs, args, raws, old(t.log), t.log, old(t.Store()), t.Store())
    {
      raws := [];
      if key in rows.entries {
        r := Err(DuplicateRowKey(key));
      } else {
        var unknown := CheckArgs(args.keys, Names(columns));
        if unknown.Some? {
          r := Err(UnknownColumn(unknown.value));
        } else {
          var cs := WithNames(columns, args.entries.Keys);
          WithNamesMapping(columns, args.entries.Keys);
          r, raws := MakeRow(t, oid, key, cs, args);
          if r.Ok? {
            SetItem(key, r.value, args.entries.Keys, raws);
          }
        }
      }
    }

    /** `self[row_key] = row` at the end of new_row, for a row made for the columns named by
        `names`: registering the row leaves its attributes as they are. */
    method SetItem(key: string, row: Row, ghost names: set<string>, ghost raws: seq<string>)
      requires Valid()
      requires var cs := WithNames(columns, names); MadeCells(row.attrs, oid, key, cs, |cs|, raws)
      modifies this
      ensures Valid() && rows == old(rows).Put(key, row)
      ensures var cs := WithNames(columns, names); MadeCells(row.attrs, oid, key, cs, |cs|, raws)
    {
      MadePlaced(row, oid, key, columns, names, raws);
      rows := rows.Put(key, row);
    }

    /** The attribute __delitem__ may write: the row's `rowstatus`, if it has one. */
    function DestroyTarget(key: string): set<object>
      reads this
    {
      if key in rows.entries && "rowstatus" in rows.entries[key].attrs.entries
      then {rows.entries[key].attrs.entries["rowstatus"]} else {}
    }

    /** Table.__delitem__: a row with a `rowstatus` attribute is first probed, as hasattr
        does, by reading that attribute; an attribute not yet set counts as absent, any other
        failure of the read stops the deletion. A present rowstatus is set to DESTROY, and
        only when that write goes through is the row removed. */
    method Remove(t: Transport, key: string) returns (o: Outcome)
      requires Valid()
      modifies this, t, DestroyTarget(key)
      ensures Valid()
      ensures key !in old(rows.entries) ==> o == Fail(NoSuchRow(key)) && rows == old(rows) && unchanged(t)
      ensures key in old(rows.entries) && "rowstatus" !in old(rows.entries[key].attrs.entries) ==>
        o == Pass && rows == old(rows).Remove(key) && unchanged(t)
      ensures key in old(rows.entries) && "rowstatus" in old(rows.entries[key].attrs.entries) ==>
        var a := old(rows.entries[key].attrs.entries["rowstatus"]);
        var hub := old(t.Store());
        var (c1, raw1) := ReadStep(a.oid, old(a.State()), hub.Answer(a.oid));
        var probe := Translated(a.codec, raw1);
        var log1 := old(t.log) + (if old(a.status) == NeedsRead then [GetCall(a.oid)] else []);
        var e := Encode(a.codec, Enum(Status(Destroy)));
        && (probe.Err? || e.Err? ==> a.State() == c1 && t.log == log1 && t.Store() == hub)
        && (probe.Err? && probe.error.AttributeNotYetSet? ==> o == Pass)
        && (probe.Err? && !probe.error.AttributeNotYetSet? ==> o == Fail(probe.error))
        && (probe.Ok? && e.Err? ==> o == Fail(e.error))
        && (probe.Ok? && e.Ok? ==>
          && (a.State(), o) == WriteStep(a.oid, c1, e.value, a.readback, hub.SetReply(a.oid),
                                         hub.Applied(a.oid, e.value).Answer(a.oid))
          && t.log == log1 + WriteCalls(a.oid, e.value, DataTypeOf(a.codec), a.readback, hub.SetReply(a.oid))
          && t.Store() == hub.Applied(a.oid, e.value))
      ensures o.Pass? ==> rows == old(rows).Remove(key)
      ensures o.Fail? ==> rows == old(rows)
    {
      if key !in rows.entries {
        return Fail(NoSuchRow(key));
      }
      var row := rows.entries[key];
      if "rowstatus" in row.attrs.entries {
        var a := row.attrs.entries["rowstatus"];
        var probe := a.Read(t);
        if probe.Err? && !probe.error.AttributeNotYetSet? {
          return Fail(probe.error);
        }
        if probe.Ok? {
          o := a.Write(t, Enum(Status(Destroy)));
          if o.Fail? {
            return;
          }
        }
      }
      rows := rows.Remove(key);
      o := Pass;
    }

    /** aslist(): the rows, in key order, without their keys. */
    function AsList(): (rs: seq<Row>)
      requires Valid()
      reads this
      ensures |rs| == |rows.keys| && forall i :: 0 <= i < |rs| ==> rs[i] == rows.entries[rows.keys[i]]
    {
      rows.Values()
    }
  }
}
