/** Column mappings and RowBase. Python builds one class per row, with the row's attributes
    as class members, and hands the row the dict `_keys` from attribute name to attribute,
    in mapping order; here a single Row class holds that dict. */
module Rows {
  import opened Base
  import opened Values
  import opened Translators
  import opened Dicts
  import opened Hub
  import opened Attributes

  // ---------------------------------------------------------------------------
  // Column mappings

  /** One entry of a column mapping: the column number under the table OID (the dict key),
      the Python attribute name, the translator and readback_after_write. */
  datatype Column = Column(id: string, name: string, codec: Codec, readback: bool)

  /** The column ids are the keys of a dict, so distinct; the names become attribute names
      of one row class, and are taken to be distinct too. */
  predicate Mapping(columns: seq<Column>) {
    forall i, j :: 0 <= i < j < |columns| ==> columns[i].id != columns[j].id && columns[i].name != columns[j].name
  }

  /** The attribute names of some columns, in order. */
  function Names(columns: seq<Column>): (ns: seq<string>)
    ensures |ns| == |columns| && forall i :: 0 <= i < |columns| ==> ns[i] == columns[i].name
    ensures Mapping(columns) ==> Distinct(ns)
  {
    seq(|columns|, i requires 0 <= i < |columns| => columns[i].name)
  }

  /** column_mapping[id], if the column is declared. */
  function ColumnFor(columns: seq<Column>, id: string): (r: Option<Column>)
    ensures r.Some? ==> r.value in columns && r.value.id == id
    ensures r.None? ==> forall c :: c in columns ==> c.id != id
  {
    if columns == [] then None
    else if columns[0].id == id then Some(columns[0])
    else ColumnFor(columns[1..], id)
  }

  /** The columns whose id is among `ids`, in mapping order. */
  function WithIds(columns: seq<Column>, ids: set<string>): (cs: seq<Column>)
    ensures forall c :: c in cs <==> c in columns && c.id in ids
  {
    if columns == [] then []
    else
      var last := columns[|columns| - 1];
      var init := WithIds(columns[..|columns| - 1], ids);
      assert forall c :: c in columns <==> c in columns[..|columns| - 1] || c == last;
      if last.id in ids then init + [last] else init
  }

  /** The columns whose name is among `names`, in mapping order. */
  function WithNames(columns: seq<Column>, names: set<string>): (cs: seq<Column>)
    ensures forall c :: c in cs <==> c in columns && c.name in names
  {
    if columns == [] then []
    else
      var last := columns[|columns| - 1];
      var init := WithNames(columns[..|columns| - 1], names);
      assert forall c :: c in columns <==> c in columns[..|columns| - 1] || c == last;
      if last.name in names then init + [last] else init
  }

  /** Selecting by names selects what selecting by ids does when the two agree on every
      column. */
  lemma {:induction false} SameSelection(columns: seq<Column>, names: set<string>, ids: set<string>)
    requires forall c :: c in columns ==> (c.name in names <==> c.id in ids)
    ensures WithNames(columns, names) == WithIds(columns, ids)
  {
    if columns != [] {
      var init := columns[..|columns| - 1];
      assert forall c :: c in init ==> c in columns;
      SameSelection(init, names, ids);
    }
  }

  /** Leaving columns out of a mapping leaves a mapping. */
  lemma {:induction false} WithNamesMapping(columns: seq<Column>, names: set<string>)
    requires Mapping(columns)
    ensures Mapping(WithNames(columns, names))
  {
    if columns != [] {
      var init, last := columns[..|columns| - 1], columns[|columns| - 1];
      WithNamesMapping(init, names);
      var cs := WithNames(init, names);
      assert forall c :: c in cs ==> c.id != last.id && c.name != last.name;
    }
  }

  lemma {:induction false} WithIdsMapping(columns: seq<Column>, ids: set<string>)
    requires Mapping(columns)
    ensures Mapping(WithIds(columns, ids))
  {
    if columns != [] {
      var init, last := columns[..|columns| - 1], columns[|columns| - 1];
      WithIdsMapping(init, ids);
      var cs := WithIds(init, ids);
      assert forall c :: c in cs ==> c.id != last.id && c.name != last.name;
    }
  }

  /** One step of a loop over the columns that keeps those selected by name. */
  lemma WithNamesNext(columns: seq<Column>, names: set<string>, j: nat)
    requires j < |columns|
    ensures WithNames(columns[..j + 1], names) ==
      WithNames(columns[..j], names) + (if columns[j].name in names then [columns[j]] else [])
  {
    assert columns[..j + 1][..j] == columns[..j];
  }

  /** The OID of a cell: table OID, column id and row key joined with dots. */
  function CellOid(tableOid: string, id: string, key: string): string {
    tableOid + "." + id + "." + key
  }

  // ---------------------------------------------------------------------------
  // Rows

  /** `log` is `log0` followed by gets only. */
  ghost predicate OnlyGets(log0: seq<Call>, log: seq<Call>) {
    |log| >= |log0| && log[..|log0|] == log0 && forall k :: |log0| <= k < |log| ==> log[k].GetCall?
  }

  lemma OnlyGetsStep(log0: seq<Call>, log1: seq<Call>, extra: seq<Call>)
    requires OnlyGets(log0, log1) && forall k :: 0 <= k < |extra| ==> extra[k].GetCall?
    ensures OnlyGets(log0, log1 + extra)
  {
    assert (log1 + extra)[..|log0|] == log1[..|log0|];
  }

  /** What reading attribute `a` gives when its cache is `c` and the hub is `hub`: the new
      cache, and the raw result decoded by the translator. */
  function ReadOf(a: Attribute, c: Cache, hub: HubState): (Cache, Result<Value>) {
    var (c', raw) := ReadStep(a.oid, c, hub.Answer(a.oid));
    (c', Translated(a.codec, raw))
  }

  /** Reading again after a read that succeeded changes nothing and gives the same value. */
  lemma ReadAgain(a: Attribute, c: Cache, hub: HubState)
    requires ReadOf(a, c, hub).1.Ok?
    ensures ReadOf(a, ReadOf(a, c, hub).0, hub) == ReadOf(a, c, hub)
  {
    ReadIsCached(a.oid, c, hub.Answer(a.oid), hub.Answer(a.oid));
  }

  /** Reading `xs` in order from the caches `st`, as values() does: each attribute's read
      updates its cache, and the first read that fails ends the run with its error. */
  function ReadAll(xs: seq<Attribute>, st: map<Attribute, Cache>, hub: HubState)
    : (r: (map<Attribute, Cache>, Result<seq<Value>>))
    requires forall a :: a in xs ==> a in st
    ensures r.0.Keys == st.Keys
    ensures r.1.Ok? ==> |r.1.value| == |xs|
  {
    if xs == [] then (st, Ok([]))
    else
      var n := |xs| - 1;
      var (st1, r1) := ReadAll(xs[..n], st, hub);
      if r1.Err? then (st1, r1)
      else
        var (c, v) := ReadOf(xs[n], st1[xs[n]], hub);
        (st1[xs[n] := c], if v.Err? then Err(v.error) else Ok(r1.value + [v.value]))
  }

  /** The caches `st'` hold, for the attributes among `xs`, what one read from `st` leaves,
      and for the others what `st` held. */
  ghost predicate ReadCaches(xs: seq<Attribute>, st: map<Attribute, Cache>, st': map<Attribute, Cache>, hub: HubState)
    requires st'.Keys == st.Keys
  {
    forall b :: b in st ==> st'[b] == if b in xs then ReadOf(b, st[b], hub).0 else st[b]
  }

  /** The position of the first attribute of `xs` whose read from `st` fails, or |xs| when
      none does. */
  function FirstFail(xs: seq<Attribute>, st: map<Attribute, Cache>, hub: HubState): (j: nat)
    requires forall a :: a in xs ==> a in st
    ensures j <= |xs|
    ensures forall i :: 0 <= i < j ==> ReadOf(xs[i], st[xs[i]], hub).1.Ok?
    ensures j < |xs| ==> ReadOf(xs[j], st[xs[j]], hub).1.Err?
  {
    if xs == [] then 0
    else
      var n := |xs| - 1;
      var j := FirstFail(xs[..n], st, hub);
      if j < n then j
      else if ReadOf(xs[n], st[xs[n]], hub).1.Err? then n
      else n + 1
  }

  /** An attribute read once without failure reads the same again. */
  lemma SameRead(ys: seq<Attribute>, st: map<Attribute, Cache>, st1: map<Attribute, Cache>, a: Attribute, hub: HubState)
    requires st1.Keys == st.Keys && a in st && ReadCaches(ys, st, st1, hub)
    requires forall b :: b in ys ==> b in st
    requires forall i :: 0 <= i < |ys| ==> ReadOf(ys[i], st[ys[i]], hub).1.Ok?
    ensures ReadOf(a, st1[a], hub) == ReadOf(a, st[a], hub)
  {
    if a in ys {
      var i :| 0 <= i < |ys| && ys[i] == a;
      ReadAgain(a, st[a], hub);
    }
  }

  /** Reading one more attribute, whose read is as from the starting caches, extends the caches. */
  lemma ReadCachesSnoc(ys: seq<Attribute>, st: map<Attribute, Cache>, st1: map<Attribute, Cache>, a: Attribute, hub: HubState)
    requires st1.Keys == st.Keys && a in st && ReadCaches(ys, st, st1, hub)
    requires ReadOf(a, st1[a], hub) == ReadOf(a, st[a], hub)
    ensures ReadCaches(ys + [a], st, st1[a := ReadOf(a, st[a], hub).0], hub)
  {
    forall b | b in st
      ensures b in ys + [a] <==> b in ys || b == a
    {
    }
  }

  /** A run succeeds exactly when no read fails, and then the values are each attribute's own
      read from the starting caches, whichever name it appears under and however often. */
  lemma {:induction false} ReadAllOk(xs: seq<Attribute>, st: map<Attribute, Cache>, hub: HubState)
    requires forall a :: a in xs ==> a in st
    ensures var (st', r) := ReadAll(xs, st, hub);
      && (r.Ok? <==> FirstFail(xs, st, hub) == |xs|)
      && (r.Ok? ==>
            && ReadCaches(xs, st, st', hub)
            && forall i :: 0 <= i < |xs| ==> ReadOf(xs[i], st[xs[i]], hub).1 == Ok(r.value[i]))
  {
    if xs != [] {
      var n := |xs| - 1;
      var a := xs[n];
      var (st1, r1) := ReadAll(xs[..n], st, hub);
      ReadAllOk(xs[..n], st, hub);
      if r1.Ok? {
        SameRead(xs[..n], st, st1, a, hub);
        var (c, v) := ReadOf(a, st[a], hub);
        assert FirstFail(xs, st, hub) == if v.Err? then n else n + 1;
        if v.Ok? {
          var vs := r1.value + [v.value];
          assert ReadAll(xs, st, hub) == (st1[a := c], Ok(vs));
          ReadCachesSnoc(xs[..n], st, st1, a, hub);
          assert xs[..n] + [a] == xs;
          forall i | 0 <= i < |xs|
            ensures ReadOf(xs[i], st[xs[i]], hub).1 == Ok(vs[i])
          {
            if i < n {
              assert xs[i] == xs[..n][i];
            }
          }
        }
      }
    }
  }

  /** A run that fails fails at the first failing read, with its error: the attributes up to
      it hold what their reads leave, and the others keep their caches. */
  lemma {:induction false} ReadAllErr(xs: seq<Attribute>, st: map<Attribute, Cache>, hub: HubState)
    requires forall a :: a in xs ==> a in st
    ensures var (st', r) := ReadAll(xs, st, hub);
      var j := FirstFail(xs, st, hub);
      r.Err? ==>
        && j < |xs|
        && ReadOf(xs[j], st[xs[j]], hub).1 == Err(r.error)
        && ReadCaches(xs[..j + 1], st, st', hub)
  {
    if xs != [] {
      var n := |xs| - 1;
      if ReadAll(xs[..n], st, hub).1.Err? {
        ReadAllErr(xs[..n], st, hub);
        ErrBefore(xs, st, hub);
      } else {
        var (st1, r1) := ReadAll(xs[..n], st, hub);
        ReadAllOk(xs[..n], st, hub);
        ErrAtEnd(xs, st, hub, st1, r1.value);
      }
    }
  }

  /** ReadAllErr's step when the run had already failed before the last attribute. */
  lemma ErrBefore(xs: seq<Attribute>, st: map<Attribute, Cache>, hub: HubState)
    requires forall a :: a in xs ==> a in st
    requires xs != []
    requires var n := |xs| - 1;
      var (st1, r1) := ReadAll(xs[..n], st, hub);
      var j := FirstFail(xs[..n], st, hub);
      && r1.Err? && j < n
      && ReadOf(xs[..n][j], st[xs[..n][j]], hub).1 == Err(r1.error)
      && ReadCaches(xs[..n][..j + 1], st, st1, hub)
    ensures var (st', r) := ReadAll(xs, st, hub);
      var j := FirstFail(xs, st, hub);
      && r.Err? && j < |xs|
      && ReadOf(xs[j], st[xs[j]], hub).1 == Err(r.error)
      && ReadCaches(xs[..j + 1], st, st', hub)
  {
    var n := |xs| - 1;
    var j := FirstFail(xs[..n], st, hub);
    var (st1, r1) := ReadAll(xs[..n], st, hub);
    assert FirstFail(xs, st, hub) == j;
    assert ReadAll(xs, st, hub) == (st1, r1);
    assert xs[..n][j] == xs[j];
    var ys := xs[..n][..j + 1];
    assert ys == xs[..j + 1];
    assert ReadCaches(ys, st, st1, hub);
  }

  /** ReadAllErr's step when the last attribute's read is the first to fail. */
  lemma ErrAtEnd(xs: seq<Attribute>, st: map<Attribute, Cache>, hub: HubState,
                 st1: map<Attribute, Cache>, vs: seq<Value>)
    requires forall a :: a in xs ==> a in st
    requires xs != []
    requires ReadAll(xs[..|xs| - 1], st, hub) == (st1, Ok(vs))
    requires FirstFail(xs[..|xs| - 1], st, hub) == |xs| - 1
    requires ReadCaches(xs[..|xs| - 1], st, st1, hub)
    ensures var (st', r) := ReadAll(xs, st, hub);
      var j := FirstFail(xs, st, hub);
      r.Err? ==>
        && j < |xs|
        && ReadOf(xs[j], st[xs[j]], hub).1 == Err(r.error)
        && ReadCaches(xs[..j + 1], st, st', hub)
  {
    var n := |xs| - 1;
    var a := xs[n];
    SameRead(xs[..n], st, st1, a, hub);
    ReadAllNext(xs, n, st, hub, st1, vs);
    ReadCachesSnoc(xs[..n], st, st1, a, hub);
    FrontLast(xs);
  }

  /** Proof helper: a non-empty sequence is its front followed by its last element. */
  lemma FrontLast(xs: seq<Attribute>)
    requires xs != []
    ensures xs[..|xs| - 1] + [xs[|xs| - 1]] == xs[..|xs|] == xs
  {
  }

  /** One more read extends the run by that attribute's read from the caches so far. */
  lemma ReadAllNext(xs: seq<Attribute>, i: nat, st: map<Attribute, Cache>, hub: HubState,
                    st1: map<Attribute, Cache>, vs: seq<Value>)
    requires forall a :: a in xs ==> a in st
    requires i < |xs| && ReadAll(xs[..i], st, hub) == (st1, Ok(vs))
    ensures var (c, v) := ReadOf(xs[i], st1[xs[i]], hub);
      ReadAll(xs[..i + 1], st, hub) == (st1[xs[i] := c], if v.Err? then Err(v.error) else Ok(vs + [v.value]))
  {
    assert xs[..i + 1][..i] == xs[..i];
  }

  /** Once a prefix of the run fails, the whole run ends the same way. */
  lemma {:induction false} ReadAllStops(xs: seq<Attribute>, m: nat, st: map<Attribute, Cache>, hub: HubState)
    requires forall a :: a in xs ==> a in st
    requires m <= |xs| && ReadAll(xs[..m], st, hub).1.Err?
    ensures ReadAll(xs, st, hub) == ReadAll(xs[..m], st, hub)
    decreases |xs| - m
  {
    if m < |xs| {
      assert xs[..|xs| - 1][..m] == xs[..m];
      ReadAllStops(xs[..|xs| - 1], m, st, hub);
    } else {
      assert xs[..m] == xs;
    }
  }

  class Row {
    /** `_keys`: attribute name to attribute, in mapping order. */
    const attrs: Dict<Attribute>

    ghost predicate Valid() {
      attrs.Valid()
    }

    constructor(attrs: Dict<Attribute>)
      ensures this.attrs == attrs
    {
      this.attrs := attrs;
    }

    /** keys(): the attribute names, each once, in mapping order. */
    function Keys(): (ks: seq<string>)
      requires Valid()
      ensures Distinct(ks) && forall n :: n in ks <==> n in attrs.entries
    {
      attrs.keys
    }

    /** len(row): one per attribute name. */
    function Len(): (n: nat)
      requires Valid()
      ensures n == |Keys()|
    {
      |attrs.keys|
    }

    /** `name in row`: whether the row has an attribute of that name. */
    function Contains(name: string): (b: bool)
      requires Valid()
      ensures b <==> name in Keys()
    {
      name in attrs.entries
    }

    /** row[name], which is getattr(row, name): the attribute's read. */
    method GetItem(t: Transport, name: string) returns (r: Result<Value>)
      modifies attrs.entries.Values, t
      ensures name !in attrs.entries ==>
        r == Err(NoSuchColumn(name)) && unchanged(t) && unchanged(attrs.entries.Values)
      ensures name in attrs.entries ==>
        var a := attrs.entries[name];
        var (c, raw) := ReadStep(a.oid, old(a.State()), old(t.Store()).Answer(a.oid));
        && a.State() == c && r == Translated(a.codec, raw)
        && t.log == old(t.log) + (if old(a.status) == NeedsRead then [GetCall(a.oid)] else [])
        && forall b :: b in attrs.entries.Values && b != a ==> unchanged(b)
      ensures t.Store() == old(t.Store())
    {
      if name !in attrs.entries {
        return Err(NoSuchColumn(name));
      }
      r := attrs.entries[name].Read(t);
    }

    /** get(name, default): the attribute's read for a name of the row, otherwise `default`
        without reading anything. */
    method Get(t: Transport, name: string, default: Value) returns (r: Result<Value>)
      modifies attrs.entries.Values, t
      ensures name !in attrs.entries ==> r == Ok(default) && unchanged(t) && unchanged(attrs.entries.Values)
      ensures name in attrs.entries ==>
        var a := attrs.entries[name];
        var (c, raw) := ReadStep(a.oid, old(a.State()), old(t.Store()).Answer(a.oid));
        && a.State() == c && r == Translated(a.codec, raw)
        && t.log == old(t.log) + (if old(a.status) == NeedsRead then [GetCall(a.oid)] else [])
        && forall b :: b in attrs.entries.Values && b != a ==> unchanged(b)
      ensures t.Store() == old(t.Store())
    {
      if name !in attrs.entries {
        return Ok(default);
      }
      r := GetItem(t, name);
    }

    /** The attributes in name order. */
    function Attributes(): (xs: seq<Attribute>)
      requires Valid()
      ensures |xs| == |attrs.keys|
      ensures forall a :: a in xs ==> a in attrs.entries.Values
      ensures forall a :: a in attrs.entries.Values ==> a in xs
    {
      var xs := seq(|attrs.keys|, k requires 0 <= k < |attrs.keys| => attrs.entries[attrs.keys[k]]);
      assert forall a :: a in attrs.entries.Values ==> a in xs by {
        forall a | a in attrs.entries.Values
          ensures a in xs
        {
          var name :| name in attrs.entries && attrs.entries[name] == a;
          var k :| 0 <= k < |attrs.keys| && attrs.keys[k] == name;
          assert xs[k] == a;
        }
      }
      xs
    }

    /** Every attribute's cache. */
    ghost function States(): (st: map<Attribute, Cache>)
      requires Valid()
      reads attrs.entries.Values
      ensures st.Keys == attrs.entries.Values
    {
      map b | b in attrs.entries.Values :: b.State()
    }

    /** A step that changes no attribute but `a` changes no cache but `a`'s. */
    twostate lemma StatesAfter(a: Attribute)
      requires Valid() && a in attrs.entries.Values
      requires forall b :: b in attrs.entries.Values && b != a ==> unchanged(b)
      ensures States() == old(States())[a := a.State()]
    {
    }

    /** values(): every attribute read, in name order, as `getattr` reads it: the result and
        the caches are those of ReadAll from the old caches, and the hub is asked at most once
        per attribute and never written to. */
    method Values(t: Transport) returns (r: Result<seq<Value>>)
      requires Valid()
      modifies attrs.entries.Values, t
      ensures (States(), r) == ReadAll(Attributes(), old(States()), old(t.Store()))
      ensures t.Store() == old(t.Store()) && OnlyGets(old(t.log), t.log)
    {
      ghost var hub := t.Store();
      ghost var st0 := States();
      ghost var xs := Attributes();
      var vs: seq<Value> := [];
      for i := 0 to |attrs.keys|
        invariant t.Store() == hub && OnlyGets(old(t.log), t.log)
        invariant ReadAll(xs[..i], st0, hub) == (States(), Ok(vs))
      {
        var got := ReadNext(t, xs, st0, hub, i, vs, old(t.log));
        if got.Err? {
          ReadAllStops(xs, i + 1, st0, hub);
          return Err(got.error);
        }
        vs := vs + [got.value];
      }
      assert xs[..|attrs.keys|] == xs;
      r := Ok(vs);
    }

    /** One step of values(): read the i-th attribute and extend the run by it. */
    method ReadNext(t: Transport, ghost xs: seq<Attribute>, ghost st0: map<Attribute, Cache>,
                    ghost hub: HubState, i: nat, ghost vs: seq<Value>, ghost log0: seq<Call>)
      returns (got: Result<Value>)
      requires Valid() && xs == Attributes() && i < |attrs.keys| && st0.Keys == attrs.entries.Values
      requires t.Store() == hub && OnlyGets(log0, t.log)
      requires ReadAll(xs[..i], st0, hub) == (States(), Ok(vs))
      modifies attrs.entries.Values, t
      ensures t.Store() == hub && OnlyGets(log0, t.log)
      ensures ReadAll(xs[..i + 1], st0, hub)
              == (States(), if got.Err? then Err(got.error) else Ok(vs + [got.value]))
    {
      var a := attrs.entries[attrs.keys[i]];
      assert xs[i] == a;
      ghost var log1 := t.log;
      label before:
      got := a.Read(t);
      OnlyGetsStep(log0, log1, t.log[|log1|..]);
      assert t.log == log1 + t.log[|log1|..];
      StatesAfter@before(a);
      ReadAllNext(xs, i, st0, hub, old@before(States()), vs);
    }

    /** items(): (name, value) pairs in name order, read as values() reads them. */
    method Items(t: Transport) returns (r: Result<seq<(string, Value)>>)
      requires Valid()
      modifies attrs.entries.Values, t
      ensures var (st, vs) := ReadAll(Attributes(), old(States()), old(t.Store()));
        && States() == st
        && (vs.Err? ==> r == Err(vs.error))
        && (vs.Ok? ==>
              && r.Ok? && |r.value| == |attrs.keys|
              && forall i :: 0 <= i < |attrs.keys| ==> r.value[i] == (attrs.keys[i], vs.value[i]))
      ensures t.Store() == old(t.Store()) && OnlyGets(old(t.log), t.log)
    {
      var vs := Values(t);
      if vs.Err? {
        return Err(vs.error);
      }
      r := Ok(seq(|attrs.keys|, i requires 0 <= i < |attrs.keys| => (attrs.keys[i], vs.value[i])));
    }
  }
}
