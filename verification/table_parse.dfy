/** parse_table: the flat result of an SNMP walk regrouped by row and column. */
module TableParse {
  import opened Base
  import opened Strings
  import opened Dicts

  /** The pairs of a walk: OID and raw value, in the order the walk reported them. */
  type WalkResult = seq<(string, string)>

  /** Row id to (column id to raw value), both in first-seen order. */
  type RawTable = Dict<Dict<string>>

  /** The part of `oid` after the table OID and its dot. The prefix itself is not checked:
      only its length is used. */
  function Tail(tableOid: string, oid: string): string {
    Drop(oid, |tableOid| + 1)
  }

  /** column_id: the first dotted segment after the table OID. */
  function ColumnId(tableOid: string, oid: string): string {
    Split(Tail(tableOid, oid), '.')[0]
  }

  /** row_id: every segment after the column, joined again with dots. */
  function RowId(tableOid: string, oid: string): string {
    Join('.', Split(Tail(tableOid, oid), '.')[1..])
  }

  /** Where a walk pair lands: its row id, its column id and its raw value. */
  datatype Placed = Placed(row: string, column: string, raw: string)

  function Placements(tableOid: string, walk: WalkResult): seq<Placed> {
    seq(|walk|, i requires 0 <= i < |walk| =>
      Placed(RowId(tableOid, walk[i].0), ColumnId(tableOid, walk[i].0), walk[i].1))
  }

  /** An OID built as table OID, dot, a column without dots, dot, a row splits back into
      that column and that row; the row may itself contain dots. */
  lemma OidParts(tableOid: string, column: string, row: string)
    requires '.' !in column
    ensures ColumnId(tableOid, tableOid + "." + column + "." + row) == column
    ensures RowId(tableOid, tableOid + "." + column + "." + row) == row
  {
    var oid := tableOid + "." + column + "." + row;
    assert Tail(tableOid, oid) == column + "." + row;
    SplitAfterSegment(column, '.', row);
    JoinSplit(row, '.');
  }

  /** A walk pair whose OID is the table OID, a column without dots and a row lands in that
      row and that column, with its raw value. */
  lemma PlacedAt(tableOid: string, walk: WalkResult, i: nat, column: string, row: string)
    requires i < |walk| && walk[i].0 == tableOid + "." + column + "." + row && '.' !in column
    ensures Placements(tableOid, walk)[i] == Placed(row, column, walk[i].1)
  {
    OidParts(tableOid, column, row);
  }

  /** An OID with a column and no row part lands in the row with the empty id. */
  lemma OidWithoutRow(tableOid: string, column: string)
    requires '.' !in column
    ensures ColumnId(tableOid, tableOid + "." + column) == column
    ensures RowId(tableOid, tableOid + "." + column) == ""
  {
    var oid := tableOid + "." + column;
    assert Tail(tableOid, oid) == column;
    SplitNoSeparator(column, '.');
  }

  ghost predicate WellFormed(t: RawTable) {
    t.Valid() && forall row :: row in t.entries ==> t.entries[row].Valid()
  }

  /** result_dict[row][column] = raw, creating the row's dict when it is new. */
  function Insert(t: RawTable, row: string, column: string, raw: string): (t': RawTable)
    ensures WellFormed(t) ==> WellFormed(t')
  {
    var cells := if row in t.entries then t.entries[row] else Empty();
    t.Put(row, cells.Put(column, raw))
  }

  /** The grouping parse_table performs, over the placed pairs in walk order. */
  function Group(ps: seq<Placed>): (t: RawTable)
    ensures WellFormed(t)
  {
    if ps == [] then Empty()
    else
      var p := ps[|ps| - 1];
      Insert(Group(ps[..|ps| - 1]), p.row, p.column, p.raw)
  }

  /** What parse_table returns for a walk. */
  function Parse(tableOid: string, walk: WalkResult): (t: RawTable)
    ensures WellFormed(t)
  {
    Group(Placements(tableOid, walk))
  }

  /** The raw value at (row, column), if any. */
  function Cell(t: RawTable, row: string, column: string): Option<string> {
    if row in t.entries && column in t.entries[row].entries then Some(t.entries[row].entries[column])
    else None
  }

  /** The reference: the raw value of the last placed pair at (row, column). */
  function LastAt(ps: seq<Placed>, row: string, column: string): Option<string> {
    if ps == [] then None
    else
      var p := ps[|ps| - 1];
      if (p.row, p.column) == (row, column) then Some(p.raw) else LastAt(ps[..|ps| - 1], row, column)
  }

  /** LastAt finds nothing exactly when no pair lands at (row, column). */
  lemma {:induction false} LastAtNone(ps: seq<Placed>, row: string, column: string)
    ensures LastAt(ps, row, column).None? <==>
      forall i :: 0 <= i < |ps| ==> (ps[i].row, ps[i].column) != (row, column)
  {
    if ps != [] {
      var n := |ps| - 1;
      LastAtNone(ps[..n], row, column);
      assert forall i :: 0 <= i < n ==> ps[..n][i] == ps[i];
    }
  }

  /** What LastAt finds is the value of a pair that lands at (row, column) with no later
      pair at the same place. */
  lemma {:induction false} LastAtSome(ps: seq<Placed>, row: string, column: string)
    requires LastAt(ps, row, column).Some?
    ensures exists i ::
      && 0 <= i < |ps| && ps[i] == Placed(row, column, LastAt(ps, row, column).value)
      && forall j :: i < j < |ps| ==> (ps[j].row, ps[j].column) != (row, column)
  {
    var n := |ps| - 1;
    var v := LastAt(ps, row, column).value;
    if (ps[n].row, ps[n].column) == (row, column) {
      assert ps[n] == Placed(row, column, v);
    } else {
      var init := ps[..n];
      LastAtSome(init, row, column);
      var i :| 0 <= i < n && init[i] == Placed(row, column, v)
        && forall j :: i < j < n ==> (init[j].row, init[j].column) != (row, column);
      assert ps[i] == init[i];
      assert forall j :: i < j < |ps| ==> (ps[j].row, ps[j].column) != (row, column) by {
        forall j | i < j < |ps|
          ensures (ps[j].row, ps[j].column) != (row, column)
        {
          if j < n {
            assert ps[j] == init[j];
          }
        }
      }
    }
  }

  /** Grouping puts every pair at result[row][column], a later pair at the same place wins,
      and the result holds nothing that no pair put there. */
  lemma {:induction false} GroupCells(ps: seq<Placed>, row: string, column: string)
    ensures Cell(Group(ps), row, column) == LastAt(ps, row, column)
  {
    if ps != [] {
      GroupCells(ps[..|ps| - 1], row, column);
    }
  }

  /** The same for a walk: the OID `table.column.row` of the last pair for a place decides
      what parse_table holds there. */
  lemma ParseCells(tableOid: string, walk: WalkResult, row: string, column: string)
    ensures Cell(Parse(tableOid, walk), row, column) == LastAt(Placements(tableOid, walk), row, column)
  {
    GroupCells(Placements(tableOid, walk), row, column);
  }

  /** Creating the row's dict first and then assigning into it is Insert. */
  lemma InsertInPlace(t: RawTable, row: string, column: string, raw: string)
    ensures var t1 := if row in t.entries then t else t.Put(row, Empty());
      t1.Put(row, t1.entries[row].Put(column, raw)) == Insert(t, row, column, raw)
  {
  }

  /** Grouping one more pair inserts it into what the earlier pairs grouped to. */
  lemma GroupStep(ps: seq<Placed>, i: nat)
    requires i < |ps|
    ensures Group(ps[..i + 1]) == Insert(Group(ps[..i]), ps[i].row, ps[i].column, ps[i].raw)
  {
    assert ps[..i + 1][..i] == ps[..i];
  }

  /** parse_table, with its loop. */
  method ParseTable(tableOid: string, walk: WalkResult) returns (t: RawTable)
    ensures t == Parse(tableOid, walk)
  {
    ghost var ps := Placements(tableOid, walk);
    t := Empty();
    for i := 0 to |walk|
      invariant t == Group(ps[..i])
    {
      var (oid, raw) := walk[i];
      var column, row := ColumnId(tableOid, oid), RowId(tableOid, oid);
      ghost var before := t;
      if row !in t.entries {
        t := t.Put(row, Empty());
      }
      var cells := t.entries[row];
      t := t.Put(row, cells.Put(column, raw));
      InsertInPlace(before, row, column, raw);
      GroupStep(ps, i);
    }
    assert ps[..|walk|] == ps;
  }
}
