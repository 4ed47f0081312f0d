/**
 * The `data` map the scraper fills (main.go:26, 92, 99): the writes of every
 * data row of every accepted table of every page, applied in order so that the
 * last write of a key wins.
 */
module Aggregate {
  import opened Wrappers
  import opened GoStrings
  import opened Scrape

  /** MCC+MNC key to operator name. */
  type OperatorMap = map<string, string>

  // ---------------------------------------------------------------------------
  // Applying writes
  // ---------------------------------------------------------------------------

  function ApplyWrites(m: OperatorMap, ws: seq<Write>): OperatorMap
    decreases |ws|
  {
    if ws == [] then m
    else
      var w := ws[|ws| - 1];
      ApplyWrites(m, ws[..|ws| - 1])[w.key := w.operator]
  }

  lemma NoWrites(m: OperatorMap)
    ensures ApplyWrites(m, []) == m
  {
  }

  lemma ApplyOneWrite(m: OperatorMap, w: Write)
    ensures ApplyWrites(m, [w]) == m[w.key := w.operator]
  {
    assert [w][..0] == [];
  }

  /** A write that no later write to the same key follows decides that key's value. */
  lemma {:induction false} LastWriteWins(m: OperatorMap, ws: seq<Write>, i: nat)
    requires i < |ws|
    requires forall j :: i < j < |ws| ==> ws[j].key != ws[i].key
    ensures ws[i].key in ApplyWrites(m, ws) && ApplyWrites(m, ws)[ws[i].key] == ws[i].operator
    decreases |ws|
  {
    if i < |ws| - 1 {
      var init := ws[..|ws| - 1];
      assert forall j :: i < j < |init| ==> init[j] == ws[j];
      LastWriteWins(m, init, i);
    }
  }

  /** A key that no write touches keeps its presence and its value. */
  lemma {:induction false} UnwrittenKeyKept(m: OperatorMap, ws: seq<Write>, k: string)
    requires forall j :: 0 <= j < |ws| ==> ws[j].key != k
    ensures (k in ApplyWrites(m, ws)) == (k in m)
    ensures k in m ==> ApplyWrites(m, ws)[k] == m[k]
    decreases |ws|
  {
    if ws != [] {
      var init := ws[..|ws| - 1];
      assert forall j :: 0 <= j < |init| ==> init[j] == ws[j];
      UnwrittenKeyKept(m, init, k);
    }
  }

  /** The keys afterwards are the keys before and the keys written. */
  lemma {:induction false} ApplyWritesKeys(m: OperatorMap, ws: seq<Write>)
    ensures ApplyWrites(m, ws).Keys == m.Keys + (set j | 0 <= j < |ws| :: ws[j].key)
    decreases |ws|
  {
    if ws != [] {
      var init := ws[..|ws| - 1];
      ApplyWritesKeys(m, init);
      assert (set j | 0 <= j < |ws| :: ws[j].key)
          == (set j | 0 <= j < |init| :: init[j].key) + {ws[|ws| - 1].key};
    }
  }

  // ---------------------------------------------------------------------------
  // MNC ranges
  // ---------------------------------------------------------------------------

  /** The keys a range row writes: MCC + FormatInt(n) for each n from first to last. */
  function RangeKeys(mcc: string, first: int, last: int): set<string>
    decreases last - first + 1
  {
    if last < first then {} else RangeKeys(mcc, first, last - 1) + {mcc + FormatInt(last)}
  }

  /** Every number of the range contributes its key. */
  lemma {:induction false} RangeKeyIn(mcc: string, first: int, last: int, n: int)
    requires first <= n <= last
    ensures mcc + FormatInt(n) in RangeKeys(mcc, first, last)
    decreases last - first + 1
  {
    if n < last {
      RangeKeyIn(mcc, first, last - 1, n);
    }
  }

  /** Every key of the range comes from a number of the range. */
  lemma {:induction false} RangeKeyFrom(mcc: string, first: int, last: int, k: string) returns (n: int)
    requires k in RangeKeys(mcc, first, last)
    ensures first <= n <= last && k == mcc + FormatInt(n)
    decreases last - first + 1
  {
    if k == mcc + FormatInt(last) {
      n := last;
    } else {
      n := RangeKeyFrom(mcc, first, last - 1, k);
    }
  }

  /** The last key of a range is not among the keys before it. */
  lemma LastKeyIsNew(mcc: string, first: int, last: int)
    ensures mcc + FormatInt(last) !in RangeKeys(mcc, first, last - 1)
  {
    var key := mcc + FormatInt(last);
    if key in RangeKeys(mcc, first, last - 1) {
      var n := RangeKeyFrom(mcc, first, last - 1, key);
      assert FormatInt(n) == key[|mcc|..] == FormatInt(last);
      FormatIntInjective(n, last);
    }
  }

  /** A range from first to last yields last - first + 1 distinct keys. */
  lemma {:induction false} RangeKeysCount(mcc: string, first: int, last: int)
    requires first <= last + 1
    ensures |RangeKeys(mcc, first, last)| == last - first + 1
    decreases last - first + 1
  {
    if first <= last {
      RangeKeysCount(mcc, first, last - 1);
      LastKeyIsNew(mcc, first, last);
    }
  }

  /** The range's last write lands on top of the writes for the numbers before it. */
  lemma ApplyRangeStep(m: OperatorMap, mcc: string, first: int, last: int, operator: string)
    requires first <= last
    ensures ApplyWrites(m, Expand(mcc, first, last, operator))
      == ApplyWrites(m, Expand(mcc, first, last - 1, operator))[mcc + FormatInt(last) := operator]
  {
    var ws := Expand(mcc, first, last, operator);
    assert ws[..|ws| - 1] == Expand(mcc, first, last - 1, operator);
  }

  /**
   * After a range row, a key is present exactly when it was before or is one
   * of the range's keys; a range key holds the operator, any other key keeps
   * its value.
   */
  lemma {:induction false} ApplyRangeAt(m: OperatorMap, mcc: string, first: int, last: int, operator: string, k: string)
    ensures k in ApplyWrites(m, Expand(mcc, first, last, operator)) <==> k in m || k in RangeKeys(mcc, first, last)
    ensures k in RangeKeys(mcc, first, last) ==> ApplyWrites(m, Expand(mcc, first, last, operator))[k] == operator
    ensures k in m && k !in RangeKeys(mcc, first, last) ==> ApplyWrites(m, Expand(mcc, first, last, operator))[k] == m[k]
    decreases last - first + 1
  {
    if first <= last {
      ApplyRangeStep(m, mcc, first, last, operator);
      ApplyRangeAt(m, mcc, first, last - 1, operator, k);
    }
  }

  /**
   * Applying a range row adds the range's keys, maps each of them to the
   * operator, and leaves every other key as it was.
   */
  lemma ApplyRange(m: OperatorMap, mcc: string, first: int, last: int, operator: string)
    ensures ApplyWrites(m, Expand(mcc, first, last, operator)).Keys == m.Keys + RangeKeys(mcc, first, last)
    ensures forall k :: k in RangeKeys(mcc, first, last) ==>
      ApplyWrites(m, Expand(mcc, first, last, operator))[k] == operator
    ensures forall k :: k in m && k !in RangeKeys(mcc, first, last) ==>
      ApplyWrites(m, Expand(mcc, first, last, operator))[k] == m[k]
  {
    forall k {
      ApplyRangeAt(m, mcc, first, last, operator, k);
    }
  }

  // ---------------------------------------------------------------------------
  // Rows, tables and pages
  // ---------------------------------------------------------------------------

  /** The data rows, in order. */
  function ApplyRows(m: OperatorMap, rows: seq<Row>): OperatorMap
    decreases |rows|
  {
    if rows == [] then m
    else ApplyWrites(ApplyRows(m, rows[..|rows| - 1]), RowWrites(rows[|rows| - 1].cells))
  }

  /** A table whose header is accepted contributes every row but its first; any other table contributes nothing. */
  function ApplyTable(m: OperatorMap, t: Table): OperatorMap {
    if HeaderAccepted(t) then ApplyRows(m, t[1..]) else m
  }

  function ApplyTables(m: OperatorMap, ts: seq<Table>): OperatorMap
    decreases |ts|
  {
    if ts == [] then m else ApplyTable(ApplyTables(m, ts[..|ts| - 1]), ts[|ts| - 1])
  }

  /** The pages in order; a page that could not be fetched or parsed contributes nothing. */
  function ApplyPages(m: OperatorMap, pages: seq<Page>): OperatorMap
    decreases |pages|
  {
    if pages == [] then m
    else
      var before := ApplyPages(m, pages[..|pages| - 1]);
      match pages[|pages| - 1]
      case Parsed(tables) => ApplyTables(before, tables)
      case Unavailable => before
  }

  /** One more row of the loop applies that row's writes on top of the rows before it. */
  lemma ApplyRowsStep(m: OperatorMap, rows: seq<Row>, i: nat)
    requires i < |rows|
    ensures ApplyRows(m, rows[..i + 1]) == ApplyWrites(ApplyRows(m, rows[..i]), RowWrites(rows[i].cells))
  {
    assert rows[..i + 1][..i] == rows[..i];
  }

  /** The first row of a table is its header row: its `td` cells never matter. */
  lemma FirstRowIsNotData(m: OperatorMap, t: Table, cells: seq<string>)
    requires |t| > 0
    ensures ApplyTable(m, [Row(t[0].headers, cells)] + t[1..]) == ApplyTable(m, t)
  {
    var t' := [Row(t[0].headers, cells)] + t[1..];
    assert t'[1..] == t[1..];
    assert HeaderCells(t') == HeaderCells(t);
  }

  // ---------------------------------------------------------------------------
  // Invariants of the whole map
  // ---------------------------------------------------------------------------

  /** No stored operator name holds one of the characters normalisation replaces. */
  ghost predicate AllNormalized(m: OperatorMap) {
    forall k :: k in m ==> IsNormalized(m[k])
  }

  lemma {:induction false} RowKeepsNormalized(m: OperatorMap, cells: seq<string>)
    requires AllNormalized(m)
    ensures AllNormalized(ApplyWrites(m, RowWrites(cells)))
  {
    var ws := RowWrites(cells);
    forall j | 0 <= j < |ws| ensures IsNormalized(ws[j].operator) {
      WriteShape(ParseRow(cells).value, j);
    }
    WritesKeepNormalized(m, ws);
  }

  lemma {:induction false} WritesKeepNormalized(m: OperatorMap, ws: seq<Write>)
    requires AllNormalized(m)
    requires forall j :: 0 <= j < |ws| ==> IsNormalized(ws[j].operator)
    ensures AllNormalized(ApplyWrites(m, ws))
    decreases |ws|
  {
    if ws != [] {
      var init := ws[..|ws| - 1];
      assert forall j :: 0 <= j < |init| ==> init[j] == ws[j];
      WritesKeepNormalized(m, init);
    }
  }

  lemma {:induction false} RowsKeepNormalized(m: OperatorMap, rows: seq<Row>)
    requires AllNormalized(m)
    ensures AllNormalized(ApplyRows(m, rows))
    decreases |rows|
  {
    if rows != [] {
      RowsKeepNormalized(m, rows[..|rows| - 1]);
      RowKeepsNormalized(ApplyRows(m, rows[..|rows| - 1]), rows[|rows| - 1].cells);
    }
  }

  lemma {:induction false} TablesKeepNormalized(m: OperatorMap, ts: seq<Table>)
    requires AllNormalized(m)
    ensures AllNormalized(ApplyTables(m, ts))
    decreases |ts|
  {
    if ts != [] {
      TablesKeepNormalized(m, ts[..|ts| - 1]);
      var t := ts[|ts| - 1];
      if HeaderAccepted(t) {
        RowsKeepNormalized(ApplyTables(m, ts[..|ts| - 1]), t[1..]);
      }
    }
  }

  /** Whatever the pages hold, no stored operator name carries “, ’, a no-break space or –. */
  lemma {:induction false} PagesKeepNormalized(m: OperatorMap, pages: seq<Page>)
    requires AllNormalized(m)
    ensures AllNormalized(ApplyPages(m, pages))
    decreases |pages|
  {
    if pages != [] {
      PagesKeepNormalized(m, pages[..|pages| - 1]);
      if pages[|pages| - 1].Parsed? {
        TablesKeepNormalized(ApplyPages(m, pages[..|pages| - 1]), pages[|pages| - 1].tables);
      }
    }
  }

  /** Keys are never removed: every table only adds or overwrites entries. */
  lemma {:induction false} RowsOnlyAdd(m: OperatorMap, rows: seq<Row>)
    ensures m.Keys <= ApplyRows(m, rows).Keys
    decreases |rows|
  {
    if rows != [] {
      var before := ApplyRows(m, rows[..|rows| - 1]);
      RowsOnlyAdd(m, rows[..|rows| - 1]);
      ApplyWritesKeys(before, RowWrites(rows[|rows| - 1].cells));
    }
  }

  // ---------------------------------------------------------------------------
  // Termination of the range loop
  // ---------------------------------------------------------------------------

  /** Every data row of the table ends its range loop (no row reaches it with MaxInt64 as upper bound). */
  predicate TableHalts(t: Table) {
    HeaderAccepted(t) ==> forall j {:trigger LoopsForever(t[j].cells)} :: 1 <= j < |t| ==> !LoopsForever(t[j].cells)
  }

  predicate PageHalts(p: Page) {
    p.Parsed? ==> forall i {:trigger TableHalts(p.tables[i])} :: 0 <= i < |p.tables| ==> TableHalts(p.tables[i])
  }

  // ---------------------------------------------------------------------------
  // The map as the program fills it
  // ---------------------------------------------------------------------------

  /** The `data` map, filled in place by the row, table and page loops. */
  class OperatorIndex {
    var data: OperatorMap

    constructor ()
      ensures data == map[]
    {
      data := map[];
    }

    /** The per-row closure (main.go:58-101). */
    method AddRow(cells: seq<string>)
      requires !LoopsForever(cells)
      modifies this
      ensures data == ApplyWrites(old(data), RowWrites(cells))
    {
      if |cells| < 4 {
        DroppedRowWritesNothing(cells);
        NoWrites(data);
        return;
      }
      var mcc := TrimSpace(cells[MccColumn]);
      if '\n' in mcc {
        mcc := Split(mcc, '\n')[1];
      }
      assert mcc == MccText(cells[MccColumn]);
      if ParseInt64(TrimSpace(mcc)).None? {
        DroppedRowWritesNothing(cells);
        NoWrites(data);
        return;
      }
      var mnc := TrimSpace(cells[MncColumn]);
      var brand := TrimSpace(cells[BrandColumn]);
      var operator := TrimSpace(cells[OperatorColumn]);
      if operator == "" {
        operator := brand;
      }
      operator := ReplaceAll(operator, LeftDoubleQuote, '"');
      operator := ReplaceAll(operator, RightSingleQuote, '\'');
      operator := ReplaceAll(operator, NoBreakSpace, ' ');
      operator := ReplaceAll(operator, EnDash, '-');
      assert operator == OperatorName(cells[BrandColumn], cells[OperatorColumn]);
      ParsedRowWrites(cells);

      if '-' in mnc {
        var bounds := Split(mnc, '-');
        var start := ParseInt64(TrimSpace(bounds[0]));
        if start.None? {
          BadBoundRejected(mnc);
          assert RowWrites(cells) == [];
          NoWrites(data);
          return;
        }
        var end := ParseInt64(TrimSpace(bounds[1]));
        if end.None? {
          BadBoundRejected(mnc);
          assert RowWrites(cells) == [];
          NoWrites(data);
          return;
        }
        SpanBounds(mnc, start.value, end.value);
        assert RowWrites(cells) == Expand(mcc, start.value, end.value, operator);
        AddRange(mcc, start.value, end.value, operator);
      } else {
        CodeKeptAsWritten(mnc);
        if ParseInt64(TrimSpace(mnc)).None? {
          assert RowWrites(cells) == [];
          NoWrites(data);
          return;
        }
        assert RowWrites(cells) == [Write(mcc + mnc, operator)];
        ApplyOneWrite(data, Write(mcc + mnc, operator));
        data := data[mcc + mnc := operator];
      }
    }

    /** The counting loop of a range row (main.go:90-93): one key per number, upwards. */
    method AddRange(mcc: string, lo: int, hi: int, operator: string)
      requires hi < MaxInt64
      modifies this
      ensures data == ApplyWrites(old(data), Expand(mcc, lo, hi, operator))
    {
      var n := lo;
      while n <= hi
        invariant lo <= n <= if lo <= hi + 1 then hi + 1 else lo
        invariant data == ApplyWrites(old(data), Expand(mcc, lo, n - 1, operator))
      {
        ApplyRangeStep(old(data), mcc, lo, n, operator);
        data := data[mcc + FormatInt(n) := operator];
        n := n + 1;
      }
      if lo <= hi {
        assert n - 1 == hi;
      } else {
        assert |Expand(mcc, lo, hi, operator)| == 0 && |Expand(mcc, lo, n - 1, operator)| == 0;
      }
    }

    /** The per-table closure (main.go:42-103): the header check, then every row after the first. */
    method AddTable(t: Table)
      requires TableHalts(t)
      modifies this
      ensures data == ApplyTable(old(data), t)
      ensures !HeaderAccepted(t) ==> data == old(data)
    {
      var columns := HeaderCells(t);
      if TrimSpace(CellText(columns, MccColumn)) != "MCC" {
        return;
      }
      if TrimSpace(CellText(columns, MncColumn)) != "MNC" {
        return;
      }
      if TrimSpace(CellText(columns, OperatorColumn)) != "Operator" {
        return;
      }
      assert HeaderAccepted(t) && |t| > 0;
      // The header row, j == 0 in the row callback, is skipped.
      AddRows(t[1..]);
    }

    /** The row loop of an accepted table (main.go:53-102), given every `tr` after the header row, in order. */
    method AddRows(rows: seq<Row>)
      requires forall i {:trigger LoopsForever(rows[i].cells)} :: 0 <= i < |rows| ==> !LoopsForever(rows[i].cells)
      modifies this
      ensures data == ApplyRows(old(data), rows)
    {
      ghost var start := data;
      var i := 0;
      while i < |rows|
        invariant 0 <= i <= |rows|
        invariant data == ApplyRows(start, rows[..i])
      {
        ApplyRowsStep(start, rows, i);
        AddRow(rows[i].cells);
        i := i + 1;
      }
      assert rows[..|rows|] == rows;
    }

    /** All wikitables of one page, in document order; a page that failed contributes nothing (main.go:28-42). */
    method AddPage(p: Page)
      requires PageHalts(p)
      modifies this
      ensures data == if p.Parsed? then ApplyTables(old(data), p.tables) else old(data)
    {
      if p.Unavailable? {
        return;
      }
      var i := 0;
      while i < |p.tables|
        invariant 0 <= i <= |p.tables|
        invariant data == ApplyTables(old(data), p.tables[..i])
      {
        assert p.tables[..i + 1][..i] == p.tables[..i];
        AddTable(p.tables[i]);
        i := i + 1;
      }
      assert p.tables[..|p.tables|] == p.tables;
    }
  }

  /** The `data` map after every page has been processed, in the order of the page list (main.go:26-104). */
  method BuildOperatorMap(pages: seq<Page>) returns (data: OperatorMap)
    requires forall i {:trigger PageHalts(pages[i])} :: 0 <= i < |pages| ==> PageHalts(pages[i])
    ensures data == ApplyPages(map[], pages)
    ensures AllNormalized(data)
  {
    var index := new OperatorIndex();
    var i := 0;
    while i < |pages|
      invariant 0 <= i <= |pages|
      invariant index.data == ApplyPages(map[], pages[..i])
    {
      assert pages[..i + 1][..i] == pages[..i];
      index.AddPage(pages[i]);
      i := i + 1;
    }
    assert pages[..|pages|] == pages;
    data := index.data;
    PagesKeepNormalized(map[], pages);
  }
}
