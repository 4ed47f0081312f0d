/**
 * Recognising an MCC/MNC table by its header and turning each of its data rows
 * into writes of the operator map, over the cell texts of the table rather than
 * a parsed HTML document (main.go:42-103).
 */
module Scrape {
  import opened Wrappers
  import opened GoStrings

  /** One `tr` element: the texts of its `th` cells and of its `td` cells. */
  datatype Row = Row(headers: seq<string>, cells: seq<string>)

  /** The `tr` elements of one `table.wikitable`, in document order. */
  type Table = seq<Row>

  /** A source page: its wikitables in document order, or nothing when fetching or parsing it failed. */
  datatype Page = Parsed(tables: seq<Table>) | Unavailable

  /** Column positions the header check and the row extractor rely on. */
  const MccColumn: nat := 0
  const MncColumn: nat := 1
  const BrandColumn: nat := 2
  const OperatorColumn: nat := 3

  /** goquery's `columns.Eq(i).Text()`: the text of the i-th cell, or "" when there is no such cell. */
  function CellText(cells: seq<string>, i: nat): string {
    if i < |cells| then cells[i] else ""
  }

  /** The `th` texts of the table's first row (none when the table has no row). */
  function HeaderCells(t: Table): seq<string> {
    if |t| == 0 then [] else t[0].headers
  }

  // ---------------------------------------------------------------------------
  // Header acceptance (main.go:43-51)
  // ---------------------------------------------------------------------------

  predicate HeaderAccepted(t: Table) {
    var header := HeaderCells(t);
    TrimSpace(CellText(header, MccColumn)) == "MCC"
    && TrimSpace(CellText(header, MncColumn)) == "MNC"
    && TrimSpace(CellText(header, OperatorColumn)) == "Operator"
  }

  /**
   * A table is used exactly when its first row has at least four header cells
   * and those at 0, 1 and 3 read MCC, MNC and Operator once trimmed.
   */
  lemma HeaderAcceptedIff(t: Table)
    ensures HeaderAccepted(t) <==>
      |t| > 0 && |t[0].headers| >= 4
      && TrimSpace(t[0].headers[0]) == "MCC"
      && TrimSpace(t[0].headers[1]) == "MNC"
      && TrimSpace(t[0].headers[3]) == "Operator"
  {
    TrimAllSpace("");
  }

  // ---------------------------------------------------------------------------
  // Operator text (main.go:68-76)
  // ---------------------------------------------------------------------------

  const LeftDoubleQuote: char := '\U{201C}'
  const RightSingleQuote: char := '\U{2019}'
  const NoBreakSpace: char := '\U{00A0}'
  const EnDash: char := '\U{2013}'

  /** What the four substitutions do to one character, stated independently of ReplaceAll. */
  function NormalizeChar(c: char): char {
    if c == LeftDoubleQuote then '"'
    else if c == RightSingleQuote then '\''
    else if c == NoBreakSpace then ' '
    else if c == EnDash then '-'
    else c
  }

  /** s holds none of the four characters that normalisation replaces. */
  predicate IsNormalized(s: string) {
    forall k :: 0 <= k < |s| ==>
      s[k] != LeftDoubleQuote && s[k] != RightSingleQuote && s[k] != NoBreakSpace && s[k] != EnDash
  }

  /** The four ReplaceAll calls, in the source's order. */
  function Normalize(s: string): (r: string)
    ensures |r| == |s|
  {
    var r1 := ReplaceAll(s, LeftDoubleQuote, '"');
    var r2 := ReplaceAll(r1, RightSingleQuote, '\'');
    var r3 := ReplaceAll(r2, NoBreakSpace, ' ');
    ReplaceAll(r3, EnDash, '-')
  }

  /** The four substitutions in a row act on each character as NormalizeChar does. */
  lemma NormalizeAt(s: string, k: nat)
    requires k < |s|
    ensures Normalize(s)[k] == NormalizeChar(s[k])
  {
    var r1 := ReplaceAll(s, LeftDoubleQuote, '"');
    var r2 := ReplaceAll(r1, RightSingleQuote, '\'');
    var r3 := ReplaceAll(r2, NoBreakSpace, ' ');
    ReplaceAllAt(s, LeftDoubleQuote, '"', k);
    ReplaceAllAt(r1, RightSingleQuote, '\'', k);
    ReplaceAllAt(r2, NoBreakSpace, ' ', k);
    ReplaceAllAt(r3, EnDash, '-', k);
  }

  /** Normalised text holds none of the four characters. */
  lemma NormalizeCleans(s: string)
    ensures IsNormalized(Normalize(s))
  {
    var r := Normalize(s);
    forall k | 0 <= k < |r|
      ensures r[k] != LeftDoubleQuote && r[k] != RightSingleQuote && r[k] != NoBreakSpace && r[k] != EnDash
    {
      NormalizeAt(s, k);
    }
  }

  /** Text already free of the four characters passes through unchanged. */
  lemma NormalizeKeepsClean(s: string)
    requires IsNormalized(s)
    ensures Normalize(s) == s
  {
    forall k | 0 <= k < |s| ensures Normalize(s)[k] == s[k] {
      NormalizeAt(s, k);
    }
  }

  /** Normalising a second time changes nothing. */
  lemma NormalizeIdempotent(s: string)
    ensures Normalize(Normalize(s)) == Normalize(s)
  {
    NormalizeCleans(s);
    NormalizeKeepsClean(Normalize(s));
  }

  /**
   * Only the left double quotation mark is replaced: text in curly quotes keeps
   * its closing quotation mark (U+201D).
   */
  lemma CurlyQuotes(inner: string)
    ensures Normalize([LeftDoubleQuote] + inner + ['\U{201D}']) == ['"'] + Normalize(inner) + ['\U{201D}']
  {
    var s := [LeftDoubleQuote] + inner + ['\U{201D}'];
    var r := Normalize(s);
    var expected := ['"'] + Normalize(inner) + ['\U{201D}'];
    assert |r| == |expected|;
    forall k | 0 <= k < |r| ensures r[k] == expected[k] {
      NormalizeAt(s, k);
      if 0 < k < |s| - 1 {
        assert s[k] == inner[k - 1];
        NormalizeAt(inner, k - 1);
      }
    }
  }

  /** The stored operator name: the trimmed operator cell, or the trimmed brand cell when that is empty, normalised. */
  function OperatorName(brandCell: string, operatorCell: string): (r: string)
    ensures IsNormalized(r)
  {
    var operator := TrimSpace(operatorCell);
    var chosen := if operator == "" then TrimSpace(brandCell) else operator;
    NormalizeCleans(chosen);
    Normalize(chosen)
  }

  /**
   * An empty operator cell stores the trimmed brand, character by character
   * normalised; a brand free of the four characters is stored as it was trimmed.
   */
  lemma OperatorFallsBackToBrand(brandCell: string, operatorCell: string)
    requires TrimSpace(operatorCell) == ""
    ensures |OperatorName(brandCell, operatorCell)| == |TrimSpace(brandCell)|
    ensures forall k :: 0 <= k < |TrimSpace(brandCell)| ==>
      OperatorName(brandCell, operatorCell)[k] == NormalizeChar(TrimSpace(brandCell)[k])
    ensures IsNormalized(TrimSpace(brandCell)) ==> OperatorName(brandCell, operatorCell) == TrimSpace(brandCell)
  {
    var brand := TrimSpace(brandCell);
    forall k | 0 <= k < |brand| ensures OperatorName(brandCell, operatorCell)[k] == NormalizeChar(brand[k]) {
      NormalizeAt(brand, k);
    }
    if IsNormalized(brand) {
      NormalizeKeepsClean(brand);
    }
  }

  /**
   * A non-empty operator cell decides the stored name on its own, whatever the
   * brand cell holds: its trimmed text, character by character normalised.
   */
  lemma OperatorIgnoresBrand(brandCell: string, otherBrandCell: string, operatorCell: string)
    requires TrimSpace(operatorCell) != ""
    ensures OperatorName(brandCell, operatorCell) == OperatorName(otherBrandCell, operatorCell)
    ensures |OperatorName(brandCell, operatorCell)| == |TrimSpace(operatorCell)|
    ensures forall k :: 0 <= k < |TrimSpace(operatorCell)| ==>
      OperatorName(brandCell, operatorCell)[k] == NormalizeChar(TrimSpace(operatorCell)[k])
  {
    var operator := TrimSpace(operatorCell);
    forall k | 0 <= k < |operator| ensures OperatorName(brandCell, operatorCell)[k] == NormalizeChar(operator[k]) {
      NormalizeAt(operator, k);
    }
  }

  // ---------------------------------------------------------------------------
  // The MCC cell (main.go:60-66)
  // ---------------------------------------------------------------------------

  /** The trimmed MCC cell, or its second line when it spans several lines; this line is not trimmed again. */
  function MccText(cell: string): string {
    var mcc := TrimSpace(cell);
    if '\n' in mcc then Split(mcc, '\n')[1] else mcc
  }

  /** A multi-line MCC cell yields exactly the text between its first and its second line break. */
  lemma MccIsSecondLine(cell: string) returns (first: string, rest: string)
    requires '\n' in TrimSpace(cell)
    ensures TrimSpace(cell) == first + "\n" + MccText(cell) + rest
    ensures '\n' !in first && '\n' !in MccText(cell)
    ensures rest == [] || rest[0] == '\n'
  {
    first, rest := SplitSecond(TrimSpace(cell), '\n');
  }

  // ---------------------------------------------------------------------------
  // Row records (main.go:58-100)
  // ---------------------------------------------------------------------------

  /** The MNC of a row: a single code kept as written, or an inclusive range of numbers. */
  datatype Mnc = Code(text: string) | Span(first: int, last: int)

  /** A data row once it has passed every check. */
  datatype RowRecord = RowRecord(mcc: string, mnc: Mnc, operator: string)

  /** Why a row was dropped; the last two are the ones the program reports on the console. */
  datatype RowError = TooFewCells | BadMcc | BadMnc | BadRangeStart | BadRangeEnd

  /** One assignment `data[key] = operator`. */
  datatype Write = Write(key: string, operator: string)

  /** Reads the trimmed MNC text: a hyphen makes it a range whose first two pieces must parse (main.go:78-99). */
  function ParseMnc(mnc: string): (r: Result<Mnc, RowError>)
    ensures r.Success? && r.value.Code? ==>
      r.value.text == mnc && '-' !in mnc && ParseInt64(TrimSpace(mnc)).Some?
    ensures r.Success? && r.value.Span? ==>
      '-' in mnc && MinInt64 <= r.value.first <= MaxInt64 && MinInt64 <= r.value.last <= MaxInt64
    ensures r.Failure? ==> r.error == BadMnc || r.error == BadRangeStart || r.error == BadRangeEnd
  {
    if '-' in mnc then
      var bounds := Split(mnc, '-');
      var first := ParseInt64(TrimSpace(bounds[0]));
      if first.None? then Failure(BadRangeStart)
      else
        var last := ParseInt64(TrimSpace(bounds[1]));
        if last.None? then Failure(BadRangeEnd)
        else Success(Span(first.value, last.value))
    else if ParseInt64(TrimSpace(mnc)).None? then Failure(BadMnc)
    else Success(Code(mnc))
  }

  /** What every accepted row satisfies: its MCC and MNC parse as int64 numbers and its operator is normalised. */
  predicate WellFormed(r: RowRecord) {
    ParseInt64(TrimSpace(r.mcc)).Some? && IsNormalized(r.operator)
    && match r.mnc
       case Code(text) => ParseInt64(TrimSpace(text)).Some?
       case Span(first, last) => MinInt64 <= first <= MaxInt64 && MinInt64 <= last <= MaxInt64
  }

  /** Reads a data row's `td` texts; every rejection is local to the row. */
  function ParseRow(cells: seq<string>): (r: Result<RowRecord, RowError>)
    ensures r.Success? ==> |cells| >= 4 && WellFormed(r.value)
    ensures r == Failure(TooFewCells) <==> |cells| < 4
    ensures r == Failure(BadMcc) <==> |cells| >= 4 && ParseInt64(TrimSpace(MccText(cells[MccColumn]))).None?
  {
    if |cells| < 4 then Failure(TooFewCells)
    else
      var mcc := MccText(cells[MccColumn]);
      if ParseInt64(TrimSpace(mcc)).None? then Failure(BadMcc)
      else
        match ParseMnc(TrimSpace(cells[MncColumn]))
        case Failure(e) => Failure(e)
        case Success(mnc) => Success(RowRecord(mcc, mnc, OperatorName(cells[BrandColumn], cells[OperatorColumn])))
  }

  /** The writes of a range row: one per number from first to last, in increasing order. */
  function Expand(mcc: string, first: int, last: int, operator: string): (ws: seq<Write>)
    ensures |ws| == if first <= last then last - first + 1 else 0
    decreases last - first + 1
  {
    if last < first then []
    else Expand(mcc, first, last - 1, operator) + [Write(mcc + FormatInt(last), operator)]
  }

  /** The k-th write of a range is for the k-th number of the range, printed without padding. */
  lemma {:induction false} ExpandAt(mcc: string, first: int, last: int, operator: string, k: nat)
    requires k < |Expand(mcc, first, last, operator)|
    ensures Expand(mcc, first, last, operator)[k] == Write(mcc + FormatInt(first + k), operator)
    decreases last - first + 1
  {
    if first + k < last {
      ExpandAt(mcc, first, last - 1, operator, k);
    }
  }

  function RecordWrites(r: RowRecord): seq<Write> {
    match r.mnc
    case Code(text) => [Write(r.mcc + text, r.operator)]
    case Span(first, last) => Expand(r.mcc, first, last, r.operator)
  }

  /** The writes one data row makes, in order: none when the row is dropped. */
  function RowWrites(cells: seq<string>): seq<Write> {
    match ParseRow(cells)
    case Success(r) => RecordWrites(r)
    case Failure(_) => []
  }

  /**
   * The row reaches the range loop with an upper bound of MaxInt64: `mnc <= mncEnd`
   * then always holds, the int64 counter wraps around, and the loop never ends.
   */
  predicate LoopsForever(cells: seq<string>) {
    var r := ParseRow(cells);
    r.Success? && r.value.mnc.Span? && r.value.mnc.last == MaxInt64
  }

  // ---------------------------------------------------------------------------
  // What a row writes
  // ---------------------------------------------------------------------------

  /** A row with fewer than four `td` cells, or whose MCC does not parse, writes nothing. */
  lemma DroppedRowWritesNothing(cells: seq<string>)
    requires |cells| < 4 || ParseInt64(TrimSpace(MccText(cells[MccColumn]))).None?
    ensures RowWrites(cells) == []
  {
  }

  /** A row with four cells and a parsing MCC writes what its MNC calls for, with the row's operator. */
  lemma ParsedRowWrites(cells: seq<string>)
    requires |cells| >= 4 && ParseInt64(TrimSpace(MccText(cells[MccColumn]))).Some?
    ensures var mcc := MccText(cells[MccColumn]);
      var operator := OperatorName(cells[BrandColumn], cells[OperatorColumn]);
      match ParseMnc(TrimSpace(cells[MncColumn]))
      case Failure(_) => RowWrites(cells) == []
      case Success(Code(text)) => RowWrites(cells) == [Write(mcc + text, operator)]
      case Success(Span(first, last)) => RowWrites(cells) == Expand(mcc, first, last, operator)
  {
  }

  /** A hyphenated MNC whose start or end does not parse is rejected, before anything is written. */
  lemma BadBoundRejected(mnc: string)
    requires '-' in mnc
    requires var bounds := Split(mnc, '-');
      ParseInt64(TrimSpace(bounds[0])).None? || ParseInt64(TrimSpace(bounds[1])).None?
    ensures ParseMnc(mnc).Failure?
  {
  }

  /** A hyphenated MNC is the range between its first two pieces. */
  lemma SpanBounds(mnc: string, first: int, last: int)
    requires '-' in mnc
    requires var bounds := Split(mnc, '-');
      ParseInt64(TrimSpace(bounds[0])) == Some(first) && ParseInt64(TrimSpace(bounds[1])) == Some(last)
    ensures ParseMnc(mnc) == Success(Span(first, last))
  {
  }

  /** A plain MNC is kept as written, leading zeros and all, exactly when it parses. */
  lemma CodeKeptAsWritten(mnc: string)
    requires '-' !in mnc
    ensures ParseMnc(mnc).Success? <==> ParseInt64(TrimSpace(mnc)).Some?
    ensures ParseMnc(mnc).Success? ==> ParseMnc(mnc) == Success(Code(mnc))
  {
  }

  /**
   * Every key an accepted row writes is its MCC text followed by a number text
   * that parses as an int64 once trimmed, and every value is normalised.
   */
  lemma WriteShape(r: RowRecord, k: nat)
    requires WellFormed(r) && k < |RecordWrites(r)|
    ensures var w := RecordWrites(r)[k];
      |r.mcc| <= |w.key| && w.key[..|r.mcc|] == r.mcc
      && ParseInt64(TrimSpace(w.key[|r.mcc|..])).Some?
      && IsNormalized(w.operator)
  {
    var w := RecordWrites(r)[k];
    match r.mnc
    case Code(text) =>
      assert w.key == r.mcc + text;
      assert w.key[|r.mcc|..] == text;
    case Span(first, last) =>
      var n := first + k;
      ExpandAt(r.mcc, first, last, r.operator, k);
      assert w.key == r.mcc + FormatInt(n);
      assert w.key[|r.mcc|..] == FormatInt(n);
      TrimFormat(n);
      ParseFormat(n);
  }
}
