/**
 * Concrete rows and headers worked through the model: what a range row, a
 * plain row with a leading zero and the header check amount to.
 */
module Scenarios {
  import opened Wrappers
  import opened GoStrings
  import opened Scrape
  import opened Aggregate

  /** FormatInt prints 10, 11, 12 and 234 the usual way. */
  lemma SmallNumbers()
    ensures FormatInt(10) == "10" && FormatInt(11) == "11" && FormatInt(12) == "12"
    ensures FormatInt(234) == "234" && FormatInt(310) == "310"
  {
    assert DigitChar(0) == '0' && DigitChar(1) == '1' && DigitChar(2) == '2';
    assert DigitChar(3) == '3' && DigitChar(4) == '4';
    assert FormatNat(23) == "23" && FormatNat(31) == "31";
  }

  /** A cell holding a number as FormatInt prints it is read as that number, as MCC or as plain MNC. */
  lemma NumberCell(n: int)
    requires 0 <= n <= MaxInt64
    ensures MccText(FormatInt(n)) == FormatInt(n)
    ensures ParseInt64(TrimSpace(FormatInt(n))) == Some(n)
  {
    var s := FormatInt(n);
    TrimFormat(n);
    ParseFormat(n);
    FormatIntShape(n);
    assert '\n' !in s by {
      forall k | 0 <= k < |s| ensures s[k] != '\n' {
        assert IsDigit(s[k]);
      }
    }
  }

  /** "10-12" splits at its hyphen into "10" and "12". */
  lemma SplitExample()
    ensures Split("10-12", '-') == ["10", "12"]
  {
    SplitJoin(["10", "12"], '-');
    assert Join(["10", "12"], '-') == "10-12";
  }

  /** Text with no white space at either end is left alone by TrimSpace. */
  lemma TrimExample(s: string)
    requires |s| > 0 && !IsSpace(s[0]) && !IsSpace(s[|s| - 1])
    ensures TrimSpace(s) == s
  {
    TrimSpaceIsSlice(s, 0, |s|);
    assert s[0..|s|] == s;
  }

  /** The MNC "10-12" is the range from 10 to 12. */
  lemma RangeMncExample()
    ensures ParseMnc(TrimSpace("10-12")) == Success(Span(10, 12))
  {
    SmallNumbers();
    TrimFormat(10);
    TrimFormat(12);
    ParseFormat(10);
    ParseFormat(12);
    SplitExample();
    TrimExample("10-12");
    SpanBounds("10-12", 10, 12);
  }

  /** The range from 10 to 12 under MCC 234 writes three keys, in increasing order. */
  lemma ExpandExample(operator: string)
    ensures Expand("234", 10, 12, operator)
      == [Write("23410", operator), Write("23411", operator), Write("23412", operator)]
  {
    var ws := Expand("234", 10, 12, operator);
    SmallNumbers();
    ExpandAt("234", 10, 12, operator, 0);
    ExpandAt("234", 10, 12, operator, 1);
    ExpandAt("234", 10, 12, operator, 2);
    assert "234" + "10" == "23410" && "234" + "11" == "23411" && "234" + "12" == "23412";
    assert ws == [ws[0], ws[1], ws[2]];
  }

  /** A filled operator cell wins over the brand; text free of the four characters is stored as it is. */
  lemma OperatorExample()
    ensures OperatorName("ExampleCo", "ExampleCo Ltd") == "ExampleCo Ltd"
  {
    TrimExample("ExampleCo Ltd");
    NormalizeKeepsClean("ExampleCo Ltd");
  }

  /** A row "234 | 10-12 | ExampleCo | ExampleCo Ltd" stores 23410, 23411 and 23412 for ExampleCo Ltd. */
  lemma RangeRowExample()
    ensures RowWrites(["234", "10-12", "ExampleCo", "ExampleCo Ltd"])
      == [Write("23410", "ExampleCo Ltd"), Write("23411", "ExampleCo Ltd"), Write("23412", "ExampleCo Ltd")]
  {
    var cells := ["234", "10-12", "ExampleCo", "ExampleCo Ltd"];
    SmallNumbers();
    NumberCell(234);
    RangeMncExample();
    ExpandExample("ExampleCo Ltd");
    OperatorExample();
    ParsedRowWrites(cells);
  }

  /** "01" parses as 1. */
  lemma ParseLeadingZero()
    ensures ParseInt64("01") == Some(1)
  {
    assert "01"[..1] == "0";
    assert DecimalValue("01") == 1;
  }

  /** The MNC "01" is kept as written. */
  lemma PlainMncExample()
    ensures ParseMnc(TrimSpace("01")) == Success(Code("01"))
  {
    TrimExample("01");
    ParseLeadingZero();
    CodeKeptAsWritten("01");
  }

  /** An empty operator cell falls back to the brand cell. */
  lemma BrandExample()
    ensures OperatorName("Brand", "") == "Brand"
  {
    TrimExample("Brand");
    TrimAllSpace("");
    NormalizeKeepsClean("Brand");
  }

  /**
   * A row "310 | 01 | Brand | (empty)" stores the key 31001, with the MNC's
   * leading zero kept, for the brand.
   */
  lemma PlainRowExample()
    ensures RowWrites(["310", "01", "Brand", ""]) == [Write("31001", "Brand")]
  {
    var cells := ["310", "01", "Brand", ""];
    SmallNumbers();
    NumberCell(310);
    PlainMncExample();
    BrandExample();
    ParsedRowWrites(cells);
    PlainKey();
  }

  lemma PlainKey()
    ensures "310" + "01" == "31001"
  {
  }

  /**
   * The accepted header `MCC | MNC | Brand | Operator` followed by the row
   * `234 | 10-12 | ExampleCo | ExampleCo Ltd` turns an empty map into the
   * three keys 23410, 23411 and 23412, all for ExampleCo Ltd.
   */
  lemma RangeTableExample()
    ensures ApplyTable(map[], [Row(["MCC", "MNC", "Brand", "Operator"], []),
                               Row([], ["234", "10-12", "ExampleCo", "ExampleCo Ltd"])])
      == map["23410" := "ExampleCo Ltd", "23411" := "ExampleCo Ltd", "23412" := "ExampleCo Ltd"]
  {
    var header := Row(["MCC", "MNC", "Brand", "Operator"], []);
    var row := Row([], ["234", "10-12", "ExampleCo", "ExampleCo Ltd"]);
    ExampleHeaderAccepted(header, row);
    OneRowTable(map[], header, row);
    RangeRowExample();
    ThreeWrites(map[], Write("23410", "ExampleCo Ltd"), Write("23411", "ExampleCo Ltd"), Write("23412", "ExampleCo Ltd"));
  }

  lemma ExampleHeaderAccepted(header: Row, row: Row)
    requires header.headers == ["MCC", "MNC", "Brand", "Operator"]
    ensures HeaderAccepted([header, row])
  {
    TrimExample("MCC");
    TrimExample("MNC");
    TrimExample("Operator");
    HeaderAcceptedIff([header, row]);
  }

  /** A table of a header and one row contributes that row's writes when the header is accepted. */
  lemma OneRowTable(m: OperatorMap, header: Row, row: Row)
    requires HeaderAccepted([header, row])
    ensures ApplyTable(m, [header, row]) == ApplyWrites(m, RowWrites(row.cells))
  {
    assert [header, row][1..] == [row];
    assert [row][..0] == [];
    assert ApplyRows(m, [row]) == ApplyWrites(ApplyRows(m, []), RowWrites(row.cells));
  }

  /** Three writes are three updates in order. */
  lemma ThreeWrites(m: OperatorMap, a: Write, b: Write, c: Write)
    ensures ApplyWrites(m, [a, b, c]) == m[a.key := a.operator][b.key := b.operator][c.key := c.operator]
  {
    assert [a, b, c][..2] == [a, b];
    assert ApplyWrites(m, [a, b, c]) == ApplyWrites(m, [a, b])[c.key := c.operator];
    assert [a, b][..1] == [a];
    assert ApplyWrites(m, [a, b]) == ApplyWrites(m, [a])[b.key := b.operator];
    ApplyOneWrite(m, a);
  }

  /** The line breaks of a three-line MCC cell `a`, ` 234 `, `b`. */
  lemma MultiLineSplit()
    ensures Split("a\n 234 \nb", '\n') == ["a", " 234 ", "b"]
  {
    SplitJoin(["a", " 234 ", "b"], '\n');
    assert Join(["a", " 234 ", "b"], '\n') == "a\n 234 \nb";
  }

  /** The second line ` 234 ` parses as 234 once trimmed. */
  lemma PaddedMcc()
    ensures TrimSpace(" 234 ") == "234"
    ensures ParseInt64("234") == Some(234)
  {
    var s := " 234 ";
    TrimSpaceIsSlice(s, 1, 4);
    assert s[1..4] == "234";
    SmallNumbers();
    ParseFormat(234);
  }

  /** The MNC cell `10` is kept as written, and the operator cell `Op` is stored as it is. */
  lemma PlainTenAndOp()
    ensures ParseMnc(TrimSpace("10")) == Success(Code("10"))
    ensures OperatorName("Brand", "Op") == "Op"
  {
    SmallNumbers();
    TrimFormat(10);
    ParseFormat(10);
    CodeKeptAsWritten("10");
    TrimExample("Op");
    NormalizeKeepsClean("Op");
  }

  /**
   * A three-line MCC cell `a`, ` 234 `, `b`: the second line parses once
   * trimmed, but the key is built from it untrimmed, spaces included.
   */
  lemma MultiLineMccExample()
    ensures MccText("a\n 234 \nb") == " 234 "
    ensures RowWrites(["a\n 234 \nb", "10", "Brand", "Op"]) == [Write(" 234 10", "Op")]
  {
    var cell := "a\n 234 \nb";
    TrimExample(cell);
    assert cell[1] == '\n';
    MultiLineSplit();
    PaddedMcc();
    PlainTenAndOp();
    ParsedRowWrites([cell, "10", "Brand", "Op"]);
    PaddedKey();
  }

  lemma PaddedKey()
    ensures " 234 " + "10" == " 234 10"
  {
  }

  /** An MCC cell that is not a number drops the row. */
  lemma BadMccExample()
    ensures RowWrites(["n/a", "01", "Brand", "Operator"]) == []
  {
    TrimExample("n/a");
    assert !IsDigit("n/a"[0]);
    DroppedRowWritesNothing(["n/a", "01", "Brand", "Operator"]);
  }

  /** The header check looks at positions 0, 1 and 3, whatever position 2 holds. */
  lemma HeaderExamples()
    ensures HeaderAccepted([Row(["MCC", "MNC", "Something", "Operator"], [])])
    ensures !HeaderAccepted([Row(["MCC", "MNC", "Operator"], [])])
    ensures !HeaderAccepted([Row(["MCC", "MNC", "Operator", "Brand"], [])])
  {
    TrimExample("MCC");
    TrimExample("MNC");
    TrimExample("Operator");
    TrimExample("Brand");
    HeaderAcceptedIff([Row(["MCC", "MNC", "Something", "Operator"], [])]);
    HeaderAcceptedIff([Row(["MCC", "MNC", "Operator"], [])]);
    HeaderAcceptedIff([Row(["MCC", "MNC", "Operator", "Brand"], [])]);
  }
}
