/**
 * The parts of Go's `strings` and `strconv` packages that the scraper relies on,
 * over strings taken as sequences of Unicode code points.
 */
module GoStrings {
  import opened Wrappers

  // ---------------------------------------------------------------------------
  // strings.TrimSpace
  // ---------------------------------------------------------------------------

  /** Go's unicode.IsSpace: the characters with the Unicode White_Space property. */
  predicate IsSpace(c: char) {
    c == '\t' || c == '\n' || c == '\U{000B}' || c == '\U{000C}' || c == '\r' || c == ' '
    || c == '\U{0085}' || c == '\U{00A0}' || c == '\U{1680}'
    || ('\U{2000}' <= c <= '\U{200A}')
    || c == '\U{2028}' || c == '\U{2029}' || c == '\U{202F}' || c == '\U{205F}' || c == '\U{3000}'
  }

  /** Every character of s[lo..hi] is white space. */
  ghost predicate SpaceBetween(s: string, lo: int, hi: int)
    requires 0 <= lo <= hi <= |s|
  {
    forall k :: lo <= k < hi ==> IsSpace(s[k])
  }

  /** Drops the leading white space. */
  function TrimLeft(s: string): (r: string)
    ensures |r| <= |s|
  {
    if |s| > 0 && IsSpace(s[0]) then TrimLeft(s[1..]) else s
  }

  /** Drops the trailing white space. */
  function TrimRight(s: string): (r: string)
    ensures |r| <= |s|
  {
    if |s| > 0 && IsSpace(s[|s| - 1]) then TrimRight(s[..|s| - 1]) else s
  }

  /** strings.TrimSpace */
  function TrimSpace(s: string): string {
    TrimRight(TrimLeft(s))
  }

  /** TrimLeft keeps the suffix that starts at the first character that is not white space. */
  lemma {:induction false} TrimLeftShape(s: string)
    ensures var r := TrimLeft(s);
      r == s[|s| - |r|..] && SpaceBetween(s, 0, |s| - |r|) && (r == [] || !IsSpace(r[0]))
    decreases |s|
  {
    if |s| > 0 && IsSpace(s[0]) {
      var t := s[1..];
      TrimLeftShape(t);
      var r := TrimLeft(t);
      assert r == s[|s| - |r|..];
      forall k | 0 <= k < |s| - |r| ensures IsSpace(s[k]) {
        if k > 0 { assert s[k] == t[k - 1]; }
      }
    }
  }

  /** TrimRight keeps the prefix that ends at the last character that is not white space. */
  lemma {:induction false} TrimRightShape(s: string)
    ensures var r := TrimRight(s);
      r == s[..|r|] && SpaceBetween(s, |r|, |s|) && (r == [] || !IsSpace(r[|r| - 1]))
    decreases |s|
  {
    if |s| > 0 && IsSpace(s[|s| - 1]) {
      var t := s[..|s| - 1];
      TrimRightShape(t);
      var r := TrimRight(t);
      assert r == s[..|r|];
      forall k | |r| <= k < |s| ensures IsSpace(s[k]) {
        if k < |s| - 1 { assert s[k] == t[k]; }
      }
    }
  }

  /** What TrimSpace returns neither starts nor ends with white space. */
  lemma TrimSpaceEnds(s: string)
    ensures var r := TrimSpace(s);
      r == [] || (!IsSpace(r[0]) && !IsSpace(r[|r| - 1]))
  {
    var l := TrimLeft(s);
    TrimLeftShape(s);
    TrimRightShape(l);
    var r := TrimRight(l);
    if r != [] {
      assert r[0] == l[0];
    }
  }

  lemma {:induction false} TrimLeftAt(s: string, i: nat)
    requires i <= |s| && SpaceBetween(s, 0, i)
    requires i == |s| || !IsSpace(s[i])
    ensures TrimLeft(s) == s[i..]
    decreases i
  {
    if i > 0 {
      var t := s[1..];
      assert forall k :: 0 <= k < i - 1 ==> t[k] == s[k + 1];
      TrimLeftAt(t, i - 1);
      assert t[i - 1..] == s[i..];
    }
  }

  lemma {:induction false} TrimRightAt(s: string, j: nat)
    requires j <= |s| && SpaceBetween(s, j, |s|)
    requires j == 0 || !IsSpace(s[j - 1])
    ensures TrimRight(s) == s[..j]
    decreases |s| - j
  {
    if j < |s| {
      var t := s[..|s| - 1];
      TrimRightAt(t, j);
      assert t[..j] == s[..j];
    }
  }

  lemma SpaceBetweenJoin(s: string, i: nat, j: nat, k: nat)
    requires i <= j <= k <= |s|
    requires SpaceBetween(s, i, j) && SpaceBetween(s, j, k)
    ensures SpaceBetween(s, i, k)
  {
  }

  lemma TrimAllSpace(s: string)
    requires SpaceBetween(s, 0, |s|)
    ensures TrimSpace(s) == []
  {
    TrimLeftAt(s, |s|);
  }

  lemma TrimSpaceIsInnerSlice(s: string, i: nat, j: nat)
    requires i < j <= |s|
    requires SpaceBetween(s, 0, i) && SpaceBetween(s, j, |s|)
    requires !IsSpace(s[i]) && !IsSpace(s[j - 1])
    ensures TrimSpace(s) == s[i..j]
  {
    var t := s[i..];
    var d: nat := j - i;
    TrimLeftAt(s, i);
    assert 0 < d <= |t|;
    assert SpaceBetween(t, d, |t|) by {
      forall k | d <= k < |t| ensures IsSpace(t[k]) {
        assert t[k] == s[i + k];
      }
    }
    assert !IsSpace(t[d - 1]) by {
      assert t[d - 1] == s[j - 1];
    }
    TrimRightAt(t, d);
    assert t[..d] == s[i..j];
  }

  /**
   * TrimSpace(s) is exactly the slice s[i..j] between a white-space prefix and a
   * white-space suffix when that slice neither starts nor ends with white space.
   */
  lemma TrimSpaceIsSlice(s: string, i: nat, j: nat)
    requires i <= j <= |s|
    requires SpaceBetween(s, 0, i) && SpaceBetween(s, j, |s|)
    requires i == j || (!IsSpace(s[i]) && !IsSpace(s[j - 1]))
    ensures TrimSpace(s) == s[i..j]
  {
    if i == j {
      SpaceBetweenJoin(s, 0, i, |s|);
      TrimAllSpace(s);
    } else {
      TrimSpaceIsInnerSlice(s, i, j);
    }
  }

  /** TrimSpace removes exactly a white-space prefix and a white-space suffix. */
  lemma TrimSpaceBounds(s: string) returns (i: nat, j: nat)
    ensures i <= j <= |s| && TrimSpace(s) == s[i..j]
    ensures SpaceBetween(s, 0, i) && SpaceBetween(s, j, |s|)
  {
    var l := TrimLeft(s);
    TrimLeftShape(s);
    i := |s| - |l|;
    var r := TrimRight(l);
    TrimRightShape(l);
    j := i + |r|;
    assert forall k :: |r| <= k < |l| ==> l[k] == s[i + k];
    assert s[i..j] == l[..|r|];
  }

  /** Trimming twice is trimming once. */
  lemma TrimSpaceIdempotent(s: string)
    ensures TrimSpace(TrimSpace(s)) == TrimSpace(s)
  {
    var t := TrimSpace(s);
    TrimSpaceEnds(s);
    TrimSpaceIsSlice(t, 0, |t|);
    assert t[0..|t|] == t;
  }

  // ---------------------------------------------------------------------------
  // strings.Split with a one-character separator, and its inverse strings.Join
  // ---------------------------------------------------------------------------

  /** strings.Split(s, sep): the pieces between the occurrences of sep. */
  function Split(s: string, sep: char): (parts: seq<string>)
    ensures |parts| >= 1
    ensures (|parts| >= 2) == (sep in s)
  {
    if |s| == 0 then [""]
    else
      var rest := Split(s[1..], sep);
      if s[0] == sep then [""] + rest else [[s[0]] + rest[0]] + rest[1..]
  }

  /** No piece of a split holds the separator. */
  lemma {:induction false} SplitPiecesClean(s: string, sep: char)
    ensures forall k :: 0 <= k < |Split(s, sep)| ==> sep !in Split(s, sep)[k]
  {
    if |s| > 0 {
      var rest := Split(s[1..], sep);
      SplitPiecesClean(s[1..], sep);
      var parts := Split(s, sep);
      if s[0] == sep {
        assert parts == [""] + rest;
        forall k | 0 <= k < |parts| ensures sep !in parts[k] {
          if k > 0 {
            assert parts[k] == rest[k - 1];
            assert sep !in rest[k - 1];
          } else {
            assert parts[k] == "";
          }
        }
      } else {
        assert parts == [[s[0]] + rest[0]] + rest[1..];
        forall k | 0 <= k < |parts| ensures sep !in parts[k] {
          if k > 0 {
            assert parts[k] == rest[k];
            assert sep !in rest[k];
          } else {
            assert parts[k] == [s[0]] + rest[0];
            assert sep !in rest[0];
          }
        }
      }
    }
  }

  /** strings.Join(parts, sep) */
  function Join(parts: seq<string>, sep: char): string
    requires |parts| >= 1
  {
    if |parts| == 1 then parts[0] else parts[0] + [sep] + Join(parts[1..], sep)
  }

  /** Joining the pieces of a split gives back the original text. */
  lemma {:induction false} JoinSplit(s: string, sep: char)
    ensures Join(Split(s, sep), sep) == s
  {
    if |s| > 0 {
      JoinSplit(s[1..], sep);
      assert s == [s[0]] + s[1..];
      if s[0] == sep {
        JoinSplitSep(s[1..], sep);
      } else {
        JoinSplitCons(s[0], s[1..], sep);
      }
    }
  }

  /** The inductive step of JoinSplit for a text that starts with the separator. */
  lemma JoinSplitSep(t: string, sep: char)
    requires Join(Split(t, sep), sep) == t
    ensures Join(Split([sep] + t, sep), sep) == [sep] + t
  {
    SplitSep(t, sep);
  }

  /** The inductive step of JoinSplit for a text that starts with another character. */
  lemma JoinSplitCons(c: char, t: string, sep: char)
    requires c != sep
    requires Join(Split(t, sep), sep) == t
    ensures Join(Split([c] + t, sep), sep) == [c] + t
  {
    SplitCons(c, t, sep);
    var rest := Split(t, sep);
    var parts := [[c] + rest[0]] + rest[1..];
    JoinHead(parts, sep);
  }

  /** A leading character other than the separator extends the first piece. */
  lemma SplitCons(c: char, s: string, sep: char)
    requires c != sep
    ensures Split([c] + s, sep) == [[c] + Split(s, sep)[0]] + Split(s, sep)[1..]
  {
  }

  /** A leading separator closes an empty first piece. */
  lemma SplitSep(s: string, sep: char)
    ensures Split([sep] + s, sep) == [""] + Split(s, sep)
  {
  }

  /** Joining pieces whose first one is not empty starts with that piece's first character. */
  lemma JoinHead(parts: seq<string>, sep: char)
    requires |parts| >= 1 && |parts[0]| > 0
    ensures Join(parts, sep) == [parts[0][0]] + Join([parts[0][1..]] + parts[1..], sep)
  {
  }

  /** The inductive step of SplitJoin when the first piece is not empty. */
  lemma SplitJoinHead(parts: seq<string>, sep: char)
    requires |parts| >= 1 && |parts[0]| > 0 && sep !in parts[0]
    requires Split(Join([parts[0][1..]] + parts[1..], sep), sep) == [parts[0][1..]] + parts[1..]
    ensures Split(Join(parts, sep), sep) == parts
  {
    var p := parts[0];
    var tail := [p[1..]] + parts[1..];
    JoinHead(parts, sep);
    assert p[0] != sep by {
      assert p[0] in p;
    }
    SplitCons(p[0], Join(tail, sep), sep);
    assert tail[0] == p[1..] && tail[1..] == parts[1..];
    assert [p[0]] + p[1..] == p;
    assert [p] + parts[1..] == parts;
  }

  /** The inductive step of SplitJoin when the first piece is empty. */
  lemma SplitJoinEmpty(parts: seq<string>, sep: char)
    requires |parts| > 1 && parts[0] == ""
    requires Split(Join(parts[1..], sep), sep) == parts[1..]
    ensures Split(Join(parts, sep), sep) == parts
  {
    SplitSep(Join(parts[1..], sep), sep);
  }

  /** Splitting a join of separator-free pieces gives back those pieces. */
  lemma {:induction false} SplitJoin(parts: seq<string>, sep: char)
    requires |parts| >= 1
    requires forall k :: 0 <= k < |parts| ==> sep !in parts[k]
    ensures Split(Join(parts, sep), sep) == parts
    decreases |parts|, |parts[0]|
  {
    var p := parts[0];
    if |p| > 0 {
      var tail := [p[1..]] + parts[1..];
      forall k | 0 <= k < |tail| ensures sep !in tail[k] {
        if k > 0 {
          assert tail[k] == parts[k];
        } else {
          assert p == [p[0]] + p[1..];
        }
      }
      SplitJoin(tail, sep);
      SplitJoinHead(parts, sep);
    } else if |parts| > 1 {
      SplitJoin(parts[1..], sep);
      SplitJoinEmpty(parts, sep);
    }
  }

  /** When sep occurs in s, the second piece of the split is the text between its first and second occurrence. */
  lemma SplitSecond(s: string, sep: char) returns (first: string, rest: string)
    requires sep in s
    ensures s == first + [sep] + Split(s, sep)[1] + rest
    ensures sep !in first && sep !in Split(s, sep)[1]
    ensures rest == [] || rest[0] == sep
  {
    var parts := Split(s, sep);
    SplitPiecesClean(s, sep);
    JoinSplit(s, sep);
    first := parts[0];
    var line := parts[1];
    if |parts| == 2 {
      rest := [];
      assert Join(parts[1..], sep) == line + rest;
    } else {
      rest := [sep] + Join(parts[2..], sep);
      assert Join(parts[1..], sep) == line + rest by {
        assert parts[1..][1..] == parts[2..];
      }
    }
    assert s == first + [sep] + (line + rest);
  }

  // ---------------------------------------------------------------------------
  // strconv.ParseInt(s, 10, 64) and strconv.FormatInt(n, 10)
  // ---------------------------------------------------------------------------

  const MinInt64: int := -0x8000_0000_0000_0000
  const MaxInt64: int := 0x7FFF_FFFF_FFFF_FFFF

  predicate IsDigit(c: char) {
    '0' <= c <= '9'
  }

  predicate AllDigits(s: string) {
    forall k :: 0 <= k < |s| ==> IsDigit(s[k])
  }

  function DigitValue(c: char): nat
    requires IsDigit(c)
  {
    c as int - '0' as int
  }

  function DigitChar(d: nat): (c: char)
    requires d < 10
    ensures IsDigit(c) && DigitValue(c) == d
  {
    ('0' as int + d) as char
  }

  /** The value of a string of decimal digits, most significant first. */
  function DecimalValue(s: string): nat
    requires AllDigits(s)
  {
    if |s| == 0 then 0 else 10 * DecimalValue(s[..|s| - 1]) + DigitValue(s[|s| - 1])
  }

  /**
   * strconv.ParseInt(s, 10, 64): an optional sign and at least one ASCII digit
   * (base 10 admits no underscores and no prefix), with a value that fits in an
   * int64; anything else is an error.
   */
  function ParseInt64(s: string): (r: Option<int>)
    ensures r.Some? ==> MinInt64 <= r.value <= MaxInt64
  {
    if |s| == 0 then None
    else
      var neg := s[0] == '-';
      var digits := if s[0] == '+' || s[0] == '-' then s[1..] else s;
      if |digits| == 0 || !AllDigits(digits) then None
      else
        var magnitude: int := DecimalValue(digits);
        var v := if neg then -magnitude else magnitude;
        if MinInt64 <= v <= MaxInt64 then Some(v) else None
  }

  /** The decimal digits of n, most significant first. */
  function FormatNat(n: nat): string {
    if n < 10 then [DigitChar(n)] else FormatNat(n / 10) + [DigitChar(n % 10)]
  }

  /** FormatNat prints at least one digit, never a leading zero, and denotes n. */
  lemma {:induction false} FormatNatDigits(n: nat)
    ensures var s := FormatNat(n);
      |s| >= 1 && AllDigits(s) && DecimalValue(s) == n && (s[0] == '0' ==> s == "0")
  {
    if n >= 10 {
      var s := FormatNat(n);
      FormatNatDigits(n / 10);
      assert s[..|s| - 1] == FormatNat(n / 10);
    }
  }

  /** strconv.FormatInt(n, 10) */
  function FormatInt(n: int): (s: string)
  {
    if n < 0 then "-" + FormatNat(-n) else FormatNat(n)
  }

  /** FormatInt yields an optional minus sign and digits, never a leading zero. */
  lemma FormatIntShape(n: int)
    ensures |FormatInt(n)| >= 1
    ensures n >= 0 ==> AllDigits(FormatInt(n)) && (FormatInt(n)[0] == '0' ==> n == 0)
    ensures n < 0 ==> FormatInt(n)[0] == '-' && AllDigits(FormatInt(n)[1..])
  {
    if n < 0 {
      var d := FormatNat(-n);
      FormatNatDigits(-n);
      assert FormatInt(n) == "-" + d;
      assert ("-" + d)[1..] == d;
    } else {
      var d := FormatNat(n);
      FormatNatDigits(n);
      assert FormatInt(n) == d;
      if d[0] == '0' {
        assert d == "0" && DecimalValue("0") == 0;
      }
    }
  }

  /** Parsing what FormatInt prints gives the number back. */
  lemma ParseFormat(n: int)
    requires MinInt64 <= n <= MaxInt64
    ensures ParseInt64(FormatInt(n)) == Some(n)
  {
    var s := FormatInt(n);
    if n < 0 {
      FormatNatDigits(-n);
      assert s[1..] == FormatNat(-n);
    } else {
      FormatNatDigits(n);
    }
  }

  /** Distinct numbers print differently. */
  lemma FormatIntInjective(a: int, b: int)
    requires FormatInt(a) == FormatInt(b)
    ensures a == b
  {
    FormatIntShape(a);
    FormatIntShape(b);
    if a < 0 {
      FormatNatDigits(-a);
      FormatNatDigits(-b);
      assert FormatInt(a)[1..] == FormatNat(-a);
      assert FormatInt(b)[1..] == FormatNat(-b);
    } else {
      FormatNatDigits(a);
      FormatNatDigits(b);
    }
  }

  /** FormatInt's output carries no white space, so trimming leaves it as it is. */
  lemma TrimFormat(n: int)
    ensures TrimSpace(FormatInt(n)) == FormatInt(n)
  {
    var s := FormatInt(n);
    FormatIntShape(n);
    assert !IsSpace(s[0]);
    if n < 0 {
      assert s[|s| - 1] == s[1..][|s| - 2];
    }
    assert !IsSpace(s[|s| - 1]);
    TrimSpaceIsSlice(s, 0, |s|);
    assert s[0..|s|] == s;
  }

  // ---------------------------------------------------------------------------
  // strings.ReplaceAll with one-character pattern and replacement
  // ---------------------------------------------------------------------------

  /** strings.ReplaceAll(s, [from], [to]) with a one-character pattern and replacement. */
  function ReplaceAll(s: string, from: char, to: char): (r: string)
    ensures |r| == |s|
  {
    if |s| == 0 then []
    else (if s[0] == from then [to] else [s[0]]) + ReplaceAll(s[1..], from, to)
  }

  /** Every `from` becomes `to`, and every other character stays where it was. */
  lemma {:induction false} ReplaceAllAt(s: string, from: char, to: char, k: nat)
    requires k < |s|
    ensures ReplaceAll(s, from, to)[k] == if s[k] == from then to else s[k]
    decreases |s|
  {
    if k > 0 {
      ReplaceAllAt(s[1..], from, to, k - 1);
    }
  }
}
