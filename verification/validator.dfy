/**
 The Safe Harbor validator: the column list starts as every column, the header scan
 flags columns by title and takes them off the list, and the content scan looks for
 recognisable values in the columns that remain. The result is every header warning
 followed by every content warning.

 The engine is stated for an arbitrary taxonomy `attrs`; the validator itself always
 passes the thirteen-entry `Attributes()`.
 */
module SafeHarbor {
  import opened Wrappers
  import opened Hipaa
  import opened ColumnList
  import opened HeaderScan
  import opened RowScan

  /** The list of all column indices of a handle, built one index at a time. */
  method GetColumns(h: Handle) returns (columns: seq<int>)
    ensures |columns| == |h.header|
    ensures forall i :: 0 <= i < |columns| ==> columns[i] == i
    ensures StrictlyAscending(columns)
    ensures columns == Range(|h.header|)
  {
    columns := [];
    for i := 0 to |h.header|
      invariant |columns| == i
      invariant forall k :: 0 <= k < i ==> columns[k] == k
    {
      columns := columns + [i];
    }
  }

  /** The columns whose content is scanned: those whose title no attribute claims. */
  function Unflagged(m: Matcher, attrs: seq<Attribute>, h: Handle): seq<int>
  {
    Except(Range(|h.header|), HeaderMatchedColumns(m, attrs, h.header, |h.header|))
  }

  /** The content warnings of the validator when data rows below `bound` are examined. */
  function ContentWarnings(m: Matcher, attrs: seq<Attribute>, h: Handle, bound: int): seq<Warning>
  {
    ScanRows(m, attrs, h.rows, 1, bound, Unflagged(m, attrs, h)).0
  }

  /** Header warnings first, then the content warnings of rows below `bound`. */
  function Scan(m: Matcher, attrs: seq<Attribute>, h: Handle, bound: int): seq<Warning>
  {
    HeaderWarnings(m, attrs, h.header, |h.header|) + ContentWarnings(m, attrs, h, bound)
  }

  /** What the validator returns as written: every data row below `IntMax` is examined. */
  function Report(m: Matcher, h: Handle): seq<Warning>
  {
    Scan(m, Attributes(), h, IntMax)
  }

  /** `w` is a header warning: row 0, a column whose title an attribute of that category accepts. */
  predicate HeaderWarned(m: Matcher, attrs: seq<Attribute>, h: Handle, w: Warning)
  {
    w.row == 0 && 0 <= w.column < |h.header| && w.value == h.header[w.column]
    && Claims(m, attrs, h.header[w.column], w.identifier)
  }

  /**
   `w` is a content warning: about a column whose title no attribute claims, at the
   first examined data row whose cell some pattern accepts, naming the first accepting
   attribute's category and carrying the cell.
   */
  predicate ContentWarned(m: Matcher, attrs: seq<Attribute>, h: Handle, bound: int, w: Warning)
  {
    0 <= w.column < |h.header| && !HeaderMatched(m, attrs, h.header[w.column])
    && FirstHitRow(m, attrs, h.rows, w.column, 1, bound) == Some(w.row)
    && w == HitWarning(m, attrs, h.rows[w.row], w.row, w.column)
  }

  /** The header-warning order, then row by row, each row from the highest column down. */
  predicate ReportOrder(ws: seq<Warning>)
  {
    forall i, j :: 0 <= i < j < |ws| ==>
      ws[i].row < ws[j].row
      || (ws[i].row == ws[j].row == 0 && ws[i].column <= ws[j].column)
      || (ws[i].row == ws[j].row && ws[i].row > 0 && ws[i].column > ws[j].column)
  }

  /** The scanned columns are exactly those with an unclaimed title, in ascending order. */
  lemma UnflaggedMembers(m: Matcher, attrs: seq<Attribute>, h: Handle)
    ensures forall c :: c in Unflagged(m, attrs, h) <==> 0 <= c < |h.header| && !HeaderMatched(m, attrs, h.header[c])
    ensures StrictlyAscending(Unflagged(m, attrs, h))
    ensures |Unflagged(m, attrs, h)| <= |h.header|
  {
    var n := |h.header|;
    forall c | 0 <= c < n
      ensures c in Range(n)
    {
      assert Range(n)[c] == c;
    }
    HeaderMatchedColumnsMembers(m, attrs, h.header, n);
    ExceptMembers(Range(n), HeaderMatchedColumns(m, attrs, h.header, n));
    ExceptAscending(Range(n), HeaderMatchedColumns(m, attrs, h.header, n));
  }

  /** On a well-formed handle every scanned column has a cell in every data row. */
  lemma UnflaggedFits(m: Matcher, attrs: seq<Attribute>, h: Handle)
    requires WellFormed(h)
    ensures Fits(h.rows, Unflagged(m, attrs, h))
  {
    UnflaggedMembers(m, attrs, h);
  }

  /** Content warnings are exactly the `ContentWarned` ones. */
  lemma ContentWarningsMembers(m: Matcher, attrs: seq<Attribute>, h: Handle, bound: int)
    ensures forall w :: w in ContentWarnings(m, attrs, h, bound) <==> ContentWarned(m, attrs, h, bound, w)
  {
    UnflaggedMembers(m, attrs, h);
    ScanRowsWarnings(m, attrs, h.rows, 1, bound, Unflagged(m, attrs, h));
  }

  /** Content warnings come from existing data rows, from row 1 up to below the bound. */
  lemma ContentWarningsRows(m: Matcher, attrs: seq<Attribute>, h: Handle, bound: int)
    ensures forall w :: w in ContentWarnings(m, attrs, h, bound) ==> 1 <= w.row < bound && w.row < |h.rows|
  {
    ContentWarningsMembers(m, attrs, h, bound);
  }

  /**
   Content warnings come row by row in decreasing column order within a row, name each
   column at most once, and are no more than the columns left after the header scan.
   */
  lemma ContentWarningsShape(m: Matcher, attrs: seq<Attribute>, h: Handle, bound: int)
    ensures InScanOrder(ContentWarnings(m, attrs, h, bound))
    ensures DistinctColumns(ContentWarnings(m, attrs, h, bound))
    ensures |ContentWarnings(m, attrs, h, bound)| <= |Unflagged(m, attrs, h)| <= |h.header|
  {
    UnflaggedMembers(m, attrs, h);
    ScanRowsShape(m, attrs, h.rows, 1, bound, Unflagged(m, attrs, h));
  }

  /**
   Every warning of the validator is a header warning or a content warning, and every
   header and content warning is reported. In particular a column whose title was
   claimed never receives a content warning.
   */
  lemma ScanMembers(m: Matcher, attrs: seq<Attribute>, h: Handle, bound: int)
    ensures forall w :: w in Scan(m, attrs, h, bound) <==>
              HeaderWarned(m, attrs, h, w) || ContentWarned(m, attrs, h, bound, w)
  {
    ContentWarningsMembers(m, attrs, h, bound);
    HeaderWarningsMembers(m, attrs, h.header, |h.header|);
  }

  /** Row-0 warnings sorted by column, followed by content warnings in scan order. */
  lemma OrderConcat(a: seq<Warning>, b: seq<Warning>)
    requires forall i :: 0 <= i < |a| ==> a[i].row == 0
    requires forall i, j :: 0 <= i < j < |a| ==> a[i].column <= a[j].column
    requires forall i :: 0 <= i < |b| ==> b[i].row >= 1
    requires InScanOrder(b)
    ensures ReportOrder(a + b)
  {
    var ab := a + b;
    forall i, j | 0 <= i < j < |ab|
      ensures ab[i].row < ab[j].row
              || (ab[i].row == ab[j].row == 0 && ab[i].column <= ab[j].column)
              || (ab[i].row == ab[j].row && ab[i].row > 0 && ab[i].column > ab[j].column)
    {
      if j < |a| {
        assert ab[i] == a[i] && ab[j] == a[j];
      } else if i < |a| {
        assert ab[i] == a[i] && ab[j] == b[j - |a|];
      } else {
        assert ab[i] == b[i - |a|] && ab[j] == b[j - |a|];
      }
    }
  }

  /** The validator's warnings are in header-then-content order. */
  lemma ScanOrdered(m: Matcher, attrs: seq<Attribute>, h: Handle, bound: int)
    ensures ReportOrder(Scan(m, attrs, h, bound))
  {
    var a := HeaderWarnings(m, attrs, h.header, |h.header|);
    var b := ContentWarnings(m, attrs, h, bound);
    ContentWarningsRows(m, attrs, h, bound);
    ContentWarningsShape(m, attrs, h, bound);
    HeaderWarningsSorted(m, attrs, h.header, |h.header|);
    HeaderWarningsShape(m, attrs, h.header, |h.header|);
    forall i | 0 <= i < |a|
      ensures a[i].row == 0
    {
      assert a[i] in a;
    }
    forall i | 0 <= i < |b|
      ensures b[i].row >= 1
    {
      assert b[i] in b;
    }
    OrderConcat(a, b);
  }

  /**
   The validator as written. The `limit` argument selects between two branches that
   both run the content scan without a limit, so the result does not depend on it.
   */
  method Validate(m: Matcher, h: Handle, limit: int) returns (warnings: seq<Warning>)
    requires WellFormed(h)
    ensures warnings == Report(m, h)
    ensures forall w :: w in warnings <==>
              HeaderWarned(m, Attributes(), h, w) || ContentWarned(m, Attributes(), h, IntMax, w)
    ensures ReportOrder(warnings)
  {
    var attrs := Attributes();
    var columns := GetColumns(h);
    var headerWarnings, rowWarnings;
    headerWarnings, columns := CheckColumnTitles(m, attrs, h.header, columns);
    UnflaggedFits(m, attrs, h);
    if limit == -1 {
      rowWarnings, columns := CheckRowsAll(m, attrs, h.rows, columns);
    } else {
      rowWarnings, columns := CheckRowsAll(m, attrs, h.rows, columns);
    }
    warnings := headerWarnings + rowWarnings;
    ScanMembers(m, attrs, h, IntMax);
    ScanOrdered(m, attrs, h, IntMax);
  }

  /** The row bound a caller's limit stands for: -1 means no limit. */
  function RowBound(limit: int): int
  {
    if limit == -1 then IntMax else limit
  }

  /** What the validator evidently means to return: content warnings only from rows below the limit. */
  function ReportLimited(m: Matcher, h: Handle, limit: int): seq<Warning>
  {
    Scan(m, Attributes(), h, RowBound(limit))
  }

  /**
   The validator with its limit honoured: `-1` runs the unbounded content scan, any
   other value bounds the data rows examined.
   */
  method ValidateLimited(m: Matcher, h: Handle, limit: int) returns (warnings: seq<Warning>)
    requires WellFormed(h)
    ensures warnings == ReportLimited(m, h, limit)
    ensures forall w :: w in warnings ==> w.row == 0 || (1 <= w.row && (limit != -1 ==> w.row < limit))
    ensures limit != -1 && limit <= 1 ==> warnings == HeaderWarnings(m, Attributes(), h.header, |h.header|)
    ensures limit == -1 ==> warnings == Report(m, h)
  {
    var attrs := Attributes();
    var columns := GetColumns(h);
    var headerWarnings, rowWarnings;
    headerWarnings, columns := CheckColumnTitles(m, attrs, h.header, columns);
    UnflaggedFits(m, attrs, h);
    if limit == -1 {
      rowWarnings, columns := CheckRowsAll(m, attrs, h.rows, columns);
    } else {
      rowWarnings, columns := CheckRows(m, attrs, h.rows, columns, limit);
    }
    warnings := headerWarnings + rowWarnings;
    ContentWarningsRows(m, attrs, h, RowBound(limit));
    HeaderWarningsShape(m, attrs, h.header, |h.header|);
    if limit != -1 && limit <= 1 {
      assert rowWarnings == [];
    }
  }

  /** The validator without a limit: the as-written validator with the sentinel -1. */
  method ValidateAll(m: Matcher, h: Handle) returns (warnings: seq<Warning>)
    requires WellFormed(h)
    ensures warnings == Report(m, h)
    ensures forall w :: w in warnings <==>
              HeaderWarned(m, Attributes(), h, w) || ContentWarned(m, Attributes(), h, IntMax, w)
    ensures ReportOrder(warnings)
  {
    warnings := Validate(m, h, -1);
  }

  /** A matcher that claims no title and recognises one social security number. */
  function SsnOnly(): Matcher
  {
    Matcher((a: Attribute, s: string) => false,
            (a: Attribute, s: string) => a.identifier == SocialSecurityNumber && s == "123-45-6789")
  }

  /** The handle of the counterexample: one column titled "col1" and one data row. */
  function SsnHandle(): Handle
  {
    Handle(["col1"], [["col1"], ["123-45-6789"]])
  }

  /**
   A counterexample to the limit as written: with limit 0, which should admit header
   warnings only, the validator still reports the social security number of data row 1,
   so its report differs from the report that honours the limit.
   */
  lemma LimitIgnored()
    ensures Warning(0, 1, SocialSecurityNumber, "123-45-6789") in Report(SsnOnly(), SsnHandle())
    ensures Report(SsnOnly(), SsnHandle()) != ReportLimited(SsnOnly(), SsnHandle(), 0)
  {
    var m := SsnOnly();
    var h := SsnHandle();
    SsnCellHits();
    assert !HeaderMatched(m, Attributes(), h.header[0]);
    FirstDataRowReported(m, Attributes(), h, 0, IntMax);
    LimitHonoured();
  }

  /**
   A cell of data row 1 that some pattern accepts, in a column whose title no attribute
   claims, is reported whenever the row bound admits data row 1.
   */
  lemma FirstDataRowReported(m: Matcher, attrs: seq<Attribute>, h: Handle, c: int, bound: int)
    requires 0 <= c < |h.header| && 1 < |h.rows| && 1 < bound
    requires !HeaderMatched(m, attrs, h.header[c])
    requires Hits(m, attrs, h.rows[1], c)
    ensures HitWarning(m, attrs, h.rows[1], 1, c) in Scan(m, attrs, h, bound)
  {
    var w := HitWarning(m, attrs, h.rows[1], 1, c);
    ContentWarningsMembers(m, attrs, h, bound);
    assert FirstHitRow(m, attrs, h.rows, c, 1, bound) == Some(1);
    assert ContentWarned(m, attrs, h, bound, w);
  }

  /** The taxonomy's social security number entry is the one that recognises the example cell. */
  lemma SsnCellHits()
    ensures Hits(SsnOnly(), Attributes(), ["123-45-6789"], 0)
    ensures HitWarning(SsnOnly(), Attributes(), ["123-45-6789"], 1, 0) == Warning(0, 1, SocialSecurityNumber, "123-45-6789")
  {
    var attrs := Attributes();
    assert attrs[6].identifier == SocialSecurityNumber;
    SsnAttributed(attrs, 6);
  }

  /**
   Under the example matcher, a taxonomy with a social security number entry attributes
   the example cell to that category.
   */
  lemma SsnAttributed(attrs: seq<Attribute>, k: int)
    requires 0 <= k < |attrs| && attrs[k].identifier == SocialSecurityNumber
    ensures Hits(SsnOnly(), attrs, ["123-45-6789"], 0)
    ensures HitWarning(SsnOnly(), attrs, ["123-45-6789"], 1, 0) == Warning(0, 1, SocialSecurityNumber, "123-45-6789")
  {
    var cell := "123-45-6789";
    assert SsnOnly().matchesPattern(attrs[k], cell);
    assert ["123-45-6789"][0] == cell;
  }

  /** On the same input, the limited validator with limit 0 reports nothing. */
  lemma LimitHonoured()
    ensures ReportLimited(SsnOnly(), SsnHandle(), 0) == []
  {
    var m := SsnOnly();
    var h := SsnHandle();
    assert !HeaderMatched(m, Attributes(), h.header[0]);
    QuietHeaders(m, Attributes(), h.header, |h.header|);
    assert ContentWarnings(m, Attributes(), h, 0) == [];
  }
}
