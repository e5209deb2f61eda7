/**
 The content scan. Data rows are visited in order; in each row the columns still on
 the list are visited from the last position to the first, and a column whose cell
 is accepted by some attribute's pattern yields one warning (the first accepting
 attribute in taxonomy order) and is removed from the list on the spot, so it is
 never looked at again.
 */
module RowScan {
  import opened Wrappers
  import opened Hipaa
  import opened ColumnList

  /** Every column of `cols` has a cell in `row`. */
  predicate InRow(row: seq<string>, cols: seq<int>)
  {
    forall c :: c in cols ==> 0 <= c < |row|
  }

  /** Every data row (position 1 onward) has a cell for every column of `cols`. */
  predicate Fits(rows: seq<seq<string>>, cols: seq<int>)
  {
    forall q :: 1 <= q < |rows| ==> InRow(rows[q], cols)
  }

  /** Column `c` has a cell in `row` and some attribute's pattern accepts it. */
  predicate Hits(m: Matcher, attrs: seq<Attribute>, row: seq<string>, c: int)
  {
    0 <= c < |row| && FirstPatternMatch(m, attrs, row[c]).Some?
  }

  /** The warning a cell raises: the category of the first accepting attribute, with the cell as evidence. */
  function HitWarning(m: Matcher, attrs: seq<Attribute>, row: seq<string>, r: int, c: int): (w: Warning)
    requires Hits(m, attrs, row, c)
    ensures w.column == c && w.row == r && w.value == row[c]
  {
    Warning(c, r, attrs[FirstPatternMatch(m, attrs, row[c]).value].identifier, row[c])
  }

  /** The warnings of data row `r` over the columns `cols`, last column first. */
  function DescHits(m: Matcher, attrs: seq<Attribute>, row: seq<string>, r: int, cols: seq<int>): seq<Warning>
  {
    if cols == [] then []
    else
      DescHits(m, attrs, row, r, cols[1..])
      + (if Hits(m, attrs, row, cols[0]) then [HitWarning(m, attrs, row, r, cols[0])] else [])
  }

  /** The columns of `cols` that survive row `row`, in their order. */
  function Kept(m: Matcher, attrs: seq<Attribute>, row: seq<string>, cols: seq<int>): seq<int>
  {
    if cols == [] then []
    else (if Hits(m, attrs, row, cols[0]) then [] else [cols[0]]) + Kept(m, attrs, row, cols[1..])
  }

  /** Every member of a list is its head or a member of its tail. */
  lemma HeadOrTail(cols: seq<int>)
    requires cols != []
    ensures cols[0] in cols
    ensures forall c :: c in cols <==> c == cols[0] || c in cols[1..]
  {
    SuffixMembers(cols, 1);
    forall c | c in cols
      ensures c == cols[0] || c in cols[1..]
    {
      var k :| 0 <= k < |cols| && cols[k] == c;
      if k > 0 {
        assert cols[1..][k - 1] == c;
      }
    }
  }

  /** A row's warnings are exactly the hit warnings of the columns whose cell matches. */
  lemma {:induction false} DescHitsMembers(m: Matcher, attrs: seq<Attribute>, row: seq<string>, r: int, cols: seq<int>)
    ensures forall w :: w in DescHits(m, attrs, row, r, cols) ==>
              w.column in cols && Hits(m, attrs, row, w.column) && w == HitWarning(m, attrs, row, r, w.column)
    ensures forall c :: c in cols && Hits(m, attrs, row, c) ==> HitWarning(m, attrs, row, r, c) in DescHits(m, attrs, row, r, cols)
  {
    if cols != [] {
      HeadOrTail(cols);
      DescHitsMembers(m, attrs, row, r, cols[1..]);
    }
  }

  /** The survivors of a row are exactly the columns whose cell no pattern accepts. */
  lemma {:induction false} KeptMembers(m: Matcher, attrs: seq<Attribute>, row: seq<string>, cols: seq<int>)
    ensures forall c :: c in Kept(m, attrs, row, cols) <==> c in cols && !Hits(m, attrs, row, c)
  {
    if cols != [] {
      HeadOrTail(cols);
      KeptMembers(m, attrs, row, cols[1..]);
    }
  }

  /** One warning is among a row's warnings exactly when it is the hit warning of a listed column. */
  lemma DescHitsAt(m: Matcher, attrs: seq<Attribute>, row: seq<string>, r: int, cols: seq<int>, w: Warning)
    ensures w in DescHits(m, attrs, row, r, cols) <==>
              w.column in cols && Hits(m, attrs, row, w.column) && w == HitWarning(m, attrs, row, r, w.column)
  {
    DescHitsMembers(m, attrs, row, r, cols);
  }

  /** One column survives a row exactly when it is listed and its cell is not accepted. */
  lemma KeptAt(m: Matcher, attrs: seq<Attribute>, row: seq<string>, cols: seq<int>, c: int)
    ensures c in Kept(m, attrs, row, cols) <==> c in cols && !Hits(m, attrs, row, c)
  {
    KeptMembers(m, attrs, row, cols);
  }

  /** Every member of an ascending list's tail lies above its head. */
  lemma TailAbove(cols: seq<int>)
    requires cols != [] && StrictlyAscending(cols)
    ensures StrictlyAscending(cols[1..])
    ensures forall y :: y in cols[1..] ==> cols[0] < y
  {
    var tail := cols[1..];
    forall y | y in tail
      ensures cols[0] < y
    {
      var k :| 0 <= k < |tail| && tail[k] == y;
      assert cols[k + 1] == y;
    }
  }

  /** Over an ascending column list, a row's warnings come in decreasing column order. */
  lemma {:induction false} RowDescending(m: Matcher, attrs: seq<Attribute>, row: seq<string>, r: int, cols: seq<int>)
    requires StrictlyAscending(cols)
    ensures forall i, j :: 0 <= i < j < |DescHits(m, attrs, row, r, cols)| ==>
      DescHits(m, attrs, row, r, cols)[i].column > DescHits(m, attrs, row, r, cols)[j].column
  {
    if cols != [] {
      var tail := cols[1..];
      TailAbove(cols);
      RowDescending(m, attrs, row, r, tail);
      DescHitsMembers(m, attrs, row, r, tail);
      var a := DescHits(m, attrs, row, r, tail);
      var b := if Hits(m, attrs, row, cols[0]) then [HitWarning(m, attrs, row, r, cols[0])] else [];
      var ab: seq<Warning> := a + b;
      assert DescHits(m, attrs, row, r, cols) == ab;
      forall i, j | 0 <= i < j < |ab|
        ensures ab[i].column > ab[j].column
      {
        assert ab[i] == a[i] && a[i] in a;
        if j < |a| {
          assert ab[j] == a[j];
        } else {
          assert ab[j] == b[0];
        }
      }
    }
  }

  /** The survivors of a row keep the ascending order of the list. */
  lemma {:induction false} KeptAscending(m: Matcher, attrs: seq<Attribute>, row: seq<string>, cols: seq<int>)
    requires StrictlyAscending(cols)
    ensures StrictlyAscending(Kept(m, attrs, row, cols))
  {
    if cols != [] {
      var tail := cols[1..];
      TailAbove(cols);
      KeptAscending(m, attrs, row, tail);
      KeptMembers(m, attrs, row, tail);
      if !Hits(m, attrs, row, cols[0]) {
        ConsAscending(cols[0], Kept(m, attrs, row, tail));
      }
    }
  }

  /** Each listed column either raises a warning in the row or survives it. */
  lemma {:induction false} RowCount(m: Matcher, attrs: seq<Attribute>, row: seq<string>, r: int, cols: seq<int>)
    ensures |DescHits(m, attrs, row, r, cols)| + |Kept(m, attrs, row, cols)| == |cols|
  {
    if cols != [] {
      RowCount(m, attrs, row, r, cols[1..]);
    }
  }

  /**
   Within a row, warnings come in decreasing column order, the survivors stay in
   ascending order, and warnings plus survivors account for every column.
   */
  lemma RowShape(m: Matcher, attrs: seq<Attribute>, row: seq<string>, r: int, cols: seq<int>)
    requires StrictlyAscending(cols)
    ensures forall i, j :: 0 <= i < j < |DescHits(m, attrs, row, r, cols)| ==>
      DescHits(m, attrs, row, r, cols)[i].column > DescHits(m, attrs, row, r, cols)[j].column
    ensures StrictlyAscending(Kept(m, attrs, row, cols))
    ensures |DescHits(m, attrs, row, r, cols)| + |Kept(m, attrs, row, cols)| == |cols|
  {
    RowDescending(m, attrs, row, r, cols);
    KeptAscending(m, attrs, row, cols);
    RowCount(m, attrs, row, r, cols);
  }

  /**
   The pattern loop over the taxonomy for one cell: the index of the first attribute
   whose pattern accepts it, if any.
   */
  method MatchPattern(m: Matcher, attrs: seq<Attribute>, cell: string) returns (found: Option<nat>)
    ensures found.Some? ==> found.value < |attrs| && m.matchesPattern(attrs[found.value], cell)
    ensures found.Some? ==> forall j :: 0 <= j < found.value ==> !m.matchesPattern(attrs[j], cell)
    ensures found.None? ==> forall j :: 0 <= j < |attrs| ==> !m.matchesPattern(attrs[j], cell)
    ensures found == FirstPatternMatch(m, attrs, cell)
  {
    found := None;
    var k := 0;
    while k < |attrs|
      invariant 0 <= k <= |attrs|
      invariant found == None
      invariant forall j :: 0 <= j < k ==> !m.matchesPattern(attrs[j], cell)
    {
      if m.matchesPattern(attrs[k], cell) {
        found := Some(k);
        break;
      }
      k := k + 1;
    }
  }

  /** One step of the descending scan of a row, at position `j`. */
  lemma ScanRowStep(m: Matcher, attrs: seq<Attribute>, row: seq<string>, r: int, cols: seq<int>,
                    j: int, columns: seq<int>, warnings: seq<Warning>)
    requires InRow(row, cols) && 0 <= j < |cols|
    requires columns == cols[..j + 1] + Kept(m, attrs, row, cols[j + 1..])
    requires warnings == DescHits(m, attrs, row, r, cols[j + 1..])
    ensures j < |columns| && columns[j] == cols[j] && 0 <= cols[j] < |row|
    ensures Hits(m, attrs, row, cols[j]) ==>
              RemoveAt(columns, j) == cols[..j] + Kept(m, attrs, row, cols[j..])
              && warnings + [HitWarning(m, attrs, row, r, cols[j])] == DescHits(m, attrs, row, r, cols[j..])
    ensures !Hits(m, attrs, row, cols[j]) ==>
              columns == cols[..j] + Kept(m, attrs, row, cols[j..])
              && warnings == DescHits(m, attrs, row, r, cols[j..])
  {
    assert cols[j] in cols;
    assert cols[j..][0] == cols[j];
    assert cols[j..][1..] == cols[j + 1..];
    var rest := Kept(m, attrs, row, cols[j + 1..]);
    if Hits(m, attrs, row, cols[j]) {
      assert (cols[..j + 1] + rest)[..j] == cols[..j];
      assert (cols[..j + 1] + rest)[j + 1..] == rest;
    } else {
      assert cols[..j + 1] == cols[..j] + [cols[j]];
    }
  }

  /**
   Visits position `j` of the column list during the descending scan of a row: the
   column there is reported and removed at that position when its cell matches.
   */
  method VisitColumn(m: Matcher, attrs: seq<Attribute>, row: seq<string>, rowIndex: int, j: int,
                     columns: seq<int>, warnings: seq<Warning>, ghost cols: seq<int>)
    returns (columns': seq<int>, warnings': seq<Warning>)
    requires InRow(row, cols) && 0 <= j < |cols|
    requires columns == cols[..j + 1] + Kept(m, attrs, row, cols[j + 1..])
    requires warnings == DescHits(m, attrs, row, rowIndex, cols[j + 1..])
    ensures columns' == cols[..j] + Kept(m, attrs, row, cols[j..])
    ensures warnings' == DescHits(m, attrs, row, rowIndex, cols[j..])
  {
    ScanRowStep(m, attrs, row, rowIndex, cols, j, columns, warnings);
    columns', warnings' := columns, warnings;
    var index := columns[j];
    var found := MatchPattern(m, attrs, row[index]);
    if found.Some? {
      warnings' := warnings + [Warning(index, rowIndex, attrs[found.value].identifier, row[index])];
      columns' := RemoveAt(columns, j);
    }
  }

  /**
   One row of the content scan: positions of `columnsToCheck` are visited from the
   last to the first, and a column whose cell matches is reported and removed at its
   position. Removing at the current position only shifts positions already visited,
   so every column on the list at the start of the row is visited exactly once.
   */
  method ScanRow(m: Matcher, attrs: seq<Attribute>, row: seq<string>, rowIndex: int, columnsToCheck: seq<int>)
    returns (warnings: seq<Warning>, columns: seq<int>)
    requires InRow(row, columnsToCheck)
    ensures warnings == DescHits(m, attrs, row, rowIndex, columnsToCheck)
    ensures columns == Kept(m, attrs, row, columnsToCheck)
  {
    ghost var cols := columnsToCheck;
    warnings := [];
    columns := columnsToCheck;
    var columnIndex := |columns| - 1;
    ScanRowBounds(m, attrs, row, rowIndex, cols);
    while columnIndex >= 0
      invariant -1 <= columnIndex < |cols|
      invariant columns == cols[..columnIndex + 1] + Kept(m, attrs, row, cols[columnIndex + 1..])
      invariant warnings == DescHits(m, attrs, row, rowIndex, cols[columnIndex + 1..])
      decreases columnIndex
    {
      columns, warnings := VisitColumn(m, attrs, row, rowIndex, columnIndex, columns, warnings, cols);
      columnIndex := columnIndex - 1;
    }
  }

  /** The descending scan of a row starts with nothing visited and ends with everything visited. */
  lemma ScanRowBounds(m: Matcher, attrs: seq<Attribute>, row: seq<string>, r: int, cols: seq<int>)
    ensures cols == cols[..|cols|] + Kept(m, attrs, row, cols[|cols|..])
    ensures DescHits(m, attrs, row, r, cols[|cols|..]) == []
    ensures cols[..0] + Kept(m, attrs, row, cols[0..]) == Kept(m, attrs, row, cols)
    ensures DescHits(m, attrs, row, r, cols[0..]) == DescHits(m, attrs, row, r, cols)
  {
    assert cols[..|cols|] == cols && cols[|cols|..] == [];
    assert cols[..0] == [] && cols[0..] == cols;
  }

  /**
   Reference definition of the content scan from data row `r` on, while rows remain
   and `r < limit`: the warnings in the order they are raised and the columns left.
   */
  function ScanRows(m: Matcher, attrs: seq<Attribute>, rows: seq<seq<string>>, r: int, limit: int, cols: seq<int>)
    : (seq<Warning>, seq<int>)
    requires 1 <= r
    decreases |rows| - r
  {
    if r >= |rows| || r >= limit then ([], cols)
    else
      var rest := ScanRows(m, attrs, rows, r + 1, limit, Kept(m, attrs, rows[r], cols));
      (DescHits(m, attrs, rows[r], r, cols) + rest.0, rest.1)
  }

  /**
   The content scan. The row iterator's first element is skipped; data rows are then
   numbered from 1 and visited while `rowIndex < limit`.
   */
  method CheckRows(m: Matcher, attrs: seq<Attribute>, rows: seq<seq<string>>, columnsToCheck: seq<int>, limit: int)
    returns (warnings: seq<Warning>, columns: seq<int>)
    requires Fits(rows, columnsToCheck)
    ensures (warnings, columns) == ScanRows(m, attrs, rows, 1, limit, columnsToCheck)
    ensures forall w :: w in warnings ==> 1 <= w.row < limit && w.row < |rows|
  {
    warnings := [];
    columns := columnsToCheck;
    var rowIndex := 1;
    var position := 0;
    if position < |rows| {
      position := position + 1;
    }
    assert [] + ScanRows(m, attrs, rows, 1, limit, columnsToCheck).0 == ScanRows(m, attrs, rows, 1, limit, columnsToCheck).0;
    while position < |rows| && rowIndex < limit
      invariant 1 <= rowIndex
      invariant |rows| == 0 || position == rowIndex
      invariant Fits(rows, columns)
      invariant ScanRows(m, attrs, rows, 1, limit, columnsToCheck).0
                == warnings + ScanRows(m, attrs, rows, rowIndex, limit, columns).0
      invariant ScanRows(m, attrs, rows, 1, limit, columnsToCheck).1
                == ScanRows(m, attrs, rows, rowIndex, limit, columns).1
      decreases |rows| - position
    {
      var row := rows[position];
      position := position + 1;
      var rowWarnings, kept := ScanRow(m, attrs, row, rowIndex, columns);
      KeptMembers(m, attrs, row, columns);
      ghost var later := ScanRows(m, attrs, rows, rowIndex + 1, limit, kept);
      assert ScanRows(m, attrs, rows, rowIndex, limit, columns) == (rowWarnings + later.0, later.1);
      assert warnings + (rowWarnings + later.0) == (warnings + rowWarnings) + later.0;
      warnings := warnings + rowWarnings;
      columns := kept;
      rowIndex := rowIndex + 1;
    }
    assert ScanRows(m, attrs, rows, rowIndex, limit, columns) == ([], columns);
    assert warnings + [] == warnings;
    ScanRowsWarnings(m, attrs, rows, 1, limit, columnsToCheck);
  }

  /**
   Independent characterisation of the content scan for one column: the first data row
   from `r` on, below `limit`, whose cell in column `c` some pattern accepts.
   */
  function FirstHitRow(m: Matcher, attrs: seq<Attribute>, rows: seq<seq<string>>, c: int, r: int, limit: int)
    : (q: Option<int>)
    requires 1 <= r
    decreases |rows| - r
    ensures q.Some? ==> r <= q.value < |rows| && q.value < limit && Hits(m, attrs, rows[q.value], c)
    ensures q.Some? ==> forall p :: r <= p < q.value ==> !Hits(m, attrs, rows[p], c)
    ensures q.None? <==> forall p :: r <= p < |rows| && p < limit ==> !Hits(m, attrs, rows[p], c)
  {
    if r >= |rows| || r >= limit then None
    else if Hits(m, attrs, rows[r], c) then Some(r)
    else FirstHitRow(m, attrs, rows, c, r + 1, limit)
  }

  /** The columns left after the scan are exactly those no examined row ever hits. */
  lemma {:induction false} ScanRowsRemaining(m: Matcher, attrs: seq<Attribute>, rows: seq<seq<string>>,
                                             r: int, limit: int, cols: seq<int>)
    requires 1 <= r
    decreases |rows| - r
    ensures forall c :: c in ScanRows(m, attrs, rows, r, limit, cols).1 <==>
                          c in cols && FirstHitRow(m, attrs, rows, c, r, limit).None?
  {
    if r < |rows| && r < limit {
      KeptMembers(m, attrs, rows[r], cols);
      ScanRowsRemaining(m, attrs, rows, r + 1, limit, Kept(m, attrs, rows[r], cols));
    }
  }

  /**
   Whether one warning is raised by the scan: exactly when its column is listed and some
   examined row hits it, at the first such row, with the first accepting attribute's
   category and that row's cell as evidence.
   */
  lemma {:induction false} ScanRowsWarningAt(m: Matcher, attrs: seq<Attribute>, rows: seq<seq<string>>,
                                             r: int, limit: int, cols: seq<int>, w: Warning)
    requires 1 <= r
    decreases |rows| - r
    ensures w in ScanRows(m, attrs, rows, r, limit, cols).0 <==>
              (w.column in cols && FirstHitRow(m, attrs, rows, w.column, r, limit) == Some(w.row)
               && w == HitWarning(m, attrs, rows[w.row], w.row, w.column))
  {
    if r < |rows| && r < limit {
      var row := rows[r];
      var kept := Kept(m, attrs, row, cols);
      var here := DescHits(m, attrs, row, r, cols);
      var later := ScanRows(m, attrs, rows, r + 1, limit, kept).0;
      assert ScanRows(m, attrs, rows, r, limit, cols).0 == here + later;
      DescHitsAt(m, attrs, row, r, cols, w);
      KeptAt(m, attrs, row, cols, w.column);
      ScanRowsWarningAt(m, attrs, rows, r + 1, limit, kept, w);
      if Hits(m, attrs, row, w.column) {
        assert FirstHitRow(m, attrs, rows, w.column, r, limit) == Some(r);
      } else {
        assert FirstHitRow(m, attrs, rows, w.column, r, limit) == FirstHitRow(m, attrs, rows, w.column, r + 1, limit);
      }
    }
  }

  /**
   The warnings of the scan are exactly one per listed column that some examined row
   hits: reported at the first such row, with the first accepting attribute's category
   and that row's cell as evidence.
   */
  lemma ScanRowsWarnings(m: Matcher, attrs: seq<Attribute>, rows: seq<seq<string>>,
                         r: int, limit: int, cols: seq<int>)
    requires 1 <= r
    ensures forall w :: w in ScanRows(m, attrs, rows, r, limit, cols).0 <==>
              (w.column in cols && FirstHitRow(m, attrs, rows, w.column, r, limit) == Some(w.row)
               && w == HitWarning(m, attrs, rows[w.row], w.row, w.column))
  {
    forall w: Warning
      ensures w in ScanRows(m, attrs, rows, r, limit, cols).0 <==>
              (w.column in cols && FirstHitRow(m, attrs, rows, w.column, r, limit) == Some(w.row)
               && w == HitWarning(m, attrs, rows[w.row], w.row, w.column))
    {
      ScanRowsWarningAt(m, attrs, rows, r, limit, cols, w);
    }
  }

  /** No column is reported twice. */
  predicate DistinctColumns(ws: seq<Warning>)
  {
    forall i, j :: 0 <= i < j < |ws| ==> ws[i].column != ws[j].column
  }

  /** Row by row, and within one row from the highest column to the lowest. */
  predicate InScanOrder(ws: seq<Warning>)
  {
    forall i, j :: 0 <= i < j < |ws| ==>
      ws[i].row < ws[j].row || (ws[i].row == ws[j].row && ws[i].column > ws[j].column)
  }

  /** One row's warnings followed by the warnings of later rows about other columns. */
  lemma ConcatRows(a: seq<Warning>, b: seq<Warning>, r: int)
    requires forall i :: 0 <= i < |a| ==> a[i].row == r
    requires forall i, j :: 0 <= i < j < |a| ==> a[i].column > a[j].column
    requires forall i :: 0 <= i < |b| ==> b[i].row > r
    requires forall i, j :: 0 <= i < |a| && 0 <= j < |b| ==> a[i].column != b[j].column
    requires InScanOrder(b) && DistinctColumns(b)
    ensures InScanOrder(a + b) && DistinctColumns(a + b)
  {
    var ab := a + b;
    forall i, j | 0 <= i < j < |ab|
      ensures ab[i].row < ab[j].row || (ab[i].row == ab[j].row && ab[i].column > ab[j].column)
      ensures ab[i].column != ab[j].column
    {
      if j < |a| {
        assert ab[i] == a[i] && ab[j] == a[j];
      } else if i < |a| {
        assert ab[i] == a[i] && ab[j] == b[j - |a|];
      } else {
        assert ab[i] == b[i - |a|] && ab[j] == b[j - |a|];
      }
    }
  }

  /**
   Over a strictly ascending column list, warnings come row by row and, within a row,
   in decreasing column order, and no column is reported twice.
   */
  lemma {:induction false} ScanRowsOrder(m: Matcher, attrs: seq<Attribute>, rows: seq<seq<string>>,
                                         r: int, limit: int, cols: seq<int>)
    requires 1 <= r && StrictlyAscending(cols)
    decreases |rows| - r
    ensures InScanOrder(ScanRows(m, attrs, rows, r, limit, cols).0)
    ensures DistinctColumns(ScanRows(m, attrs, rows, r, limit, cols).0)
  {
    if r < |rows| && r < limit {
      var row := rows[r];
      var kept := Kept(m, attrs, row, cols);
      var here := DescHits(m, attrs, row, r, cols);
      var later := ScanRows(m, attrs, rows, r + 1, limit, kept).0;
      assert ScanRows(m, attrs, rows, r, limit, cols).0 == here + later;
      RowShape(m, attrs, row, r, cols);
      DescHitsMembers(m, attrs, row, r, cols);
      KeptMembers(m, attrs, row, cols);
      ScanRowsOrder(m, attrs, rows, r + 1, limit, kept);
      forall i | 0 <= i < |here|
        ensures here[i].row == r && Hits(m, attrs, row, here[i].column)
      {
        assert here[i] in here;
      }
      forall j | 0 <= j < |later|
        ensures later[j].row > r && !Hits(m, attrs, row, later[j].column)
      {
        assert later[j] in later;
        ScanRowsWarningAt(m, attrs, rows, r + 1, limit, kept, later[j]);
      }
      ConcatRows(here, later, r);
    }
  }

  /**
   Over a strictly ascending column list, every listed column is either reported or
   left, and what is left stays ascending.
   */
  lemma {:induction false} ScanRowsLeft(m: Matcher, attrs: seq<Attribute>, rows: seq<seq<string>>,
                                        r: int, limit: int, cols: seq<int>)
    requires 1 <= r && StrictlyAscending(cols)
    decreases |rows| - r
    ensures |ScanRows(m, attrs, rows, r, limit, cols).0| + |ScanRows(m, attrs, rows, r, limit, cols).1| == |cols|
    ensures StrictlyAscending(ScanRows(m, attrs, rows, r, limit, cols).1)
  {
    if r < |rows| && r < limit {
      RowShape(m, attrs, rows[r], r, cols);
      ScanRowsLeft(m, attrs, rows, r + 1, limit, Kept(m, attrs, rows[r], cols));
    }
  }

  /**
   Shape of the content scan over a strictly ascending column list: warnings come row
   by row and, within a row, in decreasing column order; no column is reported twice;
   every listed column is either reported or left, and what is left stays ascending.
   */
  lemma ScanRowsShape(m: Matcher, attrs: seq<Attribute>, rows: seq<seq<string>>,
                      r: int, limit: int, cols: seq<int>)
    requires 1 <= r && StrictlyAscending(cols)
    ensures InScanOrder(ScanRows(m, attrs, rows, r, limit, cols).0)
    ensures DistinctColumns(ScanRows(m, attrs, rows, r, limit, cols).0)
    ensures |ScanRows(m, attrs, rows, r, limit, cols).0| + |ScanRows(m, attrs, rows, r, limit, cols).1| == |cols|
    ensures StrictlyAscending(ScanRows(m, attrs, rows, r, limit, cols).1)
  {
    ScanRowsOrder(m, attrs, rows, r, limit, cols);
    ScanRowsLeft(m, attrs, rows, r, limit, cols);
  }

  /** Java's `Integer.MAX_VALUE`: the row bound of the scan that has no limit of its own. */
  const IntMax: int := 0x7fff_ffff

  /**
   The content scan without a caller-supplied limit: data rows are examined while their
   number stays below `IntMax`, so a 32-bit row counter never wraps.
   */
  method CheckRowsAll(m: Matcher, attrs: seq<Attribute>, rows: seq<seq<string>>, columnsToCheck: seq<int>)
    returns (warnings: seq<Warning>, columns: seq<int>)
    requires Fits(rows, columnsToCheck)
    ensures (warnings, columns) == ScanRows(m, attrs, rows, 1, IntMax, columnsToCheck)
    ensures forall w :: w in warnings ==> 1 <= w.row < IntMax
  {
    warnings, columns := CheckRows(m, attrs, rows, columnsToCheck, IntMax);
  }
}
