/**
 The header scan: every column title is tested against every attribute of the
 taxonomy. Each accepting attribute yields a row-0 warning (there is no early exit,
 so one column can collect several), and a column with at least one warning is
 taken off the list of columns whose content is still to be scanned.
 */
module HeaderScan {
  import opened Hipaa
  import opened ColumnList

  /** Header warnings that column `i`, titled `h`, receives from `attrs`, in the order of `attrs`. */
  function LabelHits(m: Matcher, attrs: seq<Attribute>, i: int, h: string): seq<Warning>
  {
    if attrs == [] then []
    else
      var last := attrs[|attrs| - 1];
      LabelHits(m, attrs[..|attrs| - 1], i, h)
      + (if m.matchesLabel(last, h) then [Warning(i, 0, last.identifier, h)] else [])
  }

  /** Header warnings of the first `n` columns. */
  function HeaderWarnings(m: Matcher, attrs: seq<Attribute>, header: seq<string>, n: nat): seq<Warning>
    requires n <= |header|
  {
    if n == 0 then [] else HeaderWarnings(m, attrs, header, n - 1) + LabelHits(m, attrs, n - 1, header[n - 1])
  }

  /** Every label hit of column `i` is on row 0, about column `i`, with the title as evidence. */
  lemma {:induction false} LabelHitsShape(m: Matcher, attrs: seq<Attribute>, i: int, h: string)
    ensures forall w :: w in LabelHits(m, attrs, i, h) ==> w.column == i && w.row == 0 && w.value == h
  {
    if attrs != [] {
      LabelHitsShape(m, attrs[..|attrs| - 1], i, h);
    }
  }

  /**
   A warning is among the header warnings of column `i`, titled `h`, exactly when it is
   on row 0, carries the title, and names the category of an attribute whose labels
   accept the title. How many there are, and in which order, `LabelHitsAccepting` says.
   */
  lemma {:induction false} LabelHitsMembers(m: Matcher, attrs: seq<Attribute>, i: int, h: string)
    ensures forall w :: w in LabelHits(m, attrs, i, h) <==>
      (w.column == i && w.row == 0 && w.value == h && Claims(m, attrs, h, w.identifier))
  {
    if attrs != [] {
      var init := attrs[..|attrs| - 1];
      var last := attrs[|attrs| - 1];
      LabelHitsMembers(m, init, i, h);
      forall id | Claims(m, init, h, id)
        ensures Claims(m, attrs, h, id)
      {
        var k :| 0 <= k < |init| && m.matchesLabel(init[k], h) && init[k].identifier == id;
        assert init[k] == attrs[k];
      }
      forall id | Claims(m, attrs, h, id)
        ensures Claims(m, init, h, id) || (m.matchesLabel(last, h) && last.identifier == id)
      {
        var k :| 0 <= k < |attrs| && m.matchesLabel(attrs[k], h) && attrs[k].identifier == id;
        if k < |init| {
          assert init[k] == attrs[k];
        }
      }
    }
  }

  /** Positions in `attrs` of the attributes whose labels accept `h`. */
  function Accepting(m: Matcher, attrs: seq<Attribute>, h: string): seq<int>
  {
    if attrs == [] then []
    else
      Accepting(m, attrs[..|attrs| - 1], h)
      + (if m.matchesLabel(attrs[|attrs| - 1], h) then [|attrs| - 1] else [])
  }

  /** `Accepting` lists exactly the accepting positions, each once, in ascending order. */
  lemma {:induction false} AcceptingMembers(m: Matcher, attrs: seq<Attribute>, h: string)
    ensures forall j :: 0 <= j < |Accepting(m, attrs, h)| ==> 0 <= Accepting(m, attrs, h)[j] < |attrs|
    ensures forall k :: k in Accepting(m, attrs, h) <==> 0 <= k < |attrs| && m.matchesLabel(attrs[k], h)
    ensures StrictlyAscending(Accepting(m, attrs, h))
  {
    if attrs != [] {
      var n := |attrs|;
      var init := attrs[..n - 1];
      var a := Accepting(m, init, h);
      var b: seq<int> := if m.matchesLabel(attrs[n - 1], h) then [n - 1] else [];
      AcceptingMembers(m, init, h);
      assert Accepting(m, attrs, h) == a + b;
      forall k | 0 <= k < n - 1
        ensures init[k] == attrs[k]
      {
      }
      forall i, j | 0 <= i < j < |a + b|
        ensures (a + b)[i] < (a + b)[j]
      {
        if j < |a| {
          assert (a + b)[i] == a[i] && (a + b)[j] == a[j];
        } else {
          assert (a + b)[i] == a[i] && (a + b)[j] == n - 1;
        }
      }
    }
  }

  /**
   Column `i`, titled `h`, gets one header warning per accepting attribute, in taxonomy
   order: the `j`-th names the category of the `j`-th accepting attribute. Two accepting
   attributes of the same category give two equal warnings.
   */
  lemma {:induction false} LabelHitsAccepting(m: Matcher, attrs: seq<Attribute>, i: int, h: string)
    ensures |LabelHits(m, attrs, i, h)| == |Accepting(m, attrs, h)|
    ensures forall j :: 0 <= j < |LabelHits(m, attrs, i, h)| ==>
      0 <= Accepting(m, attrs, h)[j] < |attrs|
      && LabelHits(m, attrs, i, h)[j] == Warning(i, 0, attrs[Accepting(m, attrs, h)[j]].identifier, h)
  {
    if attrs != [] {
      var n := |attrs|;
      var init := attrs[..n - 1];
      var last := attrs[n - 1];
      LabelHitsAccepting(m, init, i, h);
      var a := LabelHits(m, init, i, h);
      var b := if m.matchesLabel(last, h) then [Warning(i, 0, last.identifier, h)] else [];
      var ka := Accepting(m, init, h);
      var kb: seq<int> := if m.matchesLabel(last, h) then [n - 1] else [];
      assert LabelHits(m, attrs, i, h) == a + b;
      assert Accepting(m, attrs, h) == ka + kb;
      forall j | 0 <= j < |a + b|
        ensures 0 <= (ka + kb)[j] < n && (a + b)[j] == Warning(i, 0, attrs[(ka + kb)[j]].identifier, h)
      {
        if j < |a| {
          assert (a + b)[j] == a[j] && (ka + kb)[j] == ka[j];
          assert init[ka[j]] == attrs[ka[j]];
        } else {
          assert (a + b)[j] == b[0] && (ka + kb)[j] == n - 1;
        }
      }
    }
  }

  /** Header warnings of the first `n` columns are on row 0, about one of those columns. */
  lemma {:induction false} HeaderWarningsShape(m: Matcher, attrs: seq<Attribute>, header: seq<string>, n: nat)
    requires n <= |header|
    ensures forall w :: w in HeaderWarnings(m, attrs, header, n) ==> 0 <= w.column < n && w.row == 0
  {
    if n > 0 {
      HeaderWarningsShape(m, attrs, header, n - 1);
      LabelHitsShape(m, attrs, n - 1, header[n - 1]);
    }
  }

  /**
   A warning is among the header warnings of the first `n` columns exactly when it is
   on row 0, about one of those columns, carries its title, and names the category of
   an attribute whose labels accept that title.
   */
  lemma {:induction false} HeaderWarningsMembers(m: Matcher, attrs: seq<Attribute>, header: seq<string>, n: nat)
    requires n <= |header|
    ensures forall w :: w in HeaderWarnings(m, attrs, header, n) <==>
      (0 <= w.column < n && w.row == 0 && w.value == header[w.column]
       && Claims(m, attrs, header[w.column], w.identifier))
  {
    if n > 0 {
      var a := HeaderWarnings(m, attrs, header, n - 1);
      var b := LabelHits(m, attrs, n - 1, header[n - 1]);
      assert HeaderWarnings(m, attrs, header, n) == a + b;
      HeaderWarningsMembers(m, attrs, header, n - 1);
      LabelHitsMembers(m, attrs, n - 1, header[n - 1]);
      forall w: Warning | w in a + b
        ensures 0 <= w.column < n && w.row == 0 && w.value == header[w.column]
                && Claims(m, attrs, header[w.column], w.identifier)
      {
        if w !in a {
          assert w in b;
        }
      }
      forall w: Warning | 0 <= w.column < n && w.row == 0 && w.value == header[w.column]
                          && Claims(m, attrs, header[w.column], w.identifier)
        ensures w in a + b
      {
        if w.column < n - 1 {
          assert w in a;
        } else {
          assert w in b;
        }
      }
    }
  }

  /** Columns among the first `n` whose title some attribute accepts. */
  function HeaderMatchedColumns(m: Matcher, attrs: seq<Attribute>, header: seq<string>, n: nat): set<int>
    requires n <= |header|
  {
    if n == 0 then {}
    else HeaderMatchedColumns(m, attrs, header, n - 1) + (if HeaderMatched(m, attrs, header[n - 1]) then {n - 1} else {})
  }

  /** The header-matched columns are exactly the columns below `n` whose title some attribute accepts. */
  lemma {:induction false} HeaderMatchedColumnsMembers(m: Matcher, attrs: seq<Attribute>, header: seq<string>, n: nat)
    requires n <= |header|
    ensures forall c :: c in HeaderMatchedColumns(m, attrs, header, n) <==> 0 <= c < n && HeaderMatched(m, attrs, header[c])
  {
    if n > 0 {
      HeaderMatchedColumnsMembers(m, attrs, header, n - 1);
    }
  }

  /** The warnings of `ws` about column `c`, in order. */
  function OfColumn(ws: seq<Warning>, c: int): seq<Warning>
  {
    if ws == [] then []
    else (if ws[0].column == c then [ws[0]] else []) + OfColumn(ws[1..], c)
  }

  lemma {:induction false} OfColumnConcat(a: seq<Warning>, b: seq<Warning>, c: int)
    ensures OfColumn(a + b, c) == OfColumn(a, c) + OfColumn(b, c)
  {
    if a != [] {
      var head := if a[0].column == c then [a[0]] else [];
      assert (a + b)[0] == a[0];
      assert (a + b)[1..] == a[1..] + b;
      assert OfColumn(a + b, c) == head + OfColumn(a[1..] + b, c);
      assert OfColumn(a, c) == head + OfColumn(a[1..], c);
      OfColumnConcat(a[1..], b, c);
      var x, y := OfColumn(a[1..], c), OfColumn(b, c);
      assert head + (x + y) == (head + x) + y;
    } else {
      assert a + b == b;
    }
  }

  lemma {:induction false} OfColumnAll(ws: seq<Warning>, c: int)
    requires forall i :: 0 <= i < |ws| ==> ws[i].column == c
    ensures OfColumn(ws, c) == ws
  {
    if ws != [] {
      OfColumnAll(ws[1..], c);
    }
  }

  lemma {:induction false} OfColumnNone(ws: seq<Warning>, c: int)
    requires forall i :: 0 <= i < |ws| ==> ws[i].column != c
    ensures OfColumn(ws, c) == []
  {
    if ws != [] {
      OfColumnNone(ws[1..], c);
    }
  }

  /** Warnings in ascending column order. */
  predicate ColumnSorted(ws: seq<Warning>)
  {
    forall p, q :: 0 <= p < q < |ws| ==> ws[p].column <= ws[q].column
  }

  /** Appending warnings about a column above every column seen so far keeps the order. */
  lemma SortedAppend(a: seq<Warning>, b: seq<Warning>, k: int)
    requires ColumnSorted(a)
    requires forall w :: w in a ==> w.column < k
    requires forall w :: w in b ==> w.column == k
    ensures ColumnSorted(a + b)
  {
    var ab := a + b;
    forall p, q | 0 <= p < q < |ab|
      ensures ab[p].column <= ab[q].column
    {
      if q >= |a| {
        assert ab[q] == b[q - |a|] && b[q - |a|] in b;
        if p < |a| {
          assert ab[p] == a[p] && a[p] in a;
        } else {
          assert ab[p] == b[p - |a|] && b[p - |a|] in b;
        }
      } else {
        assert ab[p] == a[p] && ab[q] == a[q];
      }
    }
  }

  /** Header warnings are ordered by column. */
  lemma {:induction false} HeaderWarningsSorted(m: Matcher, attrs: seq<Attribute>, header: seq<string>, n: nat)
    requires n <= |header|
    ensures ColumnSorted(HeaderWarnings(m, attrs, header, n))
  {
    if n > 0 {
      var a := HeaderWarnings(m, attrs, header, n - 1);
      var b := LabelHits(m, attrs, n - 1, header[n - 1]);
      assert HeaderWarnings(m, attrs, header, n) == a + b;
      HeaderWarningsSorted(m, attrs, header, n - 1);
      HeaderWarningsShape(m, attrs, header, n - 1);
      LabelHitsShape(m, attrs, n - 1, header[n - 1]);
      SortedAppend(a, b, n - 1);
    }
  }

  /** Appending the warnings of a new, higher column `k` only extends the warnings of `k`. */
  lemma OfColumnStep(a: seq<Warning>, b: seq<Warning>, k: int, c: int)
    requires forall w :: w in a ==> w.column < k
    requires forall w :: w in b ==> w.column == k
    ensures OfColumn(a + b, c) == if c == k then b else OfColumn(a, c)
  {
    OfColumnConcat(a, b, c);
    assert forall i :: 0 <= i < |a| ==> a[i] in a;
    assert forall i :: 0 <= i < |b| ==> b[i] in b;
    if c == k {
      OfColumnNone(a, c);
      OfColumnAll(b, c);
      assert [] + b == b;
    } else {
      OfColumnNone(b, c);
      assert OfColumn(a, c) + [] == OfColumn(a, c);
    }
  }

  /** The header warnings about `c` gain the label hits of column `n - 1` when `c` is that column, and nothing otherwise. */
  lemma HeaderWarningsStep(m: Matcher, attrs: seq<Attribute>, header: seq<string>, n: nat, c: int)
    requires 0 < n <= |header|
    ensures c == n - 1 ==> OfColumn(HeaderWarnings(m, attrs, header, n), c) == LabelHits(m, attrs, c, header[c])
    ensures c != n - 1 ==> OfColumn(HeaderWarnings(m, attrs, header, n), c) == OfColumn(HeaderWarnings(m, attrs, header, n - 1), c)
  {
    var a := HeaderWarnings(m, attrs, header, n - 1);
    var b := LabelHits(m, attrs, n - 1, header[n - 1]);
    assert HeaderWarnings(m, attrs, header, n) == a + b;
    HeaderWarningsShape(m, attrs, header, n - 1);
    LabelHitsShape(m, attrs, n - 1, header[n - 1]);
    OfColumnStep(a, b, n - 1, c);
  }

  /** No header warning is about a column outside the first `n`. */
  lemma HeaderWarningsOutside(m: Matcher, attrs: seq<Attribute>, header: seq<string>, n: nat, c: int)
    requires n <= |header| && !(0 <= c < n)
    ensures OfColumn(HeaderWarnings(m, attrs, header, n), c) == []
  {
    var ws := HeaderWarnings(m, attrs, header, n);
    HeaderWarningsShape(m, attrs, header, n);
    assert forall i :: 0 <= i < |ws| ==> ws[i] in ws;
    OfColumnNone(ws, c);
  }

  /** The header warnings about a column among the first `n` are exactly its label hits. */
  lemma {:induction false} HeaderWarningsInside(m: Matcher, attrs: seq<Attribute>, header: seq<string>, n: nat, c: int)
    requires n <= |header| && 0 <= c < n
    ensures OfColumn(HeaderWarnings(m, attrs, header, n), c) == LabelHits(m, attrs, c, header[c])
  {
    HeaderWarningsStep(m, attrs, header, n, c);
    if c < n - 1 {
      HeaderWarningsInside(m, attrs, header, n - 1, c);
    }
  }

  /**
   The header warnings about one column are exactly its label hits in taxonomy order:
   several when several attributes accept its title, none for a column past `n`.
   */
  lemma HeaderWarningsOfColumn(m: Matcher, attrs: seq<Attribute>, header: seq<string>, n: nat, c: int)
    requires n <= |header|
    ensures OfColumn(HeaderWarnings(m, attrs, header, n), c)
            == (if 0 <= c < n then LabelHits(m, attrs, c, header[c]) else [])
  {
    if 0 <= c < n {
      HeaderWarningsInside(m, attrs, header, n, c);
    } else {
      HeaderWarningsOutside(m, attrs, header, n, c);
    }
  }

  /** A column receives a header warning exactly when its title is claimed by the taxonomy. */
  lemma HeaderWarnedIffMatched(m: Matcher, attrs: seq<Attribute>, header: seq<string>, c: int)
    requires 0 <= c < |header|
    ensures (exists w :: w in HeaderWarnings(m, attrs, header, |header|) && w.column == c) <==> HeaderMatched(m, attrs, header[c])
  {
    HeaderWarningsMembers(m, attrs, header, |header|);
    if HeaderMatched(m, attrs, header[c]) {
      var k :| 0 <= k < |attrs| && m.matchesLabel(attrs[k], header[c]);
      assert Claims(m, attrs, header[c], attrs[k].identifier);
      assert Warning(c, 0, attrs[k].identifier, header[c]) in HeaderWarnings(m, attrs, header, |header|);
    }
  }

  /** A title is accepted by the first `k + 1` attributes when the first `k` or the next one accept it. */
  lemma HeaderMatchedStep(m: Matcher, attrs: seq<Attribute>, k: int, h: string)
    requires 0 <= k < |attrs|
    ensures HeaderMatched(m, attrs[..k + 1], h) <==> HeaderMatched(m, attrs[..k], h) || m.matchesLabel(attrs[k], h)
  {
    var pre, ext := attrs[..k], attrs[..k + 1];
    if HeaderMatched(m, ext, h) {
      var j :| 0 <= j < |ext| && m.matchesLabel(ext[j], h);
      if j < k {
        assert pre[j] == ext[j];
      }
    }
    if HeaderMatched(m, pre, h) {
      var j :| 0 <= j < |pre| && m.matchesLabel(pre[j], h);
      assert ext[j] == pre[j];
    }
    if m.matchesLabel(attrs[k], h) {
      assert ext[k] == attrs[k];
    }
  }

  /**
   The header scan of one column: its title `h` is tried against every attribute in
   turn; each accepting attribute adds a warning and removes `i`, by value, from the
   columns still to check (a no-op after the first removal).
   */
  method CheckColumnTitle(m: Matcher, attrs: seq<Attribute>, i: int, h: string, columnsToCheck: seq<int>,
                          ghost all: seq<int>, ghost gone: set<int>)
    returns (hits: seq<Warning>, columns: seq<int>)
    requires StrictlyAscending(all) && columnsToCheck == Except(all, gone)
    ensures hits == LabelHits(m, attrs, i, h)
    ensures columns == Except(all, gone + (if HeaderMatched(m, attrs, h) then {i} else {}))
  {
    hits := [];
    columns := columnsToCheck;
    ghost var hit := false;
    assert gone + {} == gone;
    for k := 0 to |attrs|
      invariant hit <==> HeaderMatched(m, attrs[..k], h)
      invariant hits == LabelHits(m, attrs[..k], i, h)
      invariant columns == Except(all, gone + (if hit then {i} else {}))
    {
      assert attrs[..k + 1][..k] == attrs[..k];
      HeaderMatchedStep(m, attrs, k, h);
      if m.matchesLabel(attrs[k], h) {
        hits := hits + [Warning(i, 0, attrs[k].identifier, h)];
        RemoveValueExcept(all, gone + (if hit then {i} else {}), i);
        columns := RemoveValue(columns, i);
        hit := true;
      }
    }
    assert attrs[..|attrs|] == attrs;
  }

  /**
   The header scan. Returns the header warnings, ordered by column and then by
   taxonomy, and what remains of `columnsToCheck` once every column with a header
   warning has been removed from it.
   */
  method CheckColumnTitles(m: Matcher, attrs: seq<Attribute>, header: seq<string>, columnsToCheck: seq<int>)
    returns (warnings: seq<Warning>, columns: seq<int>)
    requires StrictlyAscending(columnsToCheck)
    ensures warnings == HeaderWarnings(m, attrs, header, |header|)
    ensures columns == Except(columnsToCheck, HeaderMatchedColumns(m, attrs, header, |header|))
    ensures StrictlyAscending(columns)
  {
    warnings := [];
    columns := columnsToCheck;
    ExceptNothing(columnsToCheck);
    for i := 0 to |header|
      invariant warnings == HeaderWarnings(m, attrs, header, i)
      invariant columns == Except(columnsToCheck, HeaderMatchedColumns(m, attrs, header, i))
    {
      var hits;
      hits, columns := CheckColumnTitle(m, attrs, i, header[i], columns,
                                        columnsToCheck, HeaderMatchedColumns(m, attrs, header, i));
      warnings := warnings + hits;
    }
    ExceptAscending(columnsToCheck, HeaderMatchedColumns(m, attrs, header, |header|));
  }

  /** A title no label claims draws no warning. */
  lemma {:induction false} QuietTitle(m: Matcher, attrs: seq<Attribute>, i: int, h: string)
    requires !HeaderMatched(m, attrs, h)
    ensures LabelHits(m, attrs, i, h) == []
  {
    if attrs != [] {
      var k := |attrs| - 1;
      assert attrs[..k + 1] == attrs;
      HeaderMatchedStep(m, attrs, k, h);
      QuietTitle(m, attrs[..k], i, h);
    }
  }

  /** A header none of whose first `n` titles is claimed draws no header warning. */
  lemma {:induction false} QuietHeaders(m: Matcher, attrs: seq<Attribute>, header: seq<string>, n: nat)
    requires n <= |header|
    requires forall c :: 0 <= c < n ==> !HeaderMatched(m, attrs, header[c])
    ensures HeaderWarnings(m, attrs, header, n) == []
  {
    if n > 0 {
      QuietHeaders(m, attrs, header, n - 1);
      QuietTitle(m, attrs, n - 1, header[n - 1]);
    }
  }
}
