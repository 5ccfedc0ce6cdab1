/**
  * The filter and sort step of app.py. The widgets are replaced by their
  * values (a Filters record and a sort column); loading the table from the
  * file is an optional table, None when the file is missing.
  */
module Dashboard {
  import opened Options
  import opened Quotes

  /** The values of the five filter widgets. A selection set may hold None (a NaN option). */
  datatype Filters = Filters(
    minAnalysts: int,
    minUpside: real,
    minDividend: real,
    ratings: set<Option<string>>,
    sectors: set<Option<string>>)

  /**
    * The boolean mask of lines 61-67. A NaN analyst count fails its
    * comparison; `isin` matches a NaN cell only when NaN was selected.
    */
  predicate Keep(r: Row, f: Filters)
  {
    && r.numAnalysts.Some? && r.numAnalysts.value >= f.minAnalysts
    && r.upside >= f.minUpside
    && r.dividendYield >= f.minDividend
    && r.rating in f.ratings
    && r.sector in f.sectors
  }

  /** `a` is `b` with some elements removed, the rest in their original order. */
  predicate IsSubsequence(a: seq<Row>, b: seq<Row>)
    decreases |b|
  {
    || |a| == 0
    || (|b| > 0 && ((a[0] == b[0] && IsSubsequence(a[1..], b[1..])) || IsSubsequence(a, b[1..])))
  }

  lemma {:induction false} SubsequenceShorter(a: seq<Row>, b: seq<Row>)
    requires IsSubsequence(a, b)
    ensures |a| <= |b|
    decreases |b|
  {
    if |a| > 0 {
      if a[0] == b[0] && IsSubsequence(a[1..], b[1..]) {
        SubsequenceShorter(a[1..], b[1..]);
      } else {
        SubsequenceShorter(a, b[1..]);
      }
    }
  }

  /** The filtered table: the rows passing all five tests, in table order. */
  function FilterRows(rows: seq<Row>, f: Filters): (out: seq<Row>)
    ensures IsSubsequence(out, rows)
    ensures forall r :: r in out <==> r in rows && Keep(r, f)
    ensures forall r :: Keep(r, f) ==> multiset(out)[r] == multiset(rows)[r]
    decreases |rows|
  {
    if |rows| == 0 then []
    else
      var rest := FilterRows(rows[1..], f);
      assert rows == [rows[0]] + rows[1..];
      if Keep(rows[0], f) then
        assert ([rows[0]] + rest)[1..] == rest;
        [rows[0]] + rest
      else rest
  }

  /** `g` is at least as strict as `f`: every floor raised or kept, every selection shrunk or kept. */
  predicate Stricter(g: Filters, f: Filters)
  {
    && g.minAnalysts >= f.minAnalysts
    && g.minUpside >= f.minUpside
    && g.minDividend >= f.minDividend
    && g.ratings <= f.ratings
    && g.sectors <= f.sectors
  }

  /** Tightening the filters never adds a row: the stricter result is a subsequence of the looser one. */
  lemma {:induction false} FilterMonotone(rows: seq<Row>, f: Filters, g: Filters)
    requires Stricter(g, f)
    ensures IsSubsequence(FilterRows(rows, g), FilterRows(rows, f))
    decreases |rows|
  {
    var a, b := FilterRows(rows, g), FilterRows(rows, f);
    if |rows| > 0 {
      FilterMonotone(rows[1..], f, g);
      var a', b' := FilterRows(rows[1..], g), FilterRows(rows[1..], f);
      if Keep(rows[0], g) {
        assert a == [rows[0]] + a' && b == [rows[0]] + b';
        assert a[1..] == a' && b[1..] == b';
      } else if Keep(rows[0], f) {
        assert a == a' && b == [rows[0]] + b';
        assert b[1..] == b';
      }
    }
  }

  /** So the number of stocks found never grows when the filters tighten. */
  lemma FilterMonotoneCount(rows: seq<Row>, f: Filters, g: Filters)
    requires Stricter(g, f)
    ensures |FilterRows(rows, g)| <= |FilterRows(rows, f)|
  {
    FilterMonotone(rows, f, g);
    SubsequenceShorter(FilterRows(rows, g), FilterRows(rows, f));
  }

  /**
    * The widget defaults: floors 0, every rating present in the table, and
    * every sector present, after `dropna` has removed the missing one.
    */
  function DefaultFilters(rows: seq<Row>): (f: Filters)
    ensures forall r :: r in rows ==> r.rating in f.ratings
    ensures forall r :: r in rows && r.sector.Some? ==> r.sector in f.sectors
    ensures None !in f.sectors
  {
    Filters(0, 0.0, 0.0,
            set r | r in rows :: r.rating,
            set r | r in rows && r.sector.Some? :: r.sector)
  }

  /**
    * Under the defaults a row of the table is shown exactly when its analyst
    * count is known and non-negative, its upside and dividend yield are
    * non-negative and its sector is known: negative upside and missing
    * sectors are dropped although every option is selected.
    */
  lemma DefaultFiltersDrop(rows: seq<Row>, r: Row)
    requires r in rows
    ensures Keep(r, DefaultFilters(rows)) <==>
      && r.numAnalysts.Some? && r.numAnalysts.value >= 0
      && r.upside >= 0.0
      && r.dividendYield >= 0.0
      && r.sector.Some?
  {
  }

  /** The four columns offered by the sort radio button. */
  datatype SortColumn = UpsidePotential | NumAnalysts | ForwardPE | TrailingPE

  /** The P/E columns sort low to high, the others high to low. */
  predicate Ascending(c: SortColumn)
  {
    c == ForwardPE || c == TrailingPE
  }

  /** The value a row is sorted by; None for a NaN cell. */
  function SortValue(r: Row, c: SortColumn): Option<real>
  {
    match c
    case UpsidePotential => Some(r.upside)
    case NumAnalysts => if r.numAnalysts.Some? then Some(r.numAnalysts.value as real) else None
    case ForwardPE => r.forwardPE
    case TrailingPE => r.trailingPE
  }

  /** `a` may stand before `b`: values in the chosen direction, missing values after all present ones. */
  predicate Precedes(a: Row, b: Row, c: SortColumn)
  {
    match (SortValue(a, c), SortValue(b, c))
    case (Some(x), Some(y)) => if Ascending(c) then x <= y else x >= y
    case (Some(_), None) => true
    case (None, None) => true
    case (None, Some(_)) => false
  }

  predicate SortedBy(s: seq<Row>, c: SortColumn)
  {
    forall i, j :: 0 <= i < j < |s| ==> Precedes(s[i], s[j], c)
  }

  lemma PrecedesTotal(a: Row, b: Row, c: SortColumn)
    ensures Precedes(a, b, c) || Precedes(b, a, c)
  {
  }

  lemma PrecedesTransitive(a: Row, b: Row, d: Row, c: SortColumn)
    requires Precedes(a, b, c) && Precedes(b, d, c)
    ensures Precedes(a, d, c)
  {
  }

  /** Inserts `x` into a sorted table. */
  function Insert(x: Row, s: seq<Row>, c: SortColumn): (r: seq<Row>)
    requires SortedBy(s, c)
    ensures SortedBy(r, c)
    ensures multiset(r) == multiset(s) + multiset{x}
    decreases |s|
  {
    if |s| == 0 then [x]
    else if Precedes(x, s[0], c) then
      assert forall j :: 0 <= j < |s| ==> Precedes(x, s[j], c) by {
        forall j | 0 <= j < |s| ensures Precedes(x, s[j], c) {
          if j > 0 { PrecedesTransitive(x, s[0], s[j], c); }
        }
      }
      [x] + s
    else
      PrecedesTotal(x, s[0], c);
      assert s == [s[0]] + s[1..];
      var t := Insert(x, s[1..], c);
      assert forall j :: 0 <= j < |t| ==> Precedes(s[0], t[j], c) by {
        forall j | 0 <= j < |t| ensures Precedes(s[0], t[j], c) {
          assert t[j] in multiset(t);
          assert t[j] == x || t[j] in multiset(s[1..]);
          if t[j] != x {
            var m :| 0 <= m < |s[1..]| && s[1..][m] == t[j];
            assert s[m + 1] == t[j];
          }
        }
      }
      [s[0]] + t
  }

  /**
    * `sort_values(by=c, ascending=Ascending(c))`. The sort pandas uses by
    * default is not stable, so only the order of the sort values is
    * promised, not the order among equal values.
    */
  function SortRows(rows: seq<Row>, c: SortColumn): (out: seq<Row>)
    ensures SortedBy(out, c)
    ensures multiset(out) == multiset(rows)
    decreases |rows|
  {
    if |rows| == 0 then []
    else
      assert rows == [rows[0]] + rows[1..];
      Insert(rows[0], SortRows(rows[1..], c), c)
  }

  /**
    * The direction rule and the placement of missing values: present
    * values ascend for the P/E columns and descend for the others, and
    * rows with a missing value come after every row with a present one.
    */
  lemma SortOrder(rows: seq<Row>, c: SortColumn, i: int, j: int)
    requires 0 <= i < j < |SortRows(rows, c)|
    ensures var out := SortRows(rows, c); var x, y := SortValue(out[i], c), SortValue(out[j], c);
      && (x.Some? && y.Some? && Ascending(c) ==> x.value <= y.value)
      && (x.Some? && y.Some? && !Ascending(c) ==> x.value >= y.value)
      && (x.None? ==> y.None?)
  {
  }

  /** A row sorted between two rows with equal sort values has that value too. */
  lemma PrecedesSqueeze(p: Row, q: Row, r: Row, c: SortColumn)
    requires Precedes(p, q, c) && Precedes(q, r, c)
    requires SortValue(p, c) == SortValue(r, c)
    ensures SortValue(q, c) == SortValue(p, c)
  {
  }

  /** Removing one row keeps a table sorted. */
  lemma SortedWithout(s: seq<Row>, n: int, c: SortColumn)
    requires SortedBy(s, c) && 0 <= n < |s|
    ensures SortedBy(s[..n] + s[n + 1..], c)
  {
    var t := s[..n] + s[n + 1..];
    forall i, j | 0 <= i < j < |t| ensures Precedes(t[i], t[j], c) {
      var i' := if i < n then i else i + 1;
      var j' := if j < n then j else j + 1;
      assert t[i] == s[i'] && t[j] == s[j'];
    }
  }

  /** Two sorted permutations of one table start with the same sort value. */
  lemma SortedHeadsAgree(a: seq<Row>, b: seq<Row>, c: SortColumn)
    requires SortedBy(a, c) && SortedBy(b, c)
    requires multiset(a) == multiset(b) && |a| > 0 && |b| > 0
    ensures SortValue(a[0], c) == SortValue(b[0], c)
  {
    assert a[0] in multiset(b);
    var n :| 0 <= n < |b| && b[n] == a[0];
    assert b[0] in multiset(a);
    var m :| 0 <= m < |a| && a[m] == b[0];
    assert Precedes(a[0], b[0], c) by {
      if m > 0 { assert Precedes(a[0], a[m], c); }
    }
    assert Precedes(b[0], a[0], c) by {
      if n > 0 { assert Precedes(b[0], b[n], c); }
    }
  }

  /** In a sorted table, every row up to one with the first row's value shares that value. */
  lemma SortedRunValue(b: seq<Row>, n: int, c: SortColumn)
    requires SortedBy(b, c) && 0 <= n < |b|
    requires SortValue(b[n], c) == SortValue(b[0], c)
    ensures forall k :: 0 <= k <= n ==> SortValue(b[k], c) == SortValue(b[0], c)
  {
    forall k | 0 < k < n ensures SortValue(b[k], c) == SortValue(b[0], c) {
      PrecedesSqueeze(b[0], b[k], b[n], c);
    }
  }

  /** Taking the same row out of two permutations leaves permutations. */
  lemma RemoveFromPermutations(a: seq<Row>, b: seq<Row>, n: int)
    requires multiset(a) == multiset(b) && |a| > 0 && 0 <= n < |b| && b[n] == a[0]
    ensures multiset(a[1..]) == multiset(b[..n] + b[n + 1..])
  {
    var x := a[0];
    assert b == b[..n] + [x] + b[n + 1..];
    assert multiset(b) == multiset(b[..n]) + multiset{x} + multiset(b[n + 1..]);
    assert multiset(b[..n] + b[n + 1..]) == multiset(b[..n]) + multiset(b[n + 1..]);
    assert a == [x] + a[1..];
    assert multiset(a) == multiset{x} + multiset(a[1..]);
    assert multiset(a[1..]) == multiset(a) - multiset{x};
    assert multiset(b) - multiset{x} == multiset(b[..n]) + multiset(b[n + 1..]);
  }

  /**
    * Whatever order an unstable sort picks among equal values, every
    * sorted permutation of a table shows the same sort value at every
    * position: the model's order differs from pandas' at most among ties.
    */
  lemma {:induction false} SortedPermutationsAgree(a: seq<Row>, b: seq<Row>, c: SortColumn)
    requires SortedBy(a, c) && SortedBy(b, c)
    requires multiset(a) == multiset(b)
    ensures |a| == |b|
    ensures forall i :: 0 <= i < |a| ==> SortValue(a[i], c) == SortValue(b[i], c)
    decreases |a|
  {
    assert |a| == |multiset(a)| == |multiset(b)| == |b|;
    if |a| > 0 {
      SortedHeadsAgree(a, b, c);
      assert a[0] in multiset(b);
      var n :| 0 <= n < |b| && b[n] == a[0];
      var b' := b[..n] + b[n + 1..];
      RemoveFromPermutations(a, b, n);
      SortedWithout(b, n, c);
      SortedWithout(a, 0, c);
      assert a[..0] + a[1..] == a[1..];
      SortedPermutationsAgree(a[1..], b', c);
      SortedRunValue(b, n, c);
      forall i | 0 < i < |a| ensures SortValue(a[i], c) == SortValue(b[i], c) {
        assert a[i] == a[1..][i - 1];
        if i <= n {
          assert b'[i - 1] == b[i - 1];
        } else {
          assert b'[i - 1] == b[i];
        }
      }
    }
  }

  /**
    * What the page shows: the error for a missing file; nothing when the
    * analyst slider cannot be built, because no row has a known analyst
    * count (the column maximum is NaN and `int` of it raises); otherwise
    * the sorted table and its row count.
    */
  datatype Page = DataFileMissing | SliderRaises | Shown(table: seq<Row>, stocksFound: nat)

  /** The slider's upper bound `int(max)` exists only when some analyst count is known. */
  predicate HasAnalystMax(rows: seq<Row>)
  {
    exists i :: 0 <= i < |rows| && rows[i].numAnalysts.Some?
  }

  function Render(loaded: Option<seq<Row>>, f: Filters, c: SortColumn): (p: Page)
    ensures p.DataFileMissing? <==> loaded.None?
    ensures p.SliderRaises? <==> loaded.Some? && forall r :: r in loaded.value ==> r.numAnalysts.None?
    ensures p.Shown? ==> p.stocksFound == |FilterRows(loaded.value, f)|
    ensures p.Shown? ==> multiset(p.table) == multiset(FilterRows(loaded.value, f)) && SortedBy(p.table, c)
  {
    match loaded
    case None => DataFileMissing
    case Some(rows) =>
      if !HasAnalystMax(rows) then SliderRaises
      else
        var sorted := SortRows(FilterRows(rows, f), c);
        Shown(sorted, |sorted|)
  }
}
