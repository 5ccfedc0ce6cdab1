/**
  * Construction of the ticker universe in fetch_data.py: the per-source
  * symbol normalisation, the hand-curated list and the deduplicated master
  * list. Fetching and parsing the web pages is not modelled; each source is
  * given as the ticker column of the table it found, or None when the page,
  * the table or the column could not be obtained.
  */
module Symbols {
  import opened Options
  import opened Strings

  /** One cell of a scraped ticker column: a Python string, or any other value with its `str()` rendering (NaN renders as "nan"). */
  datatype Cell = Text(text: string) | NonText(shown: string)

  /** Python's `str(cell)`. */
  function Show(c: Cell): string
  {
    match c
    case Text(t) => t
    case NonText(shown) => shown
  }

  /** The S&P 500, Nasdaq-100 and Russell 1000 rule: every "." becomes "-". */
  function IndexSymbol(t: string): (r: string)
  {
    Replace(t, ".", "-")
  }

  lemma IndexSymbolShape(t: string)
    ensures |IndexSymbol(t)| == |t|
    ensures Count(IndexSymbol(t), '.') == 0
    ensures forall i :: 0 <= i < |t| ==> IndexSymbol(t)[i] == (if t[i] == '.' then '-' else t[i])
  {
    ReplaceCharPointwise(t, '.', '-');
    ReplaceCharRemoves(t, '.', '-');
  }

  /**
    * One of the three index sources. A non-string cell makes `t.replace`
    * raise, and the enclosing handler turns the whole source into [].
    */
  function IndexTickers(column: Option<seq<Cell>>): (r: seq<string>)
    ensures column.None? ==> r == []
    ensures column.Some? && (exists i :: 0 <= i < |column.value| && column.value[i].NonText?) ==> r == []
    ensures column.Some? && (forall i :: 0 <= i < |column.value| ==> column.value[i].Text?) ==>
      |r| == |column.value|
    ensures column.Some? && (forall i :: 0 <= i < |column.value| ==> column.value[i].Text?) ==>
      forall i :: 0 <= i < |r| ==> r[i] == IndexSymbol(column.value[i].text) && Count(r[i], '.') == 0
  {
    match column
    case None => []
    case Some(cells) =>
      if forall i :: 0 <= i < |cells| ==> cells[i].Text? then
        var r := seq(|cells|, i requires 0 <= i < |cells| => IndexSymbol(cells[i].text));
        assert forall i :: 0 <= i < |r| ==> Count(r[i], '.') == 0 by {
          forall i | 0 <= i < |r| ensures Count(r[i], '.') == 0 {
            IndexSymbolShape(cells[i].text);
          }
        }
        r
      else []
  }

  /**
    * The TSX rule: strip whitespace, turn dots into dashes, then append
    * ".TO" unless the symbol already ends with it.
    */
  function TsxSymbol(raw: string): (r: string)
    ensures EndsWith(r, ".TO")
    ensures Count(r, '.') == 1
  {
    var t := IndexSymbol(Strip(raw));
    IndexSymbolShape(Strip(raw));
    TsxGuardNeverSkips(t);
    CountConcat(t, ".TO", '.');
    if !EndsWith(t, ".TO") then t + ".TO" else t
  }

  /** A dot-free symbol never ends with ".TO", so the guard always appends. */
  lemma TsxGuardNeverSkips(t: string)
    requires Count(t, '.') == 0
    ensures !EndsWith(t, ".TO")
  {
    CountZero(t, '.');
    if |t| >= 3 {
      assert t[|t| - 3..][0] == t[|t| - 3] != '.';
    }
  }

  /** So a symbol already carrying the suffix gets a second one. */
  lemma TsxSymbolAlwaysAppends(raw: string)
    ensures TsxSymbol(raw) == IndexSymbol(Strip(raw)) + ".TO"
  {
    IndexSymbolShape(Strip(raw));
    TsxGuardNeverSkips(IndexSymbol(Strip(raw)));
  }

  /** "RY.TO" becomes "RY-TO.TO", not "RY.TO". */
  lemma TsxExampleSuffixed()
    ensures TsxSymbol("RY.TO") == "RY-TO.TO"
  {
    StripRY();
    DashRY();
    TsxSymbolAlwaysAppends("RY.TO");
  }

  lemma StripRY()
    ensures Strip("RY.TO") == "RY.TO"
  {
    assert !IsSpace('O') && !IsSpace('R');
    assert TrimRight("RY.TO") == "RY.TO";
    assert TrimLeft("RY.TO") == "RY.TO";
  }

  lemma DashRY()
    ensures IndexSymbol("RY.TO") == "RY-TO"
  {
    var d := IndexSymbol("RY.TO");
    IndexSymbolShape("RY.TO");
    assert |d| == 5 && d[0] == 'R' && d[1] == 'Y' && d[2] == '-' && d[3] == 'T' && d[4] == 'O';
  }

  /** A share class: "TECK.B" becomes "TECK-B.TO". */
  lemma TsxExampleShareClass()
    ensures TsxSymbol("TECK.B") == "TECK-B.TO"
  {
    StripTECK();
    DashTECK();
    TsxSymbolAlwaysAppends("TECK.B");
  }

  lemma StripTECK()
    ensures Strip("TECK.B") == "TECK.B"
  {
    assert !IsSpace('B') && !IsSpace('T');
    assert TrimRight("TECK.B") == "TECK.B";
    assert TrimLeft("TECK.B") == "TECK.B";
  }

  lemma DashTECK()
    ensures IndexSymbol("TECK.B") == "TECK-B"
  {
    var d := IndexSymbol("TECK.B");
    IndexSymbolShape("TECK.B");
    assert |d| == 6 && d[0] == 'T' && d[1] == 'E' && d[2] == 'C' && d[3] == 'K' && d[4] == '-' && d[5] == 'B';
  }

  /** The TSX source: every cell goes through `str`, then the TSX rule. */
  function TsxTickers(column: Option<seq<Cell>>): (r: seq<string>)
    ensures column.None? ==> r == []
    ensures column.Some? ==> |r| == |column.value|
    ensures column.Some? ==>
      forall i :: 0 <= i < |r| ==> r[i] == TsxSymbol(Show(column.value[i])) && EndsWith(r[i], ".TO")
  {
    match column
    case None => []
    case Some(cells) => seq(|cells|, i requires 0 <= i < |cells| => TsxSymbol(Show(cells[i])))
  }

  /** The hand-curated list of extra symbols: eighteen US symbols, so each gets a single attempt. */
  function CustomTickers(): (r: seq<string>)
    ensures |r| == 18
    ensures forall i :: 0 <= i < |r| ==> !EndsWith(r[i], ".TO")
  {
    ["GME", "AMC", "PLTR", "HOOD", "COIN", "RIVN", "SOFI",
     "ARKK", "SPY", "QQQ", "IWM", "APLD", "MARA", "CIFR", "IREN", "AEVA", "INOD", "NBIS"]
  }

  predicate NoDups(s: seq<string>)
  {
    forall i, j :: 0 <= i < j < |s| ==> s[i] != s[j]
  }

  /** Removes repeated elements, keeping each first occurrence. */
  function Dedup(s: seq<string>): (r: seq<string>)
    ensures NoDups(r)
    ensures forall x :: x in r <==> x in s
    ensures |r| <= |s|
    decreases |s|
  {
    if |s| == 0 then []
    else
      var init := s[..|s| - 1];
      var last := s[|s| - 1];
      assert s == init + [last];
      var r := Dedup(init);
      if last in r then r else r + [last]
  }

  lemma {:induction false} DedupOfDistinct(s: seq<string>)
    requires NoDups(s)
    ensures Dedup(s) == s
    decreases |s|
  {
    if |s| > 0 {
      var init := s[..|s| - 1];
      DedupOfDistinct(init);
      assert s[|s| - 1] !in init;
      assert init + [s[|s| - 1]] == s;
    }
  }

  /** Deduplicating twice is the same as deduplicating once. */
  lemma DedupIdempotent(s: seq<string>)
    ensures Dedup(Dedup(s)) == Dedup(s)
  {
    DedupOfDistinct(Dedup(s));
  }

  /** In a duplicate-free sequence every element occurs exactly once. */
  lemma {:induction false} DistinctMultiplicity(s: seq<string>, x: string)
    requires NoDups(s)
    ensures multiset(s)[x] == (if x in s then 1 else 0)
    decreases |s|
  {
    if |s| > 0 {
      assert s == [s[0]] + s[1..];
      assert multiset(s) == multiset{s[0]} + multiset(s[1..]);
      DistinctMultiplicity(s[1..], x);
      assert s[0] !in s[1..];
    }
  }

  /** Two duplicate-free sequences with the same elements are permutations of each other. */
  lemma DistinctPermutation(a: seq<string>, b: seq<string>)
    requires NoDups(a) && NoDups(b)
    requires forall x :: x in a <==> x in b
    ensures multiset(a) == multiset(b)
    ensures |a| == |b|
  {
    forall x ensures multiset(a)[x] == multiset(b)[x] {
      DistinctMultiplicity(a, x);
      DistinctMultiplicity(b, x);
    }
    assert multiset(a) == multiset(b);
    assert |multiset(a)| == |a| && |multiset(b)| == |b|;
  }

  /**
    * `list(set(sp500 + nasdaq + russell + tsx + custom))`: Python's set
    * iteration order is unspecified, so a master list is any
    * duplicate-free ordering of the union of the sources.
    */
  ghost predicate IsMasterList(m: seq<string>, sp500: seq<string>, nasdaq: seq<string>,
                         russell: seq<string>, tsx: seq<string>, custom: seq<string>)
  {
    && NoDups(m)
    && forall x :: x in m <==> x in sp500 || x in nasdaq || x in russell || x in tsx || x in custom
  }

  /** One master list: the union in first-occurrence order. */
  function MasterList(sp500: seq<string>, nasdaq: seq<string>, russell: seq<string>,
                      tsx: seq<string>, custom: seq<string>): (m: seq<string>)
    ensures IsMasterList(m, sp500, nasdaq, russell, tsx, custom)
    ensures |m| <= |sp500| + |nasdaq| + |russell| + |tsx| + |custom|
  {
    Dedup(sp500 + nasdaq + russell + tsx + custom)
  }

  /** Whatever order the set yields, all master lists hold the same tickers once each. */
  lemma MasterListsArePermutations(m1: seq<string>, m2: seq<string>, sp500: seq<string>, nasdaq: seq<string>,
                                   russell: seq<string>, tsx: seq<string>, custom: seq<string>)
    requires IsMasterList(m1, sp500, nasdaq, russell, tsx, custom)
    requires IsMasterList(m2, sp500, nasdaq, russell, tsx, custom)
    ensures multiset(m1) == multiset(m2)
  {
    DistinctPermutation(m1, m2);
  }

  /**
    * Deduplication depends only on which tickers occur: any two inputs
    * with the same elements (the sources concatenated in any order, or
    * with repeats) give permutations of one list.
    */
  lemma MasterListOrderIndependent(a: seq<string>, b: seq<string>)
    requires forall x :: x in a <==> x in b
    ensures multiset(Dedup(a)) == multiset(Dedup(b))
    ensures |Dedup(a)| == |Dedup(b)|
  {
    DistinctPermutation(Dedup(a), Dedup(b));
  }
}
