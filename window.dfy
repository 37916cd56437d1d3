/**
 * The grouping window of pkg/transactions/window.go: a Window holds one Tab
 * per valuta year, a Tab one Category per month name, a Category one Summary
 * per beneficiary, and a Summary the transactions filed under it. Every level
 * keeps its children twice, in a slice in first-seen order and in a map from
 * title to child; GetSum caches totals in the sum fields, OnClick toggles a
 * summary's details and GetRows flattens a subtree into four-column rows.
 *
 * Amounts are whole cents, so every sum is exact and "%.2f" is FormatCents.
 * Summary and Category carry the titles of their ancestors as ghost
 * constants: they never change, and they tell apart objects that sit under
 * different parents.
 */
module Transactions {
  import opened Text
  import opened Records
  import opened Order
  import opened Aggregation

  /** A table row: date, beneficiary, description and sum columns. */
  type Row = seq<string>

  /** CreateRow: the four cells in column order. */
  function CreateRow(date: string, beneficiary: string, description: string, sum: string): (r: Row)
    ensures |r| == 4
    ensures r[0] == date && r[1] == beneficiary && r[2] == description && r[3] == sum
  {
    [date, beneficiary, description, sum]
  }

  /** The detail row of one transaction under a summary whose details are shown. */
  function TransactionRow(t: Transaction): Row
  {
    CreateRow("", FormatDayMonth(t.valutaDate), t.purpose, FormatCents(t.amount))
  }

  /** One detail row per transaction, in insertion order. */
  function TransactionRows(ts: seq<Transaction>): (rows: seq<Row>)
    ensures |rows| == |ts|
    ensures forall i :: 0 <= i < |ts| ==> rows[i] == TransactionRow(ts[i])
  {
    if ts == [] then [] else TransactionRows(ts[..|ts| - 1]) + [TransactionRow(ts[|ts| - 1])]
  }

  lemma TransactionRowsAppend(ts: seq<Transaction>, i: nat)
    requires i < |ts|
    ensures TransactionRows(ts[..i + 1]) == TransactionRows(ts[..i]) + [TransactionRow(ts[i])]
  {
    assert ts[..i + 1][..i] == ts[..i];
  }

  // ---------------------------------------------------------------- Summary

  class Summary {
    const title: string
    ghost const year: string
    ghost const month: string
    var sum: int
    var showDetails: bool
    var transactions: seq<Transaction>

    /** NewSummary: no transactions, details hidden, sum zero. */
    constructor (title: string, ghost year: string, ghost month: string)
      ensures this.title == title && this.year == year && this.month == month
      ensures sum == 0 && !showDetails && transactions == []
    {
      this.title := title;
      this.year := year;
      this.month := month;
      sum := 0;
      showDetails := false;
      transactions := [];
    }

    method AddTransaction(t: Transaction)
      modifies this`transactions
      ensures transactions == old(transactions) + [t]
    {
      transactions := transactions + [t];
    }

    /** Recomputes the cached sum from the transactions and returns it. */
    method GetSum() returns (r: int)
      modifies this`sum
      ensures r == Total(transactions) && sum == r
    {
      sum := 0;
      for i := 0 to |transactions|
        invariant sum == Total(transactions[..i])
      {
        assert transactions[..i + 1][..i] == transactions[..i];
        sum := sum + transactions[i].amount;
      }
      assert transactions[..|transactions|] == transactions;
      r := sum;
    }

    method OnClick()
      modifies this`showDetails
      ensures showDetails == !old(showDetails)
    {
      showDetails := !showDetails;
    }

    /** The summary's rows; like GetSum, it refreshes the cached sum. */
    method GetRows() returns (rows: seq<Row>)
      modifies this`sum
      ensures rows == SummaryRows(this) && sum == Total(transactions)
    {
      var total := GetSum();
      var head := CreateRow("", title, "", FormatCents(total));
      rows := [head];
      if !showDetails {
        return;
      }
      var ts := transactions;
      for i := 0 to |ts|
        invariant rows == [head] + TransactionRows(ts[..i])
        invariant sum == total
      {
        TransactionRowsAppend(ts, i);
        rows := rows + [TransactionRow(ts[i])];
      }
      assert ts[..|ts|] == ts;
    }
  }

  /**
   * The rows of one summary: its own row (beneficiary and total), then, only
   * while its details are shown, one row per transaction in insertion order.
   */
  function SummaryRows(s: Summary): (rows: seq<Row>)
    reads s`showDetails, s`transactions
    ensures |rows| == if s.showDetails then 1 + |s.transactions| else 1
    ensures rows[0] == CreateRow("", s.title, "", FormatCents(Total(s.transactions)))
    ensures forall i :: 1 <= i < |rows| ==> rows[i] == TransactionRow(s.transactions[i - 1])
  {
    var head := CreateRow("", s.title, "", FormatCents(Total(s.transactions)));
    var details := if s.showDetails then TransactionRows(s.transactions) else [];
    assert ([head] + details)[1..] == details;
    [head] + details
  }

  /** OnClick twice restores the details flag and leaves the rows, and so the sum, as they were. */
  method OnClickTwice(s: Summary)
    modifies s`showDetails
    ensures s.showDetails == old(s.showDetails)
    ensures SummaryRows(s) == old(SummaryRows(s))
  {
    s.OnClick();
    s.OnClick();
  }

  /** Titles of a slice of summaries, in slice order. */
  function SummaryTitles(ss: seq<Summary>): (r: seq<string>)
    ensures |r| == |ss|
  {
    if ss == [] then [] else SummaryTitles(ss[..|ss| - 1]) + [ss[|ss| - 1].title]
  }

  lemma {:induction false} SummaryTitlesAt(ss: seq<Summary>)
    ensures forall i :: 0 <= i < |ss| ==> SummaryTitles(ss)[i] == ss[i].title
  {
    if ss != [] {
      SummaryTitlesAt(ss[..|ss| - 1]);
    }
  }

  /** Sum over the summaries of the amounts they hold. */
  function SummariesTotal(ss: seq<Summary>): int
    reads ss`transactions
  {
    if ss == [] then 0 else SummariesTotal(ss[..|ss| - 1]) + Total(ss[|ss| - 1].transactions)
  }

  /** How many transactions sit under summaries whose details are shown. */
  function Shown(ss: seq<Summary>): nat
    reads ss`showDetails, ss`transactions
  {
    if ss == [] then 0
    else Shown(ss[..|ss| - 1]) + (if ss[|ss| - 1].showDetails then |ss[|ss| - 1].transactions| else 0)
  }

  /** The rows of a slice of summaries: one row each, plus the shown transactions. */
  function SummaryListRows(ss: seq<Summary>): (rows: seq<Row>)
    reads ss`showDetails, ss`transactions
    ensures |rows| == |ss| + Shown(ss)
  {
    if ss == [] then [] else SummaryListRows(ss[..|ss| - 1]) + SummaryRows(ss[|ss| - 1])
  }

  // --------------------------------------------------------------- Category

  class Category {
    const title: string
    ghost const year: string
    var sum: int
    var orderedSummaries: seq<Summary>
    var summaries: map<string, Summary>

    /** NewCategory: no summaries. */
    constructor (title: string, ghost year: string)
      ensures this.title == title && this.year == year
      ensures sum == 0 && orderedSummaries == [] && summaries == map[]
    {
      this.title := title;
      this.year := year;
      sum := 0;
      orderedSummaries := [];
      summaries := map[];
    }

    /** The map is the index of the slice by title, and titles are distinct. */
    ghost predicate Indexed()
      reads this`orderedSummaries, this`summaries
    {
      NoDuplicates(SummaryTitles(orderedSummaries)) && summaries == SummaryIndex(orderedSummaries)
    }

    /** Whether a summary is stored under title; while indexed, whether one in the slice has that title. */
    function HasSummary(title: string): (b: bool)
      reads this`summaries, this`orderedSummaries
      ensures Indexed() ==> (b <==> title in SummaryTitles(orderedSummaries))
    {
      SummaryLookup(this, title);
      title in summaries
    }

    method AddSummary(s: Summary)
      modifies this`summaries, this`orderedSummaries
      ensures summaries == old(summaries)[s.title := s]
      ensures orderedSummaries == old(orderedSummaries) + [s]
      ensures old(Indexed()) ==> (Indexed() <==> s.title !in old(summaries))
    {
      summaries := summaries[s.title := s];
      orderedSummaries := orderedSummaries + [s];
      assert SummaryTitles(orderedSummaries) == SummaryTitles(old(orderedSummaries)) + [s.title];
      assert orderedSummaries[..|orderedSummaries| - 1] == old(orderedSummaries);
      NoDuplicatesAppend(SummaryTitles(old(orderedSummaries)), s.title);
      SummaryIndexKeys(old(orderedSummaries));
    }

    /** The summary stored under title, or nil when there is none; while indexed, the slice's summary of that title. */
    function GetSummary(title: string): (s: Summary?)
      reads this`summaries, this`orderedSummaries
      ensures s == null <==> title !in summaries
      ensures Indexed() && s != null ==> s in orderedSummaries && s.title == title
    {
      SummaryLookup(this, title);
      if title in summaries then summaries[title] else null
    }

    /** Recomputes every summary's sum, then this category's sum as their total. */
    method GetSum() returns (r: int)
      modifies this`sum, orderedSummaries`sum
      ensures r == SummariesTotal(orderedSummaries) && sum == r
      ensures forall s :: s in orderedSummaries ==> s.sum == Total(s.transactions)
    {
      sum := 0;
      for i := 0 to |orderedSummaries|
        invariant sum == SummariesTotal(orderedSummaries[..i])
        invariant forall j :: 0 <= j < i ==> orderedSummaries[j].sum == Total(orderedSummaries[j].transactions)
      {
        var x := orderedSummaries[i].GetSum();
        assert orderedSummaries[..i + 1][..i] == orderedSummaries[..i];
        sum := sum + x;
      }
      assert orderedSummaries[..|orderedSummaries|] == orderedSummaries;
      r := sum;
    }

    /** The category's rows; like GetSum, it refreshes its own and its summaries' cached sums. */
    method GetRows() returns (rows: seq<Row>)
      modifies this`sum, orderedSummaries`sum
      ensures rows == CategoryRows(this) && sum == SummariesTotal(orderedSummaries)
      ensures forall x :: x in orderedSummaries ==> x.sum == Total(x.transactions)
    {
      var total := GetSum();
      var summaryRows := GetSummaryListRows(orderedSummaries);
      rows := [CreateRow("- " + title, "", "", FormatCents(total))] + summaryRows;
    }
  }

  /** The rows of each summary of the slice in turn, refreshing their sums. */
  method GetSummaryListRows(ss: seq<Summary>) returns (rows: seq<Row>)
    modifies ss`sum
    ensures rows == SummaryListRows(ss)
    ensures forall x :: x in ss ==> x.sum == Total(x.transactions)
  {
    rows := [];
    for i := 0 to |ss|
      invariant rows == SummaryListRows(ss[..i])
      invariant forall j :: 0 <= j < i ==> ss[j].sum == Total(ss[j].transactions)
    {
      rows := AppendSummaryRows(ss, i, ss[i], rows);
    }
    assert ss[..|ss|] == ss;
  }

  /** One pass of the loop over a category's summaries: the rows of summary i, its sum refreshed. */
  method AppendSummaryRows(ss: seq<Summary>, i: nat, x: Summary, rows: seq<Row>) returns (rows': seq<Row>)
    requires i < |ss| && x == ss[i] && rows == SummaryListRows(ss[..i])
    requires forall j :: 0 <= j < i ==> ss[j].sum == Total(ss[j].transactions)
    modifies x`sum
    ensures rows' == SummaryListRows(ss[..i + 1])
    ensures forall j :: 0 <= j < i + 1 ==> ss[j].sum == Total(ss[j].transactions)
  {
    label Before:
    var more := x.GetRows();
    assert SummariesKept@Before(ss[..i]);
    SummaryListRowsKept@Before(ss[..i]);
    ListRowsAppend(ss, i);
    forall j | 0 <= j < i + 1
      ensures ss[j].sum == Total(ss[j].transactions)
    {
      if ss[j] != ss[i] {
        assert ss[j].sum == old@Before(ss[j].sum);
      }
    }
    rows' := rows + more;
  }

  /** The summaries of ss keep their details flag and transactions. */
  twostate predicate SummariesKept(ss: seq<Summary>)
    reads ss
  {
    forall i :: 0 <= i < |ss| ==> (var x: Summary := ss[i]; unchanged(x`showDetails, x`transactions))
  }

  /** Summaries that keep their details flag and transactions keep their rows and total. */
  twostate lemma SummaryListRowsKept(ss: seq<Summary>)
    requires SummariesKept(ss)
    ensures SummaryListRows(ss) == old(SummaryListRows(ss))
    ensures SummariesTotal(ss) == old(SummariesTotal(ss))
  {
  }

  lemma ListRowsAppend(ss: seq<Summary>, i: nat)
    requires i < |ss|
    ensures SummaryListRows(ss[..i + 1]) == SummaryListRows(ss[..i]) + SummaryRows(ss[i])
  {
    assert ss[..i + 1][..i] == ss[..i];
  }

  /** A slice of summaries indexed by title; a later entry replaces an earlier one with its title. */
  function SummaryIndex(ss: seq<Summary>): map<string, Summary>
  {
    if ss == [] then map[] else SummaryIndex(ss[..|ss| - 1])[ss[|ss| - 1].title := ss[|ss| - 1]]
  }

  /** The index has exactly the slice's titles as keys, and with distinct titles maps each to its summary. */
  lemma {:induction false} SummaryIndexKeys(ss: seq<Summary>)
    ensures forall k :: k in SummaryIndex(ss) <==> k in SummaryTitles(ss)
    ensures NoDuplicates(SummaryTitles(ss)) ==> forall i :: 0 <= i < |ss| ==> ss[i].title in SummaryIndex(ss) && SummaryIndex(ss)[ss[i].title] == ss[i]
  {
    if ss != [] {
      var init, last := ss[..|ss| - 1], ss[|ss| - 1];
      SummaryIndexKeys(init);
      assert SummaryTitles(ss) == SummaryTitles(init) + [last.title];
      if NoDuplicates(SummaryTitles(ss)) {
        NoDuplicatesAppend(SummaryTitles(init), last.title);
        SummaryTitlesAt(init);
        forall i | 0 <= i < |init|
          ensures ss[i].title in SummaryIndex(ss) && SummaryIndex(ss)[ss[i].title] == ss[i]
        {
          assert ss[i] == init[i] && SummaryTitles(init)[i] == init[i].title;
        }
      }
    }
  }


  /** In an indexed category, the map finds by title exactly the slice's summary of that title. */
  lemma SummaryLookup(c: Category, k: string)
    ensures c.Indexed() ==> (k in c.summaries <==> k in SummaryTitles(c.orderedSummaries))
    ensures c.Indexed() ==> (k in c.summaries ==> c.summaries[k] in c.orderedSummaries && c.summaries[k].title == k)
    ensures c.Indexed() ==> (forall x :: x in c.orderedSummaries && x.title == k ==> k in c.summaries && x == c.summaries[k])
  {
    if c.Indexed() {
      SummaryIndexKeys(c.orderedSummaries);
      SummaryTitlesAt(c.orderedSummaries);
      forall x | x in c.orderedSummaries && x.title == k
        ensures x == c.summaries[k]
      {
        var i :| 0 <= i < |c.orderedSummaries| && c.orderedSummaries[i] == x;
      }
      if k in c.summaries {
        var i :| 0 <= i < |c.orderedSummaries| && SummaryTitles(c.orderedSummaries)[i] == k;
        assert c.summaries[k] == c.orderedSummaries[i];
      }
    }
  }

  /**
   * The rows of a category: "- " and the month name with the category's
   * total, then each summary's rows in slice order.
   */
  function CategoryRows(c: Category): (rows: seq<Row>)
    reads c`orderedSummaries, c.orderedSummaries`showDetails, c.orderedSummaries`transactions
    ensures |rows| == 1 + |c.orderedSummaries| + Shown(c.orderedSummaries)
    ensures rows[0] == CreateRow("- " + c.title, "", "", FormatCents(SummariesTotal(c.orderedSummaries)))
  {
    [CreateRow("- " + c.title, "", "", FormatCents(SummariesTotal(c.orderedSummaries)))]
      + SummaryListRows(c.orderedSummaries)
  }

  /** Titles of a slice of categories, in slice order. */
  function CategoryTitles(cs: seq<Category>): (r: seq<string>)
    ensures |r| == |cs|
  {
    if cs == [] then [] else CategoryTitles(cs[..|cs| - 1]) + [cs[|cs| - 1].title]
  }

  lemma {:induction false} CategoryTitlesAt(cs: seq<Category>)
    ensures forall i :: 0 <= i < |cs| ==> CategoryTitles(cs)[i] == cs[i].title
  {
    if cs != [] {
      CategoryTitlesAt(cs[..|cs| - 1]);
    }
  }

  /** A slice of categories indexed by title; a later entry replaces an earlier one with its title. */
  function CategoryIndex(cs: seq<Category>): map<string, Category>
  {
    if cs == [] then map[] else CategoryIndex(cs[..|cs| - 1])[cs[|cs| - 1].title := cs[|cs| - 1]]
  }

  /** The index has exactly the slice's titles as keys, and with distinct titles maps each to its category. */
  lemma {:induction false} CategoryIndexKeys(cs: seq<Category>)
    ensures forall k :: k in CategoryIndex(cs) <==> k in CategoryTitles(cs)
    ensures NoDuplicates(CategoryTitles(cs)) ==> forall i :: 0 <= i < |cs| ==> cs[i].title in CategoryIndex(cs) && CategoryIndex(cs)[cs[i].title] == cs[i]
  {
    if cs != [] {
      var init, last := cs[..|cs| - 1], cs[|cs| - 1];
      CategoryIndexKeys(init);
      assert CategoryTitles(cs) == CategoryTitles(init) + [last.title];
      if NoDuplicates(CategoryTitles(cs)) {
        NoDuplicatesAppend(CategoryTitles(init), last.title);
        CategoryTitlesAt(init);
        forall i | 0 <= i < |init|
          ensures cs[i].title in CategoryIndex(cs) && CategoryIndex(cs)[cs[i].title] == cs[i]
        {
          assert cs[i] == init[i] && CategoryTitles(init)[i] == init[i].title;
        }
      }
    }
  }


  /** In an indexed tab, the map finds by title exactly the slice's category of that title. */
  lemma CategoryLookup(tab: Tab, k: string)
    ensures tab.Indexed() ==> (k in tab.categories <==> k in CategoryTitles(tab.orderedCategories))
    ensures tab.Indexed() ==> (k in tab.categories ==> tab.categories[k] in tab.orderedCategories && tab.categories[k].title == k)
    ensures tab.Indexed() ==> (forall c :: c in tab.orderedCategories && c.title == k ==> k in tab.categories && c == tab.categories[k])
  {
    if tab.Indexed() {
      CategoryIndexKeys(tab.orderedCategories);
      CategoryTitlesAt(tab.orderedCategories);
      forall c | c in tab.orderedCategories && c.title == k
        ensures c == tab.categories[k]
      {
        var i :| 0 <= i < |tab.orderedCategories| && tab.orderedCategories[i] == c;
      }
      if k in tab.categories {
        var i :| 0 <= i < |tab.orderedCategories| && CategoryTitles(tab.orderedCategories)[i] == k;
        assert tab.categories[k] == tab.orderedCategories[i];
      }
    }
  }

  /** The summaries held by a slice of categories. */
  ghost function SummariesOf(cs: seq<Category>): set<Summary>
    reads cs`orderedSummaries
  {
    set c, x | c in cs && x in c.orderedSummaries :: x
  }

  lemma SummariesOfHas(cs: seq<Category>, i: nat)
    requires i < |cs|
    ensures forall x :: x in cs[i].orderedSummaries ==> x in SummariesOf(cs)
    ensures SummariesOf(cs[..i]) <= SummariesOf(cs)
  {
    forall x | x in cs[i].orderedSummaries
      ensures x in SummariesOf(cs)
    {
      var c := cs[i];
      assert c in cs;
    }
  }

  lemma InSummariesOf(cs: seq<Category>, c: Category)
    requires c in cs
    ensures forall x :: x in c.orderedSummaries ==> x in SummariesOf(cs)
  {
  }

  /** The rows of a slice of categories: each category's rows in slice order. */
  function CategoryListRows(cs: seq<Category>): seq<Row>
    reads cs`orderedSummaries, SummariesOf(cs)`showDetails, SummariesOf(cs)`transactions
  {
    if cs == [] then []
    else
      SummariesOfHas(cs, |cs| - 1);
      CategoryListRows(cs[..|cs| - 1]) + CategoryRows(cs[|cs| - 1])
  }

  // -------------------------------------------------------------------- Tab

  class Tab {
    const title: string
    var orderedCategories: seq<Category>
    var categories: map<string, Category>

    /** NewTab: no categories. */
    constructor (title: string)
      ensures this.title == title && orderedCategories == [] && categories == map[]
    {
      this.title := title;
      orderedCategories := [];
      categories := map[];
    }

    /** The map is the index of the slice by title, and titles are distinct. */
    ghost predicate Indexed()
      reads this`orderedCategories, this`categories
    {
      NoDuplicates(CategoryTitles(orderedCategories)) && categories == CategoryIndex(orderedCategories)
    }

    /**
     * Scans the map's values for a category with this title. It agrees with
     * key membership while the map is indexed by title.
     */
    method HasCategory(title: string) returns (b: bool)
      ensures b <==> exists c :: c in categories.Values && c.title == title
      ensures Indexed() ==> (b <==> title in categories)
    {
      var rest := categories.Values;
      while rest != {}
        invariant rest <= categories.Values
        invariant forall c :: c in categories.Values && c !in rest ==> c.title != title
        decreases |rest|
      {
        var c :| c in rest;
        if c.title == title {
          b := true;
          IndexedValues(title);
          return;
        }
        rest := rest - {c};
      }
      b := false;
      IndexedValues(title);
    }

    /** While indexed, the map holds a category titled k exactly under key k. */
    lemma IndexedValues(k: string)
      ensures Indexed() ==> ((exists c :: c in categories.Values && c.title == k) <==> k in categories)
    {
      if Indexed() {
        CategoryIndexKeys(orderedCategories);
        CategoryTitlesAt(orderedCategories);
        if k in categories {
          var i :| 0 <= i < |orderedCategories| && CategoryTitles(orderedCategories)[i] == k;
          assert categories[k] == orderedCategories[i];
          assert categories[k] in categories.Values;
        }
        if c :| c in categories.Values && c.title == k {
          var key :| key in categories && categories[key] == c;
          var i :| 0 <= i < |orderedCategories| && CategoryTitles(orderedCategories)[i] == key;
          assert orderedCategories[i] == c;
        }
      }
    }

    method AddCategory(c: Category)
      modifies this`categories, this`orderedCategories
      ensures categories == old(categories)[c.title := c]
      ensures orderedCategories == old(orderedCategories) + [c]
      ensures old(Indexed()) ==> (Indexed() <==> c.title !in old(categories))
      ensures forall c' :: c' in old(orderedCategories) ==> CategoryUnchanged(c')
    {
      categories := categories[c.title := c];
      orderedCategories := orderedCategories + [c];
      assert CategoryTitles(orderedCategories) == CategoryTitles(old(orderedCategories)) + [c.title];
      assert orderedCategories[..|orderedCategories| - 1] == old(orderedCategories);
      NoDuplicatesAppend(CategoryTitles(old(orderedCategories)), c.title);
      CategoryIndexKeys(old(orderedCategories));
    }

    /** The category stored under title, or nil when there is none; while indexed, the slice's category of that title. */
    function GetCategory(title: string): (c: Category?)
      reads this`categories, this`orderedCategories
      ensures c == null <==> title !in categories
      ensures Indexed() && c != null ==> c in orderedCategories && c.title == title
    {
      CategoryLookup(this, title);
      if title in categories then categories[title] else null
    }

    /** The tab's rows, refreshing the cached sums below it. */
    method GetRows() returns (rows: seq<Row>)
      modifies orderedCategories`sum, SummariesOf(orderedCategories)`sum
      ensures rows == old(TabRows(this)) == TabRows(this)
      ensures forall c :: c in orderedCategories ==> c.sum == SummariesTotal(c.orderedSummaries)
      ensures forall x :: x in SummariesOf(orderedCategories) ==> x.sum == Total(x.transactions)
    {
      var categoryRows := GetCategoryListRows(orderedCategories);
      rows := [CreateRow("[ " + title + " ]", "", "", "")] + categoryRows;
    }
  }

  /** The rows of each category of the slice in turn, refreshing their sums. */
  method GetCategoryListRows(cs: seq<Category>) returns (rows: seq<Row>)
    modifies cs`sum, SummariesOf(cs)`sum
    ensures rows == old(CategoryListRows(cs))
    ensures forall c :: c in cs ==> c.sum == SummariesTotal(c.orderedSummaries)
    ensures forall x :: x in SummariesOf(cs) ==> x.sum == Total(x.transactions)
  {
    label Start:
    CategoryListRowsSteps(cs);
    rows := [];
    for i := 0 to |cs|
      invariant rows == old@Start(CategoryListRows(cs[..i]))
      invariant Refreshed(cs, i)
    {
      SummariesOfHas(cs, i);
      CategoryRowsKept@Start(cs[i]);
      var more := AppendCategoryRows(cs, i, cs[i]);
      rows := rows + more;
    }
    forall x | x in SummariesOf(cs)
      ensures x.sum == Total(x.transactions)
    {
      var c :| c in cs && x in c.orderedSummaries;
    }
  }

  /** The first n categories of cs and their summaries hold their refreshed sums. */
  ghost predicate Refreshed(cs: seq<Category>, n: nat)
    reads cs, SummariesOf(cs)
  {
    (forall j :: 0 <= j < n && j < |cs| ==> (SummariesOfHas(cs, j); cs[j].sum == SummariesTotal(cs[j].orderedSummaries))) &&
    (forall j, x :: 0 <= j < n && j < |cs| && x in cs[j].orderedSummaries ==> (SummariesOfHas(cs, j); x.sum == Total(x.transactions)))
  }

  /** One pass of the loop over a tab's categories: category i's rows, its sums refreshed. */
  method AppendCategoryRows(cs: seq<Category>, i: nat, c: Category) returns (more: seq<Row>)
    requires i < |cs| && c == cs[i] && Refreshed(cs, i)
    modifies c`sum, c.orderedSummaries`sum
    ensures more == old(CategoryRows(c)) && Refreshed(cs, i + 1)
  {
    label Before:
    more := c.GetRows();
    CategoryRowsKept@Before(c);
    forall j | 0 <= j < i
      ensures cs[j].sum == SummariesTotal(cs[j].orderedSummaries)
    {
      SummaryListRowsKept@Before(cs[j].orderedSummaries);
    }
  }

  /** A category that keeps its summaries, their details flags and transactions keeps its rows. */
  twostate lemma CategoryRowsKept(c: Category)
    requires unchanged(c`orderedSummaries) && SummariesKept(c.orderedSummaries)
    ensures CategoryRows(c) == old(CategoryRows(c))
  {
    SummaryListRowsKept(c.orderedSummaries);
  }

  lemma CategoryListRowsSteps(cs: seq<Category>)
    ensures forall i :: 0 <= i < |cs| ==> CategoryListRows(cs[..i + 1]) == CategoryListRows(cs[..i]) + CategoryRows(cs[i])
  {
    forall i | 0 <= i < |cs|
      ensures CategoryListRows(cs[..i + 1]) == CategoryListRows(cs[..i]) + CategoryRows(cs[i])
    {
      CategoryListRowsAppend(cs, i);
    }
  }

  lemma CategoryListRowsAppend(cs: seq<Category>, i: nat)
    requires i < |cs|
    ensures CategoryListRows(cs[..i + 1]) == CategoryListRows(cs[..i]) + CategoryRows(cs[i])
  {
    assert cs[..i + 1][..i] == cs[..i];
  }

  /** The rows of a tab: the header "[ year ]", then each category's rows in slice order. */
  function TabRows(t: Tab): seq<Row>
    reads t`orderedCategories, t.orderedCategories`orderedSummaries
    reads SummariesOf(t.orderedCategories)`showDetails, SummariesOf(t.orderedCategories)`transactions
  {
    [CreateRow("[ " + t.title + " ]", "", "", "")] + CategoryListRows(t.orderedCategories)
  }

  /** Titles of a slice of tabs, in slice order. */
  function TabTitles(ts: seq<Tab>): (r: seq<string>)
    ensures |r| == |ts|
  {
    if ts == [] then [] else TabTitles(ts[..|ts| - 1]) + [ts[|ts| - 1].title]
  }

  lemma {:induction false} TabTitlesAt(ts: seq<Tab>)
    ensures forall i :: 0 <= i < |ts| ==> TabTitles(ts)[i] == ts[i].title
  {
    if ts != [] {
      TabTitlesAt(ts[..|ts| - 1]);
    }
  }

  /** A slice of tabs indexed by title; a later entry replaces an earlier one with its title. */
  function TabIndex(ts: seq<Tab>): map<string, Tab>
  {
    if ts == [] then map[] else TabIndex(ts[..|ts| - 1])[ts[|ts| - 1].title := ts[|ts| - 1]]
  }

  /** The index has exactly the slice's titles as keys, and with distinct titles maps each to its tab. */
  lemma {:induction false} TabIndexKeys(ts: seq<Tab>)
    ensures forall k :: k in TabIndex(ts) <==> k in TabTitles(ts)
    ensures NoDuplicates(TabTitles(ts)) ==> forall i :: 0 <= i < |ts| ==> ts[i].title in TabIndex(ts) && TabIndex(ts)[ts[i].title] == ts[i]
  {
    if ts != [] {
      var init, last := ts[..|ts| - 1], ts[|ts| - 1];
      TabIndexKeys(init);
      assert TabTitles(ts) == TabTitles(init) + [last.title];
      if NoDuplicates(TabTitles(ts)) {
        NoDuplicatesAppend(TabTitles(init), last.title);
        TabTitlesAt(init);
        forall i | 0 <= i < |init|
          ensures ts[i].title in TabIndex(ts) && TabIndex(ts)[ts[i].title] == ts[i]
        {
          assert ts[i] == init[i] && TabTitles(init)[i] == init[i].title;
        }
      }
    }
  }


  /** In an indexed window, the map finds by title exactly the slice's tab of that title. */
  lemma TabLookup(w: Window, k: string)
    ensures w.Indexed() ==> (k in w.tabs <==> k in TabTitles(w.orderedTabs))
    ensures w.Indexed() ==> (k in w.tabs ==> w.tabs[k] in w.orderedTabs && w.tabs[k].title == k)
    ensures w.Indexed() ==> (forall tab :: tab in w.orderedTabs && tab.title == k ==> k in w.tabs && tab == w.tabs[k])
  {
    if w.Indexed() {
      TabIndexKeys(w.orderedTabs);
      TabTitlesAt(w.orderedTabs);
      forall tab | tab in w.orderedTabs && tab.title == k
        ensures tab == w.tabs[k]
      {
        var i :| 0 <= i < |w.orderedTabs| && w.orderedTabs[i] == tab;
      }
      if k in w.tabs {
        var i :| 0 <= i < |w.orderedTabs| && TabTitles(w.orderedTabs)[i] == k;
        assert w.tabs[k] == w.orderedTabs[i];
      }
    }
  }

  /** The categories held by a slice of tabs. */
  ghost function CategoriesOf(ts: seq<Tab>): set<Category>
    reads ts`orderedCategories
  {
    set t, c | t in ts && c in t.orderedCategories :: c
  }

  lemma InCategoriesOf(ts: seq<Tab>, tab: Tab)
    requires tab in ts
    ensures forall c :: c in tab.orderedCategories ==> c in CategoriesOf(ts)
  {
  }

  /** The summaries held by the categories of a slice of tabs. */
  ghost function SummariesUnder(ts: seq<Tab>): set<Summary>
    reads ts`orderedCategories, CategoriesOf(ts)`orderedSummaries
  {
    set t, c, x | t in ts && c in t.orderedCategories && x in c.orderedSummaries :: x
  }

  lemma UnderHas(ts: seq<Tab>, i: nat)
    requires i < |ts|
    ensures forall c :: c in ts[i].orderedCategories ==> c in CategoriesOf(ts)
    ensures SummariesOf(ts[i].orderedCategories) <= SummariesUnder(ts)
    ensures CategoriesOf(ts[..i]) <= CategoriesOf(ts)
    ensures SummariesUnder(ts[..i]) <= SummariesUnder(ts)
  {
    var t := ts[i];
    assert t in ts;
    forall x | x in SummariesOf(t.orderedCategories)
      ensures x in SummariesUnder(ts)
    {
      var c :| c in t.orderedCategories && x in c.orderedSummaries;
    }
  }

  lemma InSummariesUnder(ts: seq<Tab>, tab: Tab)
    requires tab in ts
    ensures SummariesOf(tab.orderedCategories) <= SummariesUnder(ts)
  {
    forall x | x in SummariesOf(tab.orderedCategories)
      ensures x in SummariesUnder(ts)
    {
      var c :| c in tab.orderedCategories && x in c.orderedSummaries;
    }
  }

  /** The rows of a slice of tabs: each tab's rows in slice order. */
  ghost function TabListRows(ts: seq<Tab>): seq<Row>
    reads ts`orderedCategories, CategoriesOf(ts)`orderedSummaries
    reads SummariesUnder(ts)`showDetails, SummariesUnder(ts)`transactions
  {
    if ts == [] then []
    else
      UnderHas(ts, |ts| - 1);
      TabListRows(ts[..|ts| - 1]) + TabRows(ts[|ts| - 1])
  }

  lemma TabListRowsSteps(ts: seq<Tab>)
    ensures forall i :: 0 <= i < |ts| ==> TabListRows(ts[..i + 1]) == TabListRows(ts[..i]) + TabRows(ts[i])
  {
    forall i | 0 <= i < |ts|
      ensures TabListRows(ts[..i + 1]) == TabListRows(ts[..i]) + TabRows(ts[i])
    {
      TabListRowsAppend(ts, i);
    }
  }

  lemma TabListRowsAppend(ts: seq<Tab>, i: nat)
    requires i < |ts|
    ensures TabListRows(ts[..i + 1]) == TabListRows(ts[..i]) + TabRows(ts[i])
  {
    assert ts[..i + 1][..i] == ts[..i];
  }

  // ----------------------------------------------------------------- Window

  class Window {
    const title: string
    const transactions: seq<Transaction>
    var orderedTabs: seq<Tab>
    var tabs: map<string, Tab>

    /** The window value NewWindow starts from: titled "Transactions", no tabs. */
    constructor (transactions: seq<Transaction>)
      ensures title == "Transactions" && this.transactions == transactions
      ensures orderedTabs == [] && tabs == map[]
    {
      title := "Transactions";
      this.transactions := transactions;
      orderedTabs := [];
      tabs := map[];
    }

    /** The map is the index of the slice by title, and titles are distinct. */
    ghost predicate Indexed()
      reads this`orderedTabs, this`tabs
    {
      NoDuplicates(TabTitles(orderedTabs)) && tabs == TabIndex(orderedTabs)
    }

    /** Whether a tab is stored under title; while indexed, whether one in the slice has that title. */
    function HasTab(title: string): (b: bool)
      reads this`tabs, this`orderedTabs
      ensures Indexed() ==> (b <==> title in TabTitles(orderedTabs))
    {
      TabLookup(this, title);
      title in tabs
    }

    method AddTab(t: Tab)
      modifies this`tabs, this`orderedTabs
      ensures tabs == old(tabs)[t.title := t]
      ensures orderedTabs == old(orderedTabs) + [t]
      ensures old(Indexed()) ==> (Indexed() <==> t.title !in old(tabs))
      ensures forall tab :: tab in old(orderedTabs) ==> TabUnchanged(tab)
    {
      tabs := tabs[t.title := t];
      orderedTabs := orderedTabs + [t];
      assert TabTitles(orderedTabs) == TabTitles(old(orderedTabs)) + [t.title];
      assert orderedTabs[..|orderedTabs| - 1] == old(orderedTabs);
      NoDuplicatesAppend(TabTitles(old(orderedTabs)), t.title);
      TabIndexKeys(old(orderedTabs));
    }

    /** The tab stored under title, or nil when there is none; while indexed, the slice's tab of that title. */
    function GetTab(title: string): (t: Tab?)
      reads this`tabs, this`orderedTabs
      ensures t == null <==> title !in tabs
      ensures Indexed() && t != null ==> t in orderedTabs && t.title == title
    {
      TabLookup(this, title);
      if title in tabs then tabs[title] else null
    }

    /**
     * The window's rows, the tabs' rows in slice order. Each tab's GetRows
     * refreshes the sums below it; this contract states only the rows.
     */
    method GetRows() returns (rows: seq<Row>)
      modifies CategoriesOf(orderedTabs)`sum, SummariesUnder(orderedTabs)`sum
      ensures rows == old(TabListRows(orderedTabs)) == TabListRows(orderedTabs)
    {
      rows := GetTabListRows(orderedTabs);
    }
  }

  /** The rows of each tab of the slice in turn, as they were on entry: only cached sums change. */
  method GetTabListRows(ts: seq<Tab>) returns (rows: seq<Row>)
    modifies CategoriesOf(ts)`sum, SummariesUnder(ts)`sum
    ensures rows == old(TabListRows(ts))
  {
    label Start:
    TabListRowsSteps(ts);
    rows := [];
    for i := 0 to |ts|
      invariant rows == old@Start(TabListRows(ts[..i]))
    {
      UnderHas(ts, i);
      TabRowsKept@Start(ts[i]);
      var more := ts[i].GetRows();
      rows := rows + more;
    }
  }

  /** A tab whose categories keep their summaries, and those their details flags and transactions, keeps its rows. */
  twostate lemma TabRowsKept(tab: Tab)
    requires unchanged(tab`orderedCategories)
    requires forall c :: c in tab.orderedCategories ==> unchanged(c`orderedSummaries)
    requires forall x :: x in old(SummariesOf(tab.orderedCategories)) ==> unchanged(x`showDetails, x`transactions)
    ensures TabRows(tab) == old(TabRows(tab))
  {
    var cs := tab.orderedCategories;
    forall i | 0 <= i < |cs|
      ensures var c: Category := cs[i]; unchanged(c`orderedSummaries) && SummariesKept(c.orderedSummaries)
    {
      var c := cs[i];
      assert c in cs;
      forall k | 0 <= k < |c.orderedSummaries|
        ensures var x: Summary := c.orderedSummaries[k]; unchanged(x`showDetails, x`transactions)
      {
        var x := c.orderedSummaries[k];
        assert old(c in cs && x in c.orderedSummaries);
        assert x in old(SummariesOf(cs));
      }
    }
    CategoryListRowsKept(cs);
  }

  /** Categories that keep their summaries, and those their details flags and transactions, keep their rows. */
  twostate lemma {:induction false} CategoryListRowsKept(cs: seq<Category>)
    requires forall i :: 0 <= i < |cs| ==> (var c: Category := cs[i]; unchanged(c`orderedSummaries) && SummariesKept(c.orderedSummaries))
    ensures CategoryListRows(cs) == old(CategoryListRows(cs))
    decreases |cs|
  {
    if cs != [] {
      CategoryListRowsKept(cs[..|cs| - 1]);
      CategoryRowsKept(cs[|cs| - 1]);
    }
  }

  // ------------------------------------------------------------- NewWindow

  /** A category built by NewWindow: indexed, and its summaries record its year and month. */
  ghost predicate CategoryValid(c: Category)
    reads c`orderedSummaries, c`summaries
  {
    c.Indexed() && forall x :: x in c.orderedSummaries ==> x.year == c.year && x.month == c.title
  }

  /** A tab built by NewWindow: indexed, and its categories are valid and record its year. */
  ghost predicate TabValid(tab: Tab)
    reads tab`orderedCategories, tab`categories
    reads tab.orderedCategories`orderedSummaries, tab.orderedCategories`summaries
  {
    tab.Indexed() && forall c :: c in tab.orderedCategories ==> c.year == tab.title && CategoryValid(c)
  }

  /** The shape NewWindow maintains: every level is indexed and every child knows its parents' titles. */
  ghost predicate Valid(w: Window)
    reads w`orderedTabs, w`tabs, w.orderedTabs`orderedCategories, w.orderedTabs`categories
    reads CategoriesOf(w.orderedTabs)`orderedSummaries, CategoriesOf(w.orderedTabs)`summaries
  {
    w.Indexed() && forall tab :: tab in w.orderedTabs ==> (InCategoriesOf(w.orderedTabs, tab); TabValid(tab))
  }

  /** A summary holds exactly the transactions of ts filed under its path, in order, details hidden. */
  ghost predicate SummaryBuilt(x: Summary, ts: seq<Transaction>)
    reads x`transactions, x`showDetails
  {
    x.transactions == Select(ts, [x.year, x.month, x.title]) && !x.showDetails
  }

  /** A category's summaries are the beneficiaries of its month in ts, in first-seen order, each built. */
  ghost predicate CategoryBuilt(c: Category, ts: seq<Transaction>)
    reads c`orderedSummaries, c.orderedSummaries`transactions, c.orderedSummaries`showDetails
  {
    SummaryTitles(c.orderedSummaries) == FirstSeen(Keys(Select(ts, [c.year, c.title]), 2))
    && forall x :: x in c.orderedSummaries ==> SummaryBuilt(x, ts)
  }

  /** A tab's categories are the month names of its year in ts, in first-seen order, each built. */
  ghost predicate TabBuilt(tab: Tab, ts: seq<Transaction>)
    reads tab`orderedCategories, tab.orderedCategories`orderedSummaries
    reads SummariesOf(tab.orderedCategories)`transactions, SummariesOf(tab.orderedCategories)`showDetails
  {
    CategoryTitles(tab.orderedCategories) == FirstSeen(Keys(Select(ts, [tab.title]), 1))
    && forall c :: c in tab.orderedCategories ==> (InSummariesOf(tab.orderedCategories, c); CategoryBuilt(c, ts))
  }

  /** The window is the grouping of ts: tabs are its years in first-seen order, each built. */
  ghost predicate Built(w: Window, ts: seq<Transaction>)
    reads w`orderedTabs, w.orderedTabs`orderedCategories, CategoriesOf(w.orderedTabs)`orderedSummaries
    reads SummariesUnder(w.orderedTabs)`transactions, SummariesUnder(w.orderedTabs)`showDetails
  {
    TabTitles(w.orderedTabs) == FirstSeen(Keys(ts, 0))
    && forall tab :: tab in w.orderedTabs ==>
         (InCategoriesOf(w.orderedTabs, tab); InSummariesUnder(w.orderedTabs, tab); TabBuilt(tab, ts))
  }

  /** A transaction filed elsewhere leaves a summary as it was. */
  lemma SummaryOffPath(x: Summary, ts: seq<Transaction>, t: Transaction)
    requires !Matches(t, [x.year, x.month, x.title])
    ensures SummaryBuilt(x, ts + [t]) == SummaryBuilt(x, ts)
  {
    SelectAppend(ts, t, [x.year, x.month, x.title]);
  }

  /** A transaction of another month leaves a category as it was. */
  lemma CategoryOffPath(c: Category, ts: seq<Transaction>, t: Transaction)
    requires CategoryValid(c)
    requires !Matches(t, [c.year, c.title])
    ensures CategoryBuilt(c, ts + [t]) == CategoryBuilt(c, ts)
  {
    SelectAppend(ts, t, [c.year, c.title]);
    assert Select(ts + [t], [c.year, c.title]) == Select(ts, [c.year, c.title]);
    forall x | x in c.orderedSummaries
      ensures SummaryBuilt(x, ts + [t]) == SummaryBuilt(x, ts)
    {
      PathAppend(c.year, c.title, x.title);
      MatchesExtend(t, [c.year, c.title], x.title);
      SummaryOffPath(x, ts, t);
    }
  }

  /** A transaction of another year leaves a tab as it was. */
  lemma TabOffPath(tab: Tab, ts: seq<Transaction>, t: Transaction)
    requires TabValid(tab)
    requires tab.title != KeyAt(t, 0)
    ensures TabBuilt(tab, ts + [t]) == TabBuilt(tab, ts)
  {
    SelectAppend(ts, t, [tab.title]);
    MatchesKeys(t, tab.title, "", "");
    assert Select(ts + [t], [tab.title]) == Select(ts, [tab.title]);
    forall c | c in tab.orderedCategories
      ensures CategoryBuilt(c, ts + [t]) == CategoryBuilt(c, ts)
    {
      PathAppend(tab.title, c.title, "");
      MatchesExtend(t, [tab.title], c.title);
      CategoryOffPath(c, ts, t);
    }
  }

  /** Filing t in its month's category: add a summary for its beneficiary unless there is one. */
  method EnsureSummary(c: Category, t: Transaction, ghost done: seq<Transaction>)
    requires CategoryValid(c) && CategoryBuilt(c, done)
    requires c.year == KeyAt(t, 0) && c.title == KeyAt(t, 1)
    modifies c`orderedSummaries, c`summaries
    ensures CategoryValid(c) && t.beneficiary in c.summaries
    ensures SummaryTitles(c.orderedSummaries) == FirstSeen(Keys(Select(done + [t], [c.year, c.title]), 2))
    ensures forall x :: x in c.orderedSummaries ==> SummaryBuilt(x, done)
    ensures c.orderedSummaries == old(c.orderedSummaries) ||
            (fresh(c.summaries[t.beneficiary]) &&
             c.orderedSummaries == old(c.orderedSummaries) + [c.summaries[t.beneficiary]])
  {
    var q := [c.year, c.title];
    MatchesKeys(t, c.year, c.title, "");
    FirstSeenStep(done, t, q);
    SummaryLookup(c, t.beneficiary);
    var hasSummary := c.HasSummary(t.beneficiary);
    if !hasSummary {
      PathAppend(c.year, c.title, t.beneficiary);
      var nx := AddNewSummary(c, t.beneficiary, done);
    }
  }

  /** A new summary for beneficiary b, added to c: NewSummary followed by AddSummary. */
  method AddNewSummary(c: Category, b: string, ghost done: seq<Transaction>) returns (nx: Summary)
    requires CategoryValid(c) && b !in c.summaries
    requires Select(done, [c.year, c.title, b]) == []
    requires forall x :: x in c.orderedSummaries ==> SummaryBuilt(x, done)
    modifies c`orderedSummaries, c`summaries
    ensures fresh(nx) && nx.title == b && c.orderedSummaries == old(c.orderedSummaries) + [nx]
    ensures CategoryValid(c) && b in c.summaries && c.summaries[b] == nx
    ensures forall x :: x in c.orderedSummaries ==> SummaryBuilt(x, done)
  {
    nx := new Summary(b, c.year, c.title);
    c.AddSummary(nx);
  }

  /** Finding t's summary in its month's category, adding it first when the beneficiary is new. */
  method FindSummary(c: Category, t: Transaction, ghost done: seq<Transaction>) returns (x: Summary)
    requires CategoryValid(c) && CategoryBuilt(c, done)
    requires c.year == KeyAt(t, 0) && c.title == KeyAt(t, 1)
    modifies c`orderedSummaries, c`summaries
    ensures CategoryValid(c)
    ensures SummaryTitles(c.orderedSummaries) == FirstSeen(Keys(Select(done + [t], [c.year, c.title]), 2))
    ensures x in c.orderedSummaries && x.title == KeyAt(t, 2) && SummaryBuilt(x, done)
    ensures forall x' :: x' in c.orderedSummaries && x' != x ==> SummaryBuilt(x', done + [t])
    ensures c.orderedSummaries == old(c.orderedSummaries) ||
            (fresh(x) && c.orderedSummaries == old(c.orderedSummaries) + [x])
  {
    EnsureSummary(c, t, done);
    var found := c.GetSummary(t.beneficiary);
    x := found;
    SummaryLookup(c, t.beneficiary);
    OtherSummariesFiled(c, x, done, t);
  }

  /** The summaries of t's category other than t's own are unchanged by filing t. */
  lemma OtherSummariesFiled(c: Category, x: Summary, done: seq<Transaction>, t: Transaction)
    requires CategoryValid(c) && c.year == KeyAt(t, 0) && c.title == KeyAt(t, 1)
    requires x in c.orderedSummaries && x.title == KeyAt(t, 2)
    requires forall x' :: x' in c.orderedSummaries ==> SummaryBuilt(x', done)
    ensures forall x' :: x' in c.orderedSummaries && x' != x ==> SummaryBuilt(x', done + [t])
  {
    SummaryLookup(c, x.title);
    forall x' | x' in c.orderedSummaries && x' != x
      ensures SummaryBuilt(x', done + [t])
    {
      PathAppend(c.year, c.title, x'.title);
      MatchesExtend(t, [c.year, c.title], x'.title);
      SummaryOffPath(x', done, t);
    }
  }

  /** The categories of t's tab other than t's own are unchanged by filing t. */
  lemma OtherCategoriesFiled(tab: Tab, c: Category, done: seq<Transaction>, t: Transaction)
    requires TabValid(tab) && tab.title == KeyAt(t, 0)
    requires c in tab.orderedCategories && c.title == KeyAt(t, 1)
    requires forall c' :: c' in tab.orderedCategories ==> CategoryBuilt(c', done)
    ensures forall c' :: c' in tab.orderedCategories && c' != c ==> CategoryBuilt(c', done + [t])
  {
    CategoryLookup(tab, c.title);
    forall c' | c' in tab.orderedCategories && c' != c
      ensures CategoryBuilt(c', done + [t])
    {
      PathAppend(tab.title, c'.title, "");
      MatchesExtend(t, [tab.title], c'.title);
      CategoryOffPath(c', done, t);
    }
  }

  /** Filing t in its year's tab: add a category for its month unless there is one. */
  method EnsureCategory(tab: Tab, t: Transaction, ghost done: seq<Transaction>)
    requires TabValid(tab) && TabBuilt(tab, done) && tab.title == KeyAt(t, 0)
    modifies tab`orderedCategories, tab`categories
    ensures TabValid(tab) && KeyAt(t, 1) in tab.categories
    ensures CategoryTitles(tab.orderedCategories) == FirstSeen(Keys(Select(done + [t], [tab.title]), 1))
    ensures forall c :: c in tab.orderedCategories ==> CategoryBuilt(c, done)
    ensures tab.orderedCategories == old(tab.orderedCategories) ||
            (fresh(tab.categories[KeyAt(t, 1)]) && tab.categories[KeyAt(t, 1)].orderedSummaries == [] &&
             tab.orderedCategories == old(tab.orderedCategories) + [tab.categories[KeyAt(t, 1)]])
  {
    var monthStr := MonthName(t.valutaDate.month);
    assert monthStr == KeyAt(t, 1);
    var hasCategory := tab.HasCategory(monthStr);
    if !hasCategory {
      var nc := AddNewCategory(tab, t, done);
    } else {
      KnownCategory(tab, t, done);
    }
  }

  /** A month already under tab keeps the month list as it is when t is filed. */
  lemma KnownCategory(tab: Tab, t: Transaction, done: seq<Transaction>)
    requires tab.Indexed() && TabBuilt(tab, done) && tab.title == KeyAt(t, 0)
    requires KeyAt(t, 1) in tab.categories
    ensures CategoryTitles(tab.orderedCategories) == FirstSeen(Keys(Select(done + [t], [tab.title]), 1))
  {
    CategoryLookup(tab, KeyAt(t, 1));
    MatchesKeys(t, tab.title, "", "");
    FirstSeenStep(done, t, [tab.title]);
  }

  /** A new category for t's month, added to t's tab: NewCategory followed by AddCategory. */
  method AddNewCategory(tab: Tab, t: Transaction, ghost done: seq<Transaction>) returns (nc: Category)
    requires TabValid(tab) && TabBuilt(tab, done) && tab.title == KeyAt(t, 0)
    requires KeyAt(t, 1) !in tab.categories
    modifies tab`orderedCategories, tab`categories
    ensures fresh(nc) && nc.title == KeyAt(t, 1) && nc.orderedSummaries == []
    ensures tab.orderedCategories == old(tab.orderedCategories) + [nc]
    ensures TabValid(tab) && KeyAt(t, 1) in tab.categories && tab.categories[KeyAt(t, 1)] == nc
    ensures CategoryTitles(tab.orderedCategories) == FirstSeen(Keys(Select(done + [t], [tab.title]), 1))
    ensures forall c :: c in tab.orderedCategories ==> CategoryBuilt(c, done)
  {
    var m := MonthName(t.valutaDate.month);
    assert m == KeyAt(t, 1);
    nc := new Category(m, tab.title);
    assert TabValid(tab) && TabBuilt(tab, done);
    NewCategoryKeys(tab, t, done);
    ghost var before := tab.orderedCategories;
    label Adding:
    tab.AddCategory(nc);
    assert CategoryTitles(tab.orderedCategories) == CategoryTitles(before) + [m];
    assert CategoryBuilt(nc, done);
    CategoriesKept@Adding(before, done);
    forall c | c in tab.orderedCategories
      ensures c.year == tab.title && CategoryValid(c) && CategoryBuilt(c, done)
    {
      if c != nc {
        assert c in before;
      }
    }
  }

  /** A month new to tab comes last in first-seen order and has nothing filed under it yet. */
  lemma NewCategoryKeys(tab: Tab, t: Transaction, done: seq<Transaction>)
    requires tab.Indexed() && tab.title == KeyAt(t, 0) && KeyAt(t, 1) !in tab.categories
    requires CategoryTitles(tab.orderedCategories) == FirstSeen(Keys(Select(done, [tab.title]), 1))
    ensures FirstSeen(Keys(Select(done + [t], [tab.title]), 1)) == CategoryTitles(tab.orderedCategories) + [KeyAt(t, 1)]
    ensures Select(done, [tab.title, KeyAt(t, 1)]) == []
  {
    MatchesKeys(t, tab.title, "", "");
    FirstSeenStep(done, t, [tab.title]);
    PathAppend(tab.title, KeyAt(t, 1), "");
    CategoryLookup(tab, KeyAt(t, 1));
  }

  /** What FindCategory leaves behind: c is t's month under tab, and the other months already hold t's filing. */
  ghost predicate CategoryFound(tab: Tab, c: Category, done: seq<Transaction>, t: Transaction)
    reads tab`orderedCategories, tab`categories
    reads tab.orderedCategories`orderedSummaries, tab.orderedCategories`summaries
    reads SummariesOf(tab.orderedCategories)`transactions, SummariesOf(tab.orderedCategories)`showDetails
  {
    TabValid(tab)
    && CategoryTitles(tab.orderedCategories) == FirstSeen(Keys(Select(done + [t], [tab.title]), 1))
    && c in tab.orderedCategories && c.title == KeyAt(t, 1) && (InSummariesOf(tab.orderedCategories, c); CategoryBuilt(c, done))
    && forall c' :: c' in tab.orderedCategories && c' != c ==>
         c'.title != c.title && (InSummariesOf(tab.orderedCategories, c'); CategoryBuilt(c', done + [t]))
  }

  /** Finding t's month category in its year's tab, adding it first when the month is new. */
  method FindCategory(tab: Tab, t: Transaction, ghost done: seq<Transaction>) returns (c: Category)
    requires TabValid(tab) && TabBuilt(tab, done) && tab.title == KeyAt(t, 0)
    modifies tab`orderedCategories, tab`categories
    ensures CategoryFound(tab, c, done, t)
    ensures tab.orderedCategories == old(tab.orderedCategories) ||
            (fresh(c) && c.orderedSummaries == [] && tab.orderedCategories == old(tab.orderedCategories) + [c])
  {
    EnsureCategory(tab, t, done);
    var monthStr := MonthName(t.valutaDate.month);
    assert monthStr == KeyAt(t, 1);
    var found := tab.GetCategory(monthStr);
    CategoryLookup(tab, monthStr);
    c := found;
    OtherCategoriesFiled(tab, c, done, t);
  }

  /**
   * The tab the index holds for t's year is the one in the ordered list, and
   * the tabs other than it are unchanged by filing t.
   */
  lemma OtherTabsFiled(w: Window, tab: Tab, done: seq<Transaction>, t: Transaction)
    requires Valid(w) && KeyAt(t, 0) in w.tabs && tab == w.tabs[KeyAt(t, 0)]
    requires forall tab' :: tab' in w.orderedTabs ==> TabBuilt(tab', done)
    ensures tab in w.orderedTabs && tab.title == KeyAt(t, 0) && TabBuilt(tab, done)
    ensures forall tab' :: tab' in w.orderedTabs && tab' != tab ==> tab'.title != tab.title && TabBuilt(tab', done + [t])
  {
    TabLookup(w, KeyAt(t, 0));
    forall tab' | tab' in w.orderedTabs && tab' != tab
      ensures tab'.title != tab.title && TabBuilt(tab', done + [t])
    {
      TabOffPath(tab', done, t);
    }
  }

  /** Filing t in the window: add a tab for its year unless there is one. */
  method EnsureTab(w: Window, t: Transaction, ghost done: seq<Transaction>)
    requires Valid(w) && Built(w, done)
    modifies w`orderedTabs, w`tabs
    ensures Valid(w) && KeyAt(t, 0) in w.tabs
    ensures TabTitles(w.orderedTabs) == FirstSeen(Keys(done + [t], 0))
    ensures forall tab :: tab in w.orderedTabs ==> TabBuilt(tab, done)
    ensures w.orderedTabs == old(w.orderedTabs) ||
            (fresh(w.tabs[KeyAt(t, 0)]) && w.tabs[KeyAt(t, 0)].orderedCategories == [] &&
             w.orderedTabs == old(w.orderedTabs) + [w.tabs[KeyAt(t, 0)]])
    ensures CategoriesOf(w.orderedTabs) <= old(CategoriesOf(w.orderedTabs))
    ensures SummariesUnder(w.orderedTabs) <= old(SummariesUnder(w.orderedTabs))
  {
    var yearStr := Itoa(t.valutaDate.year);
    assert yearStr == KeyAt(t, 0);
    TabLookup(w, yearStr);
    var hasTab := w.HasTab(yearStr);
    if !hasTab {
      var nt := AddNewTab(w, t, done);
    } else {
      assert w.orderedTabs == old(w.orderedTabs);
      FirstSeenYearStep(done, t);
    }
    TabsGrown(w, w.tabs[KeyAt(t, 0)]);
  }

  /** A new tab for t's year, added to the window: NewTab followed by AddTab. */
  method AddNewTab(w: Window, t: Transaction, ghost done: seq<Transaction>) returns (nt: Tab)
    requires Valid(w) && Built(w, done) && KeyAt(t, 0) !in w.tabs
    modifies w`orderedTabs, w`tabs
    ensures fresh(nt) && nt.title == KeyAt(t, 0) && nt.orderedCategories == []
    ensures w.orderedTabs == old(w.orderedTabs) + [nt]
    ensures Valid(w) && KeyAt(t, 0) in w.tabs && w.tabs[KeyAt(t, 0)] == nt
    ensures TabTitles(w.orderedTabs) == FirstSeen(Keys(done + [t], 0))
    ensures forall tab :: tab in w.orderedTabs ==> TabBuilt(tab, done)
  {
    var y := Itoa(t.valutaDate.year);
    assert y == KeyAt(t, 0);
    nt := new Tab(y);
    assert Valid(w) && Built(w, done);
    NewTabKeys(w, t, done);
    label Adding:
    w.AddTab(nt);
    TabAppended@Adding(w, nt, done);
  }

  /** Appending an empty tab for a year new to done keeps the window valid and every tab built. */
  twostate lemma TabAppended(w: Window, new nt: Tab, new done: seq<Transaction>)
    requires old(Valid(w) && Built(w, done))
    requires nt.orderedCategories == [] && nt.categories == map[]
    requires Select(done, [nt.title]) == []
    requires w.orderedTabs == old(w.orderedTabs) + [nt] && nt.title !in old(w.tabs)
    requires old(w.Indexed()) ==> w.Indexed()
    requires forall tab :: tab in old(w.orderedTabs) ==> TabUnchanged(tab)
    ensures Valid(w) && forall tab :: tab in w.orderedTabs ==> TabBuilt(tab, done)
  {
    assert TabBuilt(nt, done);
    forall tab | tab in w.orderedTabs
      ensures TabValid(tab) && TabBuilt(tab, done)
    {
      if tab != nt {
        assert tab in old(w.orderedTabs);
        TabKept(tab, done);
      }
    }
  }

  /** A year new to the window comes last in first-seen order and has nothing filed under it yet. */
  lemma NewTabKeys(w: Window, t: Transaction, done: seq<Transaction>)
    requires w.Indexed() && KeyAt(t, 0) !in w.tabs
    requires TabTitles(w.orderedTabs) == FirstSeen(Keys(done, 0))
    ensures FirstSeen(Keys(done + [t], 0)) == TabTitles(w.orderedTabs) + [KeyAt(t, 0)]
    ensures Select(done, [KeyAt(t, 0)]) == []
  {
    FirstSeenYearStep(done, t);
    TabLookup(w, KeyAt(t, 0));
  }

  /** Finding t's year tab in the window, adding it first when the year is new. */
  method FindTab(w: Window, t: Transaction, ghost done: seq<Transaction>) returns (tab: Tab)
    requires Valid(w) && Built(w, done)
    modifies w`orderedTabs, w`tabs
    ensures Valid(w) && TabTitles(w.orderedTabs) == FirstSeen(Keys(done + [t], 0))
    ensures tab in w.orderedTabs && tab.title == KeyAt(t, 0) && TabBuilt(tab, done)
    ensures forall tab' :: tab' in w.orderedTabs && tab' != tab ==> tab'.title != tab.title && TabBuilt(tab', done + [t])
    ensures w.orderedTabs == old(w.orderedTabs) ||
            (fresh(tab) && tab.orderedCategories == [] && w.orderedTabs == old(w.orderedTabs) + [tab])
    ensures CategoriesOf(w.orderedTabs) <= old(CategoriesOf(w.orderedTabs))
    ensures SummariesUnder(w.orderedTabs) <= old(SummariesUnder(w.orderedTabs))
  {
    EnsureTab(w, t, done);
    var yearStr := Itoa(t.valutaDate.year);
    assert yearStr == KeyAt(t, 0);
    var found := w.GetTab(yearStr);
    tab := found;
    OtherTabsFiled(w, tab, done, t);
  }

  /** Nothing NewWindow maintains under c changed since the old state. */
  twostate predicate CategoryUnchanged(c: Category)
    reads c`orderedSummaries, c`summaries, c.orderedSummaries`transactions, c.orderedSummaries`showDetails
  {
    unchanged(c`orderedSummaries, c`summaries) &&
    forall x :: x in c.orderedSummaries ==> unchanged(x`transactions, x`showDetails)
  }

  /** Nothing NewWindow maintains under tab changed since the old state. */
  twostate predicate TabUnchanged(tab: Tab)
    reads tab`orderedCategories, tab`categories
    reads tab.orderedCategories`orderedSummaries, tab.orderedCategories`summaries
    reads SummariesOf(tab.orderedCategories)`transactions, SummariesOf(tab.orderedCategories)`showDetails
  {
    unchanged(tab`orderedCategories, tab`categories) &&
    forall c :: c in tab.orderedCategories ==> (InSummariesOf(tab.orderedCategories, c); CategoryUnchanged(c))
  }

  twostate lemma CategoryKept(c: Category, new ts: seq<Transaction>)
    requires CategoryUnchanged(c)
    ensures CategoryValid(c) == old(CategoryValid(c))
    ensures CategoryBuilt(c, ts) == old(CategoryBuilt(c, ts))
  {
  }

  twostate lemma CategoriesKept(cs: seq<Category>, new ts: seq<Transaction>)
    requires forall c :: c in cs ==> CategoryUnchanged(c)
    ensures forall c :: c in cs ==> CategoryValid(c) == old(CategoryValid(c)) && CategoryBuilt(c, ts) == old(CategoryBuilt(c, ts))
  {
    forall c | c in cs
      ensures CategoryValid(c) == old(CategoryValid(c)) && CategoryBuilt(c, ts) == old(CategoryBuilt(c, ts))
    {
      CategoryKept(c, ts);
    }
  }

  twostate lemma TabKept(tab: Tab, new ts: seq<Transaction>)
    requires TabUnchanged(tab)
    ensures TabValid(tab) == old(TabValid(tab))
    ensures TabBuilt(tab, ts) == old(TabBuilt(tab, ts))
  {
    forall c | c in tab.orderedCategories
      ensures CategoryValid(c) == old(CategoryValid(c))
      ensures CategoryBuilt(c, ts) == old(CategoryBuilt(c, ts))
    {
      CategoryKept(c, ts);
    }
  }

  /** Once t is appended to its own summary, t's category is built for done + [t]. */
  lemma CategoryFiled(c: Category, x: Summary, done: seq<Transaction>, t: Transaction)
    requires c.year == KeyAt(t, 0) && c.title == KeyAt(t, 1)
    requires SummaryTitles(c.orderedSummaries) == FirstSeen(Keys(Select(done + [t], [c.year, c.title]), 2))
    requires x.year == c.year && x.month == c.title && x.title == KeyAt(t, 2)
    requires x.transactions == Select(done, [x.year, x.month, x.title]) + [t] && !x.showDetails
    requires forall x' :: x' in c.orderedSummaries && x' != x ==> SummaryBuilt(x', done + [t])
    ensures forall x' :: x' in c.orderedSummaries ==> SummaryBuilt(x', done + [t])
    ensures CategoryBuilt(c, done + [t])
  {
    MatchesKeys(t, x.year, x.month, x.title);
    SelectAppend(done, t, [x.year, x.month, x.title]);
  }

  /** After t is filed in tab, the window is built for done + [t]. */
  twostate lemma WindowFiled(w: Window, new tab: Tab, new done: seq<Transaction>, new t: Transaction)
    requires old(Valid(w)) && unchanged(w`orderedTabs, w`tabs)
    requires TabTitles(w.orderedTabs) == FirstSeen(Keys(done + [t], 0))
    requires tab in w.orderedTabs && TabValid(tab) && TabBuilt(tab, done + [t])
    requires forall tab' :: tab' in w.orderedTabs && tab' != tab ==>
               old(TabBuilt(tab', done + [t])) && TabUnchanged(tab')
    ensures Valid(w) && Built(w, done + [t])
  {
    forall tab' | tab' in w.orderedTabs
      ensures TabValid(tab') && TabBuilt(tab', done + [t])
    {
      if tab' != tab {
        TabKept(tab', done + [t]);
      }
    }
  }

  /** Filing t in its month's category: find or add its summary, then append t to it. */
  method FileInCategory(c: Category, t: Transaction, ghost done: seq<Transaction>) returns (x: Summary)
    requires CategoryValid(c) && CategoryBuilt(c, done)
    requires c.year == KeyAt(t, 0) && c.title == KeyAt(t, 1)
    modifies c`orderedSummaries, c`summaries, c.orderedSummaries`transactions
    ensures CategoryValid(c) && CategoryBuilt(c, done + [t])
    ensures x in c.orderedSummaries
    ensures c.orderedSummaries == old(c.orderedSummaries) ||
            (fresh(x) && c.orderedSummaries == old(c.orderedSummaries) + [x])
  {
    x := FindSummary(c, t, done);
    x.AddTransaction(t);
    CategoryFiled(c, x, done, t);
  }

  /** Filing t under tab: its month category is found or added, then t is filed there. */
  method FileInTab(tab: Tab, t: Transaction, ghost done: seq<Transaction>) returns (c: Category)
    requires TabValid(tab) && TabBuilt(tab, done) && tab.title == KeyAt(t, 0)
    modifies tab`orderedCategories, tab`categories
    modifies tab.orderedCategories`orderedSummaries, tab.orderedCategories`summaries
    modifies SummariesOf(tab.orderedCategories)`transactions
    ensures TabValid(tab) && TabBuilt(tab, done + [t])
    ensures tab.orderedCategories == old(tab.orderedCategories) ||
            (fresh(c) && tab.orderedCategories == old(tab.orderedCategories) + [c])
    ensures forall x :: x in SummariesOf(tab.orderedCategories) ==> x in old(SummariesOf(tab.orderedCategories)) || fresh(x)
  {
    c := FindCategory(tab, t, done);
    SummariesOfAppended(tab, c);
    InSummariesOf(tab.orderedCategories, c);
    ghost var before := SummariesOf(tab.orderedCategories);
    label Found:
    var x := FileInFoundCategory(tab, c, t, done);
    forall x' | x' in SummariesOf(tab.orderedCategories) && x' !in before
      ensures fresh(x')
    {
      assert !old@Found(allocated(x'));
    }
  }

  /** Appending a category without summaries adds no summary under tab. */
  twostate lemma SummariesOfAppended(tab: Tab, new c: Category)
    requires tab.orderedCategories == old(tab.orderedCategories) ||
             (c.orderedSummaries == [] && tab.orderedCategories == old(tab.orderedCategories) + [c])
    requires forall c' :: c' in old(tab.orderedCategories) ==> unchanged(c'`orderedSummaries)
    ensures SummariesOf(tab.orderedCategories) <= old(SummariesOf(tab.orderedCategories))
  {
    forall x | x in SummariesOf(tab.orderedCategories)
      ensures x in old(SummariesOf(tab.orderedCategories))
    {
      var c' :| c' in tab.orderedCategories && x in c'.orderedSummaries;
      assert c' in old(tab.orderedCategories);
      assert old(InSummariesOf(tab.orderedCategories, c'); x in c'.orderedSummaries ==> x in SummariesOf(tab.orderedCategories));
    }
  }

  /** When only c's summaries change and c gains only new objects, every summary new under cs is fresh. */
  twostate lemma SummariesOfGrown(cs: seq<Category>, new c: Category)
    requires old(allocated(c))
    requires forall c' :: c' in cs && c' != c ==> unchanged(c'`orderedSummaries)
    requires forall x :: x in c.orderedSummaries ==> x in old(c.orderedSummaries) || fresh(x)
    ensures fresh(SummariesOf(cs) - old(SummariesOf(cs)))
  {
    forall x | x in SummariesOf(cs) && old(allocated(x))
      ensures x in old(SummariesOf(cs))
    {
      var c' :| c' in cs && x in c'.orderedSummaries;
      assert x in old(c'.orderedSummaries);
      assert old(InSummariesOf(cs, c'); x in SummariesOf(cs));
    }
  }


  /** Filing t in category c of its year's tab, once FindCategory has put c there. */
  method FileInFoundCategory(tab: Tab, c: Category, t: Transaction, ghost done: seq<Transaction>) returns (x: Summary)
    requires tab.title == KeyAt(t, 0) && CategoryFound(tab, c, done, t)
    modifies c`orderedSummaries, c`summaries, c.orderedSummaries`transactions
    ensures TabValid(tab) && TabBuilt(tab, done + [t])
    ensures fresh(SummariesOf(tab.orderedCategories) - old(SummariesOf(tab.orderedCategories)))
  {
    label HasCategory:
    forall c' | c' in tab.orderedCategories && c' != c
      ensures forall x :: x in c'.orderedSummaries ==> x !in c.orderedSummaries
    {
      assert c'.title != c.title;
    }
    x := FileInCategory(c, t, done);
    forall c' | c' in tab.orderedCategories && c' != c
      ensures CategoryValid(c') && CategoryBuilt(c', done + [t])
    {
      assert c'.orderedSummaries == old@HasCategory(c'.orderedSummaries);
      CategoryKept@HasCategory(c', done + [t]);
    }
    SummariesOfGrown@HasCategory(tab.orderedCategories, c);
  }

  /** Every summary below a valid tab belongs to that tab's year. */
  lemma SummaryYears(tab: Tab)
    requires TabValid(tab)
    ensures forall x :: x in SummariesOf(tab.orderedCategories) ==> x.year == tab.title
  {
    forall x | x in SummariesOf(tab.orderedCategories)
      ensures x.year == tab.title
    {
      var c :| c in tab.orderedCategories && x in c.orderedSummaries;
    }
  }

  /** Adding at most one empty tab adds no category and no summary below the window. */
  twostate lemma TabsGrown(w: Window, new tab: Tab)
    requires w.orderedTabs == old(w.orderedTabs) ||
             (tab.orderedCategories == [] && w.orderedTabs == old(w.orderedTabs) + [tab])
    requires forall tab' :: tab' in old(w.orderedTabs) ==> unchanged(tab'`orderedCategories)
    requires forall c :: c in old(CategoriesOf(w.orderedTabs)) ==> unchanged(c`orderedSummaries)
    ensures CategoriesOf(w.orderedTabs) <= old(CategoriesOf(w.orderedTabs))
    ensures SummariesUnder(w.orderedTabs) <= old(SummariesUnder(w.orderedTabs))
  {
    forall c | c in CategoriesOf(w.orderedTabs)
      ensures c in old(CategoriesOf(w.orderedTabs))
    {
      var tab' :| tab' in w.orderedTabs && c in tab'.orderedCategories;
      assert tab' in old(w.orderedTabs);
      assert old(InCategoriesOf(w.orderedTabs, tab'); c in CategoriesOf(w.orderedTabs));
    }
    forall x | x in SummariesUnder(w.orderedTabs)
      ensures x in old(SummariesUnder(w.orderedTabs))
    {
      var tab', c :| tab' in w.orderedTabs && c in tab'.orderedCategories && x in c.orderedSummaries;
      assert tab' in old(w.orderedTabs);
      assert old(InCategoriesOf(w.orderedTabs, tab'); c in CategoriesOf(w.orderedTabs));
      assert old(InSummariesUnder(w.orderedTabs, tab'); InSummariesOf(tab'.orderedCategories, c);
                 x in SummariesUnder(w.orderedTabs));
    }
  }

  /** Filing below one tab, leaving the others as they were, adds only fresh categories and summaries. */
  twostate lemma TabFiledGrown(w: Window, new tab: Tab)
    requires unchanged(w`orderedTabs) && tab in w.orderedTabs
    requires old(SummariesOf(tab.orderedCategories) <= SummariesUnder(w.orderedTabs))
    requires forall tab' :: tab' in w.orderedTabs && tab' != tab ==> TabUnchanged(tab')
    requires forall c :: c in tab.orderedCategories ==> c in old(tab.orderedCategories) || fresh(c)
    requires forall x :: x in SummariesOf(tab.orderedCategories) ==> x in old(SummariesOf(tab.orderedCategories)) || fresh(x)
    ensures fresh(CategoriesOf(w.orderedTabs) - old(CategoriesOf(w.orderedTabs)))
    ensures fresh(SummariesUnder(w.orderedTabs) - old(SummariesUnder(w.orderedTabs)))
  {
    forall c | c in CategoriesOf(w.orderedTabs) && old(allocated(c))
      ensures c in old(CategoriesOf(w.orderedTabs))
    {
      var tab' :| tab' in w.orderedTabs && c in tab'.orderedCategories;
      assert c in old(tab'.orderedCategories);
      assert old(InCategoriesOf(w.orderedTabs, tab'); c in CategoriesOf(w.orderedTabs));
    }
    forall x | x in SummariesUnder(w.orderedTabs) && old(allocated(x))
      ensures x in old(SummariesUnder(w.orderedTabs))
    {
      var tab', c :| tab' in w.orderedTabs && c in tab'.orderedCategories && x in c.orderedSummaries;
      if tab' == tab {
        InSummariesOf(tab.orderedCategories, c);
        assert x in old(SummariesOf(tab.orderedCategories));
      } else {
        InSummariesOf(tab'.orderedCategories, c);
        assert x in old(c.orderedSummaries);
        assert old(InSummariesUnder(w.orderedTabs, tab'); InSummariesOf(tab'.orderedCategories, c);
                   x in SummariesUnder(w.orderedTabs));
      }
    }
  }

  /** The tabs of a slice, as a set. */
  ghost function TabSet(ts: seq<Tab>): set<Tab>
  {
    set tab | tab in ts
  }

  /**
   * One pass of NewWindow's loop: t is filed under its year tab, month
   * category and beneficiary summary, each added first when missing.
   */
  method FileTransaction(w: Window, t: Transaction, ghost done: seq<Transaction>)
    requires Valid(w) && Built(w, done)
    modifies w`orderedTabs, w`tabs, TabSet(w.orderedTabs)`orderedCategories, TabSet(w.orderedTabs)`categories
    modifies CategoriesOf(w.orderedTabs)`orderedSummaries, CategoriesOf(w.orderedTabs)`summaries
    modifies SummariesUnder(w.orderedTabs)`transactions
    ensures Valid(w) && Built(w, done + [t])
    ensures fresh(TabSet(w.orderedTabs) - old(TabSet(w.orderedTabs)))
    ensures fresh(CategoriesOf(w.orderedTabs) - old(CategoriesOf(w.orderedTabs)))
    ensures fresh(SummariesUnder(w.orderedTabs) - old(SummariesUnder(w.orderedTabs)))
  {
    ghost var categories, summaries := CategoriesOf(w.orderedTabs), SummariesUnder(w.orderedTabs);
    var tab := FindTab(w, t, done);
    InCategoriesOf(w.orderedTabs, tab);
    InSummariesUnder(w.orderedTabs, tab);
    ghost var categories', summaries' := CategoriesOf(w.orderedTabs), SummariesUnder(w.orderedTabs);
    assert categories' <= categories && summaries' <= summaries;
    assert tab in old(TabSet(w.orderedTabs)) || fresh(tab);
    label Found:
    FileInYearTab(w, tab, t, done);
    forall c | c in CategoriesOf(w.orderedTabs) && c !in categories
      ensures fresh(c)
    {
      assert c !in categories' && !old@Found(allocated(c));
    }
    forall x | x in SummariesUnder(w.orderedTabs) && x !in summaries
      ensures fresh(x)
    {
      assert x !in summaries' && !old@Found(allocated(x));
    }
  }


  /** The rest of FileTransaction once t's year tab is found: t is filed below it and the other tabs stay as they were. */
  method FileInYearTab(w: Window, tab: Tab, t: Transaction, ghost done: seq<Transaction>)
    requires Valid(w) && TabTitles(w.orderedTabs) == FirstSeen(Keys(done + [t], 0))
    requires tab in w.orderedTabs && tab.title == KeyAt(t, 0) && TabBuilt(tab, done)
    requires forall tab' :: tab' in w.orderedTabs && tab' != tab ==> tab'.title != tab.title && TabBuilt(tab', done + [t])
    modifies tab`orderedCategories, tab`categories
    modifies tab.orderedCategories`orderedSummaries, tab.orderedCategories`summaries
    modifies SummariesOf(tab.orderedCategories)`transactions
    ensures Valid(w) && Built(w, done + [t])
    ensures fresh(CategoriesOf(w.orderedTabs) - old(CategoriesOf(w.orderedTabs)))
    ensures fresh(SummariesUnder(w.orderedTabs) - old(SummariesUnder(w.orderedTabs)))
  {
    InSummariesUnder(w.orderedTabs, tab);
    OthersApart(w, tab);
    label Found:
    FileInTabAmong(w, tab, t, done);
    OthersUnchanged@Found(w, tab);
    WindowFiled@Found(w, tab, done, t);
    TabFiledGrown@Found(w, tab);
  }

  /** FileInTab, for a tab among the tabs of w: what lies below the other tabs of w is left as it was. */
  method FileInTabAmong(w: Window, tab: Tab, t: Transaction, ghost done: seq<Transaction>)
    requires Valid(w) && tab in w.orderedTabs && tab.title == KeyAt(t, 0) && TabBuilt(tab, done)
    requires forall tab' :: tab' in w.orderedTabs && tab' != tab ==> tab'.title != tab.title
    modifies tab`orderedCategories, tab`categories
    modifies tab.orderedCategories`orderedSummaries, tab.orderedCategories`summaries
    modifies SummariesOf(tab.orderedCategories)`transactions
    ensures TabValid(tab) && TabBuilt(tab, done + [t])
    ensures forall c :: c in tab.orderedCategories ==> c in old(tab.orderedCategories) || fresh(c)
    ensures forall x :: x in SummariesOf(tab.orderedCategories) ==> x in old(SummariesOf(tab.orderedCategories)) || fresh(x)
    ensures forall tab' :: tab' in old(w.orderedTabs) && tab' != tab ==> unchanged(tab'`orderedCategories, tab'`categories)
    ensures forall c :: c in old(CategoriesOf(w.orderedTabs)) && c !in old(tab.orderedCategories) ==>
              unchanged(c`orderedSummaries, c`summaries)
    ensures forall x :: x in old(SummariesUnder(w.orderedTabs)) && x !in old(SummariesOf(tab.orderedCategories)) ==>
              unchanged(x`transactions, x`showDetails)
  {
    var c := FileInTab(tab, t, done);
  }

  /** What lies below the other tabs is none of tab's and was left as it was, so those tabs are unchanged. */
  twostate lemma OthersUnchanged(w: Window, new tab: Tab)
    requires old(allocated(tab)) && unchanged(w`orderedTabs) && old(Apart(w, tab))
    requires forall tab' :: tab' in old(w.orderedTabs) && tab' != tab ==> unchanged(tab'`orderedCategories, tab'`categories)
    requires forall c :: c in old(CategoriesOf(w.orderedTabs)) && c !in old(tab.orderedCategories) ==>
               unchanged(c`orderedSummaries, c`summaries)
    requires forall x :: x in old(SummariesUnder(w.orderedTabs)) && x !in old(SummariesOf(tab.orderedCategories)) ==>
               unchanged(x`transactions, x`showDetails)
    ensures forall tab' :: tab' in old(w.orderedTabs) && tab' != tab ==> TabUnchanged(tab')
  {
    forall tab' | tab' in old(w.orderedTabs) && tab' != tab
      ensures TabUnchanged(tab')
    {
      forall c' | c' in tab'.orderedCategories
        ensures CategoryUnchanged(c')
      {
        assert c' in old(tab'.orderedCategories);
        assert old(c' in CategoriesOf(w.orderedTabs) && c' !in tab.orderedCategories);
        forall x | x in c'.orderedSummaries
          ensures unchanged(x`transactions, x`showDetails)
        {
          assert old(x in SummariesUnder(w.orderedTabs) && x !in SummariesOf(tab.orderedCategories));
        }
      }
    }
  }

  /**
   * What lies below the tabs of w other than tab is below w and is none of
   * tab's: no category of tab, no summary under tab.
   */
  ghost predicate Apart(w: Window, tab: Tab)
    reads w, w.orderedTabs, CategoriesOf(w.orderedTabs), tab, tab.orderedCategories
  {
    forall tab', c' :: tab' in w.orderedTabs && tab' != tab && c' in tab'.orderedCategories ==>
      c' in CategoriesOf(w.orderedTabs) && c' !in tab.orderedCategories &&
      forall x :: x in c'.orderedSummaries ==> x in SummariesUnder(w.orderedTabs) && x !in SummariesOf(tab.orderedCategories)
  }

  lemma OthersApart(w: Window, tab: Tab)
    requires Valid(w) && tab in w.orderedTabs
    requires forall tab' :: tab' in w.orderedTabs && tab' != tab ==> tab'.title != tab.title
    ensures Apart(w, tab)
  {
    InCategoriesOf(w.orderedTabs, tab);
    SummaryYears(tab);
    forall tab', c' | tab' in w.orderedTabs && tab' != tab && c' in tab'.orderedCategories
      ensures c' in CategoriesOf(w.orderedTabs) && c' !in tab.orderedCategories
      ensures forall x :: x in c'.orderedSummaries ==> x in SummariesUnder(w.orderedTabs) && x !in SummariesOf(tab.orderedCategories)
    {
      InCategoriesOf(w.orderedTabs, tab');
      assert TabValid(tab') && c'.year == tab'.title;
      assert CategoryValid(c');
    }
  }

  /**
   * NewWindow: a window titled "Transactions" over transactions, each filed
   * in turn. It holds exactly the grouping of the list: one tab per year,
   * one category per month under it and one summary per beneficiary under
   * that, each in first-seen order and each summary holding its
   * transactions in input order.
   */
  method NewWindow(transactions: seq<Transaction>) returns (w: Window)
    ensures fresh(w) && w.title == "Transactions" && w.transactions == transactions
    ensures Valid(w) && Built(w, transactions)
  {
    w := new Window(transactions);
    for i := 0 to |transactions|
      invariant fresh(w) && Valid(w) && Built(w, transactions[..i])
      invariant fresh(TabSet(w.orderedTabs))
      invariant fresh(CategoriesOf(w.orderedTabs)) && fresh(SummariesUnder(w.orderedTabs))
    {
      assert transactions[..i + 1] == transactions[..i] + [transactions[i]];
      ghost var tabs, categories, summaries := TabSet(w.orderedTabs), CategoriesOf(w.orderedTabs), SummariesUnder(w.orderedTabs);
      label Filing:
      FileTransaction(w, transactions[i], transactions[..i]);
      forall tab | tab in TabSet(w.orderedTabs)
        ensures fresh(tab)
      {
        assert tab in tabs || !old@Filing(allocated(tab));
      }
      forall c | c in CategoriesOf(w.orderedTabs)
        ensures fresh(c)
      {
        assert c in categories || !old@Filing(allocated(c));
      }
      forall x | x in SummariesUnder(w.orderedTabs)
        ensures fresh(x)
      {
        assert x in summaries || !old@Filing(allocated(x));
      }
    }
    assert transactions[..|transactions|] == transactions;
  }


  // ------------------------------------------------- What NewWindow builds

  /** A transaction of ts under prefix q matching it is selected by q. */
  lemma Selected(ts: seq<Transaction>, t: Transaction, q: seq<string>)
    requires |q| <= 3 && t in ts && Matches(t, q)
    ensures t in Select(ts, q)
  {
    SelectCount(ts, q, t);
  }

  /** Where a summary of a built window sits: under its year, month and title, holding its selection. */
  lemma SummaryPlace(w: Window, ts: seq<Transaction>, x: Summary)
    requires Valid(w) && Built(w, ts) && x in SummariesUnder(w.orderedTabs)
    ensures x.year in w.tabs && x.month in w.tabs[x.year].categories
    ensures x.title in w.tabs[x.year].categories[x.month].summaries
    ensures w.tabs[x.year].categories[x.month].summaries[x.title] == x
    ensures SummaryBuilt(x, ts)
  {
    var tab, c :| tab in w.orderedTabs && c in tab.orderedCategories && x in c.orderedSummaries;
    InCategoriesOf(w.orderedTabs, tab);
    InSummariesUnder(w.orderedTabs, tab);
    InSummariesOf(tab.orderedCategories, c);
    assert TabValid(tab) && TabBuilt(tab, ts) && CategoryValid(c) && CategoryBuilt(c, ts);
    TabLookup(w, tab.title);
    CategoryLookup(tab, c.title);
    SummaryLookup(c, x.title);
  }

  /** The summary at the path of a transaction of ts exists in a built window. */
  lemma PathFiled(w: Window, ts: seq<Transaction>, t: Transaction) returns (x: Summary)
    requires Valid(w) && Built(w, ts) && t in ts
    ensures KeyAt(t, 0) in w.tabs && KeyAt(t, 1) in w.tabs[KeyAt(t, 0)].categories
    ensures KeyAt(t, 2) in w.tabs[KeyAt(t, 0)].categories[KeyAt(t, 1)].summaries
    ensures x == w.tabs[KeyAt(t, 0)].categories[KeyAt(t, 1)].summaries[KeyAt(t, 2)]
    ensures x in SummariesUnder(w.orderedTabs) && [x.year, x.month, x.title] == Path(t)
  {
    var y, m, b := KeyAt(t, 0), KeyAt(t, 1), KeyAt(t, 2);
    MatchesKeys(t, y, m, b);
    KeyOccurs(ts, t, 0);
    TabLookup(w, y);
    var tab := w.tabs[y];
    InCategoriesOf(w.orderedTabs, tab);
    InSummariesUnder(w.orderedTabs, tab);
    assert TabBuilt(tab, ts);
    Selected(ts, t, [y]);
    KeyOccurs(Select(ts, [y]), t, 1);
    CategoryLookup(tab, m);
    var c := tab.categories[m];
    InSummariesOf(tab.orderedCategories, c);
    assert CategoryValid(c) && CategoryBuilt(c, ts) && c.year == y;
    Selected(ts, t, [y, m]);
    KeyOccurs(Select(ts, [y, m]), t, 2);
    SummaryLookup(c, b);
    x := c.summaries[b];
  }

  /**
   * Every transaction of a built window is filed in exactly one summary:
   * the one reached through the tab of its year, the category of its month
   * and the summary of its beneficiary, which holds every copy of it; no
   * other summary of the window holds it.
   */
  lemma FiledInOneSummary(w: Window, ts: seq<Transaction>, t: Transaction)
    requires Valid(w) && Built(w, ts) && t in ts
    ensures KeyAt(t, 0) in w.tabs
    ensures KeyAt(t, 1) in w.tabs[KeyAt(t, 0)].categories
    ensures KeyAt(t, 2) in w.tabs[KeyAt(t, 0)].categories[KeyAt(t, 1)].summaries
    ensures var x := w.tabs[KeyAt(t, 0)].categories[KeyAt(t, 1)].summaries[KeyAt(t, 2)];
      x in SummariesUnder(w.orderedTabs) && multiset(x.transactions)[t] == multiset(ts)[t]
    ensures forall x :: x in SummariesUnder(w.orderedTabs) && t in x.transactions ==>
      x == w.tabs[KeyAt(t, 0)].categories[KeyAt(t, 1)].summaries[KeyAt(t, 2)]
  {
    var x := PathFiled(w, ts, t);
    SummaryPlace(w, ts, x);
    FiledOnce(ts, t);
    assert x.transactions == Select(ts, Path(t));
    forall x' | x' in SummariesUnder(w.orderedTabs) && t in x'.transactions
      ensures x' == x
    {
      SummaryPlace(w, ts, x');
      var q := [x'.year, x'.month, x'.title];
      assert t in Select(ts, q);
      assert q == Path(t);
      assert x'.year == q[0] == KeyAt(t, 0) && x'.month == q[1] == KeyAt(t, 1) && x'.title == q[2] == KeyAt(t, 2);
    }
  }

  /** The summaries' totals, over summaries each holding the selection of its title below q. */
  lemma {:induction false} SummariesTotalOver(ss: seq<Summary>, ts: seq<Transaction>, q: seq<string>)
    requires |q| == 2
    requires forall x :: x in ss ==> x.transactions == Select(ts, q + [x.title])
    ensures SummariesTotal(ss) == SumOver(SummaryTitles(ss), ts, q)
  {
    if ss != [] {
      var init := ss[..|ss| - 1];
      SummariesTotalOver(init, ts, q);
      assert SummaryTitles(ss)[..|init|] == SummaryTitles(init);
    }
  }

  /**
   * The total a built category computes, the sum of its summaries' totals,
   * is the total of the transactions of its year and month.
   */
  lemma CategoryTotal(c: Category, ts: seq<Transaction>)
    requires CategoryValid(c) && CategoryBuilt(c, ts)
    ensures SummariesTotal(c.orderedSummaries) == Total(Select(ts, [c.year, c.title]))
  {
    forall x | x in c.orderedSummaries
      ensures x.transactions == Select(ts, [c.year, c.title] + [x.title])
    {
      PathAppend(c.year, c.title, x.title);
      assert SummaryBuilt(x, ts);
    }
    SummariesTotalOver(c.orderedSummaries, ts, [c.year, c.title]);
    Partition(ts, [c.year, c.title]);
  }
}
