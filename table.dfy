/**
 * The table view of pkg/table/table.go: a Table flattens a four-level tree
 * of sums (years, months, beneficiaries, transactions) into rows, keeping
 * beside the rows a parallel slice ref of the node each row came from, so
 * that an action on row i can be sent to ref[i].
 *
 * The node type transactions.Sum is not part of this model; a Sum here is
 * a node with a fixed title, total and ordered children and a visibility
 * flag, the only state buildTable reads that can change between builds.
 */
module Tables {
  import opened Text
  import opened Wrappers

  /** A bubbles table row: four cells. */
  type Row = seq<string>

  class Sum {
    const title: string
    const total: int
    const sums: seq<Sum>
    var visible: bool

    constructor (title: string, total: int, sums: seq<Sum>, visible: bool)
      ensures this.title == title && this.total == total && this.sums == sums && this.visible == visible
    {
      this.title := title;
      this.total := total;
      this.sums := sums;
      this.visible := visible;
    }

    /**
     * Sum.Action, whose source is not part of this model: what an action
     * does on a node is looked up in outcomes (see Outcome), as the new
     * visibility of some nodes and whether it fails.
     */
    method Action(action: string, outcomes: Outcomes) returns (err: Option<string>)
      modifies Outcome(outcomes, this, action).shown.Keys
      ensures err == Outcome(outcomes, this, action).failure
      ensures var e := Outcome(outcomes, this, action); forall s :: s in e.shown ==> s.visible == e.shown[s]
    {
      var effect := Outcome(outcomes, this, action);
      forall s | s in effect.shown {
        s.visible := effect.shown[s];
      }
      err := effect.failure;
    }
  }

  /** What an action does to the tree: nodes whose visibility it sets, and its error if it fails. */
  datatype Effect = Effect(shown: map<Sum, bool>, failure: Option<string>)

  /** The outcome of each action on each node; a pair not listed changes nothing and succeeds. */
  type Outcomes = map<(Sum, string), Effect>

  function Outcome(outcomes: Outcomes, node: Sum, action: string): Effect
  {
    if (node, action) in outcomes then outcomes[(node, action)] else Effect(map[], None)
  }

  /** An emitted row's source: the node and its depth (0 year, 1 month, 2 beneficiary, 3 transaction). */
  datatype Entry = Entry(node: Sum, level: nat)

  /** The nodes of a forest of sums down to the transaction level. */
  ghost function Reach(ss: seq<Sum>, level: nat): set<Sum>
    requires level <= 3
    decreases 3 - level, |ss|
  {
    if ss == [] then {} else Reach(ss[..|ss| - 1], level) + ReachTree(ss[|ss| - 1], level)
  }

  ghost function ReachTree(s: Sum, level: nat): set<Sum>
    requires level <= 3
    decreases 3 - level, 0
  {
    {s} + if level < 3 then Reach(s.sums, level + 1) else {}
  }

  /** Whether a node is visible in a snapshot of the nodes' visibility. */
  predicate Shown(vis: map<Sum, bool>, s: Sum)
  {
    s in vis && vis[s]
  }

  /** The visibility of the nodes ns in the current state. */
  ghost function Visibility(ns: set<Sum>): (vis: map<Sum, bool>)
    reads ns`visible
    ensures vis.Keys == ns && Agrees(vis)
  {
    map n | n in ns :: n.visible
  }

  /** A snapshot agrees with the current visibility of the nodes it covers. */
  ghost predicate Agrees(vis: map<Sum, bool>)
    reads vis.Keys`visible
  {
    forall n :: n in vis ==> vis[n] == n.visible
  }

  /**
   * The entries buildTable emits for the forest ss at a level, under the
   * visibility vis: each visible node in order, followed by the entries of
   * its children; a node that is not visible is skipped with its subtree.
   */
  function Entries(ss: seq<Sum>, level: nat, vis: map<Sum, bool>): (es: seq<Entry>)
    requires level <= 3
    ensures forall i :: 0 <= i < |es| ==> level <= es[i].level <= 3
    decreases 3 - level, |ss|
  {
    if ss == [] then [] else Entries(ss[..|ss| - 1], level, vis) + Tree(ss[|ss| - 1], level, vis)
  }

  function Tree(s: Sum, level: nat, vis: map<Sum, bool>): (es: seq<Entry>)
    requires level <= 3
    ensures forall i :: 0 <= i < |es| ==> level <= es[i].level <= 3
    decreases 3 - level, 0
  {
    if !Shown(vis, s) then []
    else [Entry(s, level)] + if level < 3 then Entries(s.sums, level + 1, vis) else []
  }

  lemma EntriesStep(ss: seq<Sum>, i: nat, level: nat, vis: map<Sum, bool>)
    requires i < |ss| && level <= 3
    ensures ReachTree(ss[i], level) <= Reach(ss, level)
    ensures Entries(ss[..i + 1], level, vis) == Entries(ss[..i], level, vis) + Tree(ss[i], level, vis)
  {
    assert ss[..i + 1][..i] == ss[..i];
    ReachPrefix(ss, i + 1, level);
  }

  /** Every node of the forest ss, down to the transaction level, has a visibility in vis. */
  ghost predicate Covers(vis: map<Sum, bool>, ss: seq<Sum>, level: nat)
    requires level <= 3
    decreases 3 - level
  {
    forall i :: 0 <= i < |ss| ==> ss[i] in vis && (level < 3 ==> Covers(vis, ss[i].sums, level + 1))
  }

  lemma {:induction false} ReachCovers(vis: map<Sum, bool>, ss: seq<Sum>, level: nat)
    requires level <= 3 && Reach(ss, level) <= vis.Keys
    ensures Covers(vis, ss, level)
    decreases 3 - level
  {
    ReachPrefix(ss, |ss|, level);
    forall i | 0 <= i < |ss|
      ensures ss[i] in vis && (level < 3 ==> Covers(vis, ss[i].sums, level + 1))
    {
      if level < 3 {
        ReachCovers(vis, ss[i].sums, level + 1);
      }
    }
  }

  lemma {:induction false} ReachPrefix(ss: seq<Sum>, n: nat, level: nat)
    requires n <= |ss| && level <= 3
    ensures Reach(ss[..n], level) <= Reach(ss, level)
    ensures forall i :: 0 <= i < n ==> ReachTree(ss[i], level) <= Reach(ss, level)
    decreases |ss|
  {
    if n < |ss| {
      ReachPrefix(ss[..|ss| - 1], n, level);
      assert ss[..|ss| - 1][..n] == ss[..n];
    } else if ss != [] {
      assert ss[..n] == ss;
      ReachPrefix(ss[..|ss| - 1], n - 1, level);
    }
  }

  // ---- What the layout promises

  /** The nodes of the entries at one level, in order. */
  function TopLevel(es: seq<Entry>, level: nat): seq<Sum>
  {
    if es == [] then []
    else TopLevel(es[..|es| - 1], level) + if es[|es| - 1].level == level then [es[|es| - 1].node] else []
  }

  /** The visible nodes of ss, in order. */
  function VisibleOf(ss: seq<Sum>, vis: map<Sum, bool>): seq<Sum>
  {
    if ss == [] then []
    else VisibleOf(ss[..|ss| - 1], vis) + if Shown(vis, ss[|ss| - 1]) then [ss[|ss| - 1]] else []
  }

  lemma {:induction false} TopLevelAppend(a: seq<Entry>, b: seq<Entry>, level: nat)
    ensures TopLevel(a + b, level) == TopLevel(a, level) + TopLevel(b, level)
    decreases |b|
  {
    if b == [] {
      assert a + b == a;
    } else {
      assert (a + b)[..|a + b| - 1] == a + b[..|b| - 1];
      assert (a + b)[|a + b| - 1] == b[|b| - 1];
      TopLevelAppend(a, b[..|b| - 1], level);
    }
  }

  lemma {:induction false} TopLevelDeeper(es: seq<Entry>, level: nat)
    requires forall i :: 0 <= i < |es| ==> es[i].level > level
    ensures TopLevel(es, level) == []
    decreases |es|
  {
    if es != [] {
      TopLevelDeeper(es[..|es| - 1], level);
    }
  }

  /**
   * The rows at a level of a forest are its visible nodes, in order, each
   * once: a year row for every visible year and for nothing else.
   */
  lemma {:induction false} Siblings(ss: seq<Sum>, level: nat, vis: map<Sum, bool>)
    requires level <= 3
    ensures TopLevel(Entries(ss, level, vis), level) == VisibleOf(ss, vis)
    decreases |ss|
  {
    if ss != [] {
      var init, last := ss[..|ss| - 1], ss[|ss| - 1];
      Siblings(init, level, vis);
      TopLevelAppend(Entries(init, level, vis), Tree(last, level, vis), level);
      TreeTop(last, level, vis);
    }
  }

  /** The only entry of a node's own subtree at its level is its own, when it is visible. */
  lemma TreeTop(s: Sum, level: nat, vis: map<Sum, bool>)
    requires level <= 3
    ensures TopLevel(Tree(s, level, vis), level) == if Shown(vis, s) then [s] else []
  {
    if Shown(vis, s) {
      var children := if level < 3 then Entries(s.sums, level + 1, vis) else [];
      TopLevelDeeper(children, level);
      TopLevelAppend([Entry(s, level)], children, level);
      assert [Entry(s, level)][..0] == [];
    }
  }

  /** Every emitted node is visible, and one emitted at the forest's own level belongs to the forest. */
  lemma {:induction false} Emitted(ss: seq<Sum>, level: nat, vis: map<Sum, bool>)
    requires level <= 3
    ensures forall i :: 0 <= i < |Entries(ss, level, vis)| ==> Shown(vis, Entries(ss, level, vis)[i].node)
    ensures forall i :: 0 <= i < |Entries(ss, level, vis)| && Entries(ss, level, vis)[i].level == level ==>
              Entries(ss, level, vis)[i].node in ss
    decreases 3 - level, |ss|
  {
    if ss != [] {
      var init, last := ss[..|ss| - 1], ss[|ss| - 1];
      Emitted(init, level, vis);
      TreeEmitted(last, level, vis);
      var a: seq<Entry>, b: seq<Entry> := Entries(init, level, vis), Tree(last, level, vis);
      forall i | 0 <= i < |a + b|
        ensures Shown(vis, (a + b)[i].node)
        ensures (a + b)[i].level == level ==> (a + b)[i].node in ss
      {
        if i < |a| {
          assert (a + b)[i] == a[i] && a[i].level == level ==> a[i].node in init;
        } else {
          assert (a + b)[i] == b[i - |a|];
        }
      }
    }
  }

  lemma {:induction false} TreeEmitted(s: Sum, level: nat, vis: map<Sum, bool>)
    requires level <= 3
    ensures forall i :: 0 <= i < |Tree(s, level, vis)| ==> Shown(vis, Tree(s, level, vis)[i].node)
    ensures forall i :: 0 <= i < |Tree(s, level, vis)| && Tree(s, level, vis)[i].level == level ==>
              Tree(s, level, vis)[i].node == s
    decreases 3 - level, 0
  {
    if Shown(vis, s) && level < 3 {
      Emitted(s.sums, level + 1, vis);
      var c := Entries(s.sums, level + 1, vis);
      forall i | 1 <= i < |Tree(s, level, vis)|
        ensures Tree(s, level, vis)[i] == c[i - 1]
      {
      }
    }
  }

  /**
   * Entry j is the parent of entry i: it comes first, one level up, holds
   * i's node among its children, and only deeper entries lie between them.
   */
  ghost predicate ParentAt(es: seq<Entry>, i: int, j: int)
  {
    0 <= j < i < |es| && es[j].level + 1 == es[i].level && es[i].node in es[j].node.sums &&
    forall k :: j < k < i ==> es[k].level >= es[i].level
  }

  /**
   * Pre-order: every entry below the forest's level has a parent entry
   * before it, so a node is emitted only under an emitted (hence visible)
   * parent, and a hidden node's subtree is not emitted at all.
   */
  ghost predicate ParentsFirst(es: seq<Entry>, level: nat)
  {
    forall i :: 0 <= i < |es| && es[i].level > level ==> exists j :: ParentAt(es, i, j)
  }

  /** An entry of a keeps its parent when b is appended. */
  lemma ParentAtPrefix(a: seq<Entry>, b: seq<Entry>, level: nat, i: int)
    requires ParentsFirst(a, level) && 0 <= i < |a| && a[i].level > level
    ensures exists j :: ParentAt(a + b, i, j)
  {
    var j :| ParentAt(a, i, j);
    assert forall k :: 0 <= k < |a| ==> (a + b)[k] == a[k];
    assert ParentAt(a + b, i, j);
  }

  /** An entry of b keeps its parent, shifted, when b is appended to a. */
  lemma ParentAtShift(a: seq<Entry>, b: seq<Entry>, level: nat, i: int)
    requires ParentsFirst(b, level) && |a| <= i < |a| + |b| && b[i - |a|].level > level
    ensures exists j :: ParentAt(a + b, i, j)
  {
    var j :| ParentAt(b, i - |a|, j);
    assert forall k :: |a| <= k < |a + b| ==> (a + b)[k] == b[k - |a|];
    assert ParentAt(a + b, i, |a| + j);
  }

  lemma ParentsFirstAppend(a: seq<Entry>, b: seq<Entry>, level: nat)
    requires ParentsFirst(a, level) && ParentsFirst(b, level)
    ensures ParentsFirst(a + b, level)
  {
    forall i | 0 <= i < |a + b| && (a + b)[i].level > level
      ensures exists j :: ParentAt(a + b, i, j)
    {
      if i < |a| {
        assert (a + b)[i] == a[i];
        ParentAtPrefix(a, b, level, i);
      } else {
        assert (a + b)[i] == b[i - |a|];
        ParentAtShift(a, b, level, i);
      }
    }
  }

  lemma {:induction false} Preorder(ss: seq<Sum>, level: nat, vis: map<Sum, bool>)
    requires level <= 3
    ensures ParentsFirst(Entries(ss, level, vis), level)
    decreases 3 - level, |ss|
  {
    if ss != [] {
      Preorder(ss[..|ss| - 1], level, vis);
      TreePreorder(ss[|ss| - 1], level, vis);
      ParentsFirstAppend(Entries(ss[..|ss| - 1], level, vis), Tree(ss[|ss| - 1], level, vis), level);
    }
  }

  lemma {:induction false} TreePreorder(s: Sum, level: nat, vis: map<Sum, bool>)
    requires level <= 3
    ensures ParentsFirst(Tree(s, level, vis), level)
    decreases 3 - level, 0
  {
    if Shown(vis, s) && level < 3 {
      Preorder(s.sums, level + 1, vis);
      Emitted(s.sums, level + 1, vis);
      UnderHead(Entry(s, level), Entries(s.sums, level + 1, vis));
    }
  }

  /**
   * Entries one level down, pre-ordered among themselves, whose top entries
   * are children of e, are pre-ordered under e.
   */
  lemma UnderHead(e: Entry, c: seq<Entry>)
    requires ParentsFirst(c, e.level + 1)
    requires forall k :: 0 <= k < |c| ==> c[k].level > e.level
    requires forall k :: 0 <= k < |c| && c[k].level == e.level + 1 ==> c[k].node in e.node.sums
    ensures ParentsFirst([e] + c, e.level)
  {
    var es := [e] + c;
    forall i | 0 <= i < |es| && es[i].level > e.level
      ensures exists j :: ParentAt(es, i, j)
    {
      assert i > 0 && es[i] == c[i - 1];
      if c[i - 1].level == e.level + 1 {
        assert forall k :: 0 < k < i ==> es[k] == c[k - 1];
        assert ParentAt(es, i, 0);
      } else {
        ParentAtShift([e], c, e.level + 1, i);
      }
    }
  }

  /** newRow: date, beneficiary and description cells, then the sum rendered with two decimals. */
  function NewRow(date: string, beneficiary: string, description: string, sum: int): (r: Row)
    ensures |r| == 4 && r[0] == date && r[1] == beneficiary && r[2] == description
    ensures r[3] == FormatCents(sum)
  {
    [date, beneficiary, description, FormatCents(sum)]
  }

  /** The row of an entry: its title in the column of its level ("- " before a month), its total last. */
  function RowOf(e: Entry): Row
  {
    match e.level
    case 0 => NewRow(e.node.title, "", "", e.node.total)
    case 1 => NewRow("- " + e.node.title, "", "", e.node.total)
    case 2 => NewRow("", e.node.title, "", e.node.total)
    case _ => NewRow("", "", e.node.title, e.node.total)
  }

  /**
   * The table's two parallel slices are laid out from the entries es: as
   * many rows as refs as entries, and row i is the row of entry i, whose
   * node is ref[i].
   */
  ghost predicate Laid(ref: seq<Sum>, rows: seq<Row>, es: seq<Entry>)
  {
    |ref| == |es| && |rows| == |es| && forall i :: 0 <= i < |es| ==> ref[i] == es[i].node && rows[i] == RowOf(es[i])
  }

  lemma LaidAppend(ref: seq<Sum>, rows: seq<Row>, es: seq<Entry>, e: Entry)
    requires Laid(ref, rows, es)
    ensures Laid(ref + [e.node], rows + [RowOf(e)], es + [e])
  {
  }

  /**
   * The entries fix the rows and refs completely: building again from an
   * unchanged visibility gives back the same table.
   */
  lemma LaidUnique(ref: seq<Sum>, rows: seq<Row>, ref': seq<Sum>, rows': seq<Row>, es: seq<Entry>)
    requires Laid(ref, rows, es) && Laid(ref', rows', es)
    ensures ref == ref' && rows == rows'
  {
  }

  /** Concatenation of entry lists is associative. */
  lemma AppendAssociative(a: seq<Entry>, b: seq<Entry>, c: seq<Entry>)
    ensures a + b + c == a + (b + c)
  {
  }

  class Table {
    var rows: seq<Row>
    var ref: seq<Sum>
    const model: Sum

    /** What buildTable lays out for the current visibility of the model's nodes. */
    ghost function Layout(): seq<Entry>
      reads Reach(model.sums, 0)`visible
    {
      Entries(model.sums, 0, Visibility(Reach(model.sums, 0)))
    }

    /** NewTable: a table over summary, built at once. */
    constructor (summary: Sum)
      ensures model == summary && Laid(ref, rows, Layout())
    {
      rows := [];
      ref := [];
      model := summary;
      new;
      BuildTable();
    }

    /**
     * action: the action is sent to the node of the given row; if that
     * fails, the error is returned and the table is left as it was,
     * otherwise the table is rebuilt for the new visibility.
     */
    method Action(row: int, action: string, outcomes: Outcomes) returns (err: Option<string>)
      requires 0 <= row < |ref|
      modifies this`rows, this`ref, Outcome(outcomes, ref[row], action).shown.Keys
      ensures err == Outcome(outcomes, old(ref[row]), action).failure
      ensures var e := Outcome(outcomes, old(ref[row]), action); forall s :: s in e.shown ==> s.visible == e.shown[s]
      ensures err.Some? ==> rows == old(rows) && ref == old(ref)
      ensures err.None? ==> Laid(ref, rows, Layout())
    {
      err := ref[row].Action(action, outcomes);
      if err.Some? {
        return;
      }
      BuildTable();
    }

    /** reset: no rows and no refs. */
    method Reset()
      modifies this`rows, this`ref
      ensures rows == [] && ref == []
    {
      rows := [];
      ref := [];
    }

    /**
     * buildTable: the rows and refs of the model's visible nodes in
     * pre-order. Nothing of the previous rows survives, so building an
     * unchanged model again gives the same rows and refs.
     */
    method BuildTable()
      modifies this`rows, this`ref
      ensures Laid(ref, rows, Layout())
    {
      ghost var vis := Visibility(Reach(model.sums, 0));
      ReachCovers(vis, model.sums, 0);
      Reset();
      var years := model.sums;
      for i := 0 to |years|
        invariant Agrees(vis)
        invariant Laid(ref, rows, Entries(years[..i], 0, vis))
      {
        EntriesStep(years, i, 0, vis);
        AppendYear(years[i], Entries(years[..i], 0, vis), vis);
      }
      assert years[..|years|] == years;
    }

    /** One pass of the year loop of buildTable: a visible year's row, then its months. */
    method AppendYear(year: Sum, ghost start: seq<Entry>, ghost vis: map<Sum, bool>)
      requires Agrees(vis) && year in vis && Covers(vis, year.sums, 1)
      requires Laid(ref, rows, start)
      modifies this`rows, this`ref
      ensures Laid(ref, rows, start + Tree(year, 0, vis))
    {
      if !year.visible {
        return;
      }
      LaidAppend(ref, rows, start, Entry(year, 0));
      ref := ref + [year];
      rows := rows + [NewRow(year.title, "", "", year.total)];
      ghost var head := start + [Entry(year, 0)];
      var months := year.sums;
      for j := 0 to |months|
        invariant Agrees(vis)
        invariant Laid(ref, rows, head + Entries(months[..j], 1, vis))
      {
        EntriesStep(months, j, 1, vis);
        AppendMonth(months[j], head + Entries(months[..j], 1, vis), vis);
        AppendAssociative(head, Entries(months[..j], 1, vis), Tree(months[j], 1, vis));
      }
      assert months[..|months|] == months;
      AppendAssociative(start, [Entry(year, 0)], Entries(months, 1, vis));
    }

    /** One pass of the month loop of buildTable: a visible month's row, then its beneficiaries. */
    method AppendMonth(month: Sum, ghost start: seq<Entry>, ghost vis: map<Sum, bool>)
      requires Agrees(vis) && month in vis && Covers(vis, month.sums, 2)
      requires Laid(ref, rows, start)
      modifies this`rows, this`ref
      ensures Laid(ref, rows, start + Tree(month, 1, vis))
    {
      if !month.visible {
        return;
      }
      LaidAppend(ref, rows, start, Entry(month, 1));
      ref := ref + [month];
      rows := rows + [NewRow("- " + month.title, "", "", month.total)];
      ghost var head := start + [Entry(month, 1)];
      var beneficiaries := month.sums;
      for k := 0 to |beneficiaries|
        invariant Agrees(vis)
        invariant Laid(ref, rows, head + Entries(beneficiaries[..k], 2, vis))
      {
        EntriesStep(beneficiaries, k, 2, vis);
        AppendBeneficiary(beneficiaries[k], head + Entries(beneficiaries[..k], 2, vis), vis);
        AppendAssociative(head, Entries(beneficiaries[..k], 2, vis), Tree(beneficiaries[k], 2, vis));
      }
      assert beneficiaries[..|beneficiaries|] == beneficiaries;
      AppendAssociative(start, [Entry(month, 1)], Entries(beneficiaries, 2, vis));
    }

    /** One pass of the beneficiary loop of buildTable: a visible beneficiary's row, then its transactions. */
    method AppendBeneficiary(beneficiary: Sum, ghost start: seq<Entry>, ghost vis: map<Sum, bool>)
      requires Agrees(vis) && beneficiary in vis && Covers(vis, beneficiary.sums, 3)
      requires Laid(ref, rows, start)
      modifies this`rows, this`ref
      ensures Laid(ref, rows, start + Tree(beneficiary, 2, vis))
    {
      if !beneficiary.visible {
        return;
      }
      LaidAppend(ref, rows, start, Entry(beneficiary, 2));
      ref := ref + [beneficiary];
      rows := rows + [NewRow("", beneficiary.title, "", beneficiary.total)];
      ghost var head := start + [Entry(beneficiary, 2)];
      var transactions := beneficiary.sums;
      for l := 0 to |transactions|
        invariant Agrees(vis)
        invariant Laid(ref, rows, head + Entries(transactions[..l], 3, vis))
      {
        EntriesStep(transactions, l, 3, vis);
        AppendTransaction(transactions[l], head + Entries(transactions[..l], 3, vis), vis);
        AppendAssociative(head, Entries(transactions[..l], 3, vis), Tree(transactions[l], 3, vis));
      }
      assert transactions[..|transactions|] == transactions;
      AppendAssociative(start, [Entry(beneficiary, 2)], Entries(transactions, 3, vis));
    }

    /** One pass of the innermost loop of buildTable: a visible transaction's row. */
    method AppendTransaction(transaction: Sum, ghost start: seq<Entry>, ghost vis: map<Sum, bool>)
      requires Agrees(vis) && transaction in vis
      requires Laid(ref, rows, start)
      modifies this`rows, this`ref
      ensures Laid(ref, rows, start + Tree(transaction, 3, vis))
    {
      if !transaction.visible {
        return;
      }
      LaidAppend(ref, rows, start, Entry(transaction, 3));
      ref := ref + [transaction];
      rows := rows + [NewRow("", "", transaction.title, transaction.total)];
    }
  }
}
