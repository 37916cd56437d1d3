/**
 * The grouping that NewWindow performs (pkg/transactions/window.go:43-73),
 * stated over values: a transaction's keys are its valuta year, its month
 * name and its beneficiary, and the tree built from a transaction list has,
 * under every key prefix q, the children FirstSeen(Keys(Select(ts, q), |q|))
 * and, at a full path, the transactions Select(ts, path).
 */
module Aggregation {
  import opened Text
  import opened Records
  import opened Order

  /** The key of a transaction at a level: 0 year tab, 1 month category, 2 beneficiary summary. */
  function KeyAt(t: Transaction, level: nat): string
    requires level < 3
  {
    if level == 0 then Itoa(t.valutaDate.year)
    else if level == 1 then MonthName(t.valutaDate.month)
    else t.beneficiary
  }

  /** The full path a transaction is filed under. */
  function Path(t: Transaction): (p: seq<string>)
    ensures |p| == 3 && forall level :: 0 <= level < 3 ==> p[level] == KeyAt(t, level)
  {
    [KeyAt(t, 0), KeyAt(t, 1), KeyAt(t, 2)]
  }

  /** The first |q| keys of t are q. */
  predicate Matches(t: Transaction, q: seq<string>)
    requires |q| <= 3
  {
    forall level :: 0 <= level < |q| ==> q[level] == KeyAt(t, level)
  }

  lemma MatchesExtend(t: Transaction, q: seq<string>, k: string)
    requires |q| < 3
    ensures Matches(t, q + [k]) <==> Matches(t, q) && KeyAt(t, |q|) == k
  {
    if Matches(t, q) && KeyAt(t, |q|) == k {
      forall level | 0 <= level < |q| + 1
        ensures (q + [k])[level] == KeyAt(t, level)
      {
        if level < |q| {
          assert (q + [k])[level] == q[level];
        }
      }
    }
    if Matches(t, q + [k]) {
      assert (q + [k])[|q|] == k;
      forall level | 0 <= level < |q|
        ensures q[level] == KeyAt(t, level)
      {
        assert (q + [k])[level] == q[level];
      }
    }
  }

  /** A non-empty sequence is its prefix followed by its last element. */
  lemma SplitLast<T>(s: seq<T>)
    requires s != []
    ensures s == s[..|s| - 1] + [s[|s| - 1]]
  {
  }

  /** Appending a key to an empty, one-key or two-key path gives the path one key longer. */
  lemma PathAppend(a: string, b: string, c: string)
    ensures [] + [a] == [a] && [a] + [b] == [a, b] && [a, b] + [c] == [a, b, c]
  {
  }

  /** Matching the prefixes of one path a, b, c, key by key. */
  lemma MatchesKeys(t: Transaction, a: string, b: string, c: string)
    ensures Matches(t, [a]) <==> a == KeyAt(t, 0)
    ensures Matches(t, [a, b]) <==> a == KeyAt(t, 0) && b == KeyAt(t, 1)
    ensures Matches(t, [a, b, c]) <==> a == KeyAt(t, 0) && b == KeyAt(t, 1) && c == KeyAt(t, 2)
  {
    PathAppend(a, b, c);
    MatchesExtend(t, [], a);
    MatchesExtend(t, [a], b);
    MatchesExtend(t, [a, b], c);
  }

  /** The transactions of ts, in input order, whose first |q| keys are q. */
  function Select(ts: seq<Transaction>, q: seq<string>): (r: seq<Transaction>)
    requires |q| <= 3
  {
    if ts == [] then []
    else
      var t := ts[|ts| - 1];
      Select(ts[..|ts| - 1], q) + (if Matches(t, q) then [t] else [])
  }

  /** The key at the given level of every transaction, in input order. */
  function Keys(ts: seq<Transaction>, level: nat): (r: seq<string>)
    requires level < 3
    ensures |r| == |ts|
  {
    if ts == [] then [] else Keys(ts[..|ts| - 1], level) + [KeyAt(ts[|ts| - 1], level)]
  }

  /** The key of each transaction sits at that transaction's position. */
  lemma {:induction false} KeysAt(ts: seq<Transaction>, level: nat)
    requires level < 3
    ensures forall i :: 0 <= i < |ts| ==> Keys(ts, level)[i] == KeyAt(ts[i], level)
  {
    if ts != [] {
      KeysAt(ts[..|ts| - 1], level);
    }
  }

  /** A transaction of ts contributes its key to Keys, and a selected one is in ts. */
  lemma KeyOccurs(ts: seq<Transaction>, t: Transaction, level: nat)
    requires level < 3 && t in ts
    ensures KeyAt(t, level) in Keys(ts, level)
  {
    KeysAt(ts, level);
    var i :| 0 <= i < |ts| && ts[i] == t;
    assert Keys(ts, level)[i] == KeyAt(t, level);
  }

  /** Sum of the amounts. */
  function Total(ts: seq<Transaction>): int
  {
    if ts == [] then 0 else Total(ts[..|ts| - 1]) + ts[|ts| - 1].amount
  }

  /** Sum of Total(Select(ts, q + [k])) over the keys k of ks. */
  function SumOver(ks: seq<string>, ts: seq<Transaction>, q: seq<string>): int
    requires |q| < 3
  {
    if ks == [] then 0 else SumOver(ks[..|ks| - 1], ts, q) + Total(Select(ts, q + [ks[|ks| - 1]]))
  }

  lemma SelectAppend(ts: seq<Transaction>, t: Transaction, q: seq<string>)
    requires |q| <= 3
    ensures Select(ts + [t], q) == Select(ts, q) + (if Matches(t, q) then [t] else [])
  {
    assert (ts + [t])[..|ts|] == ts;
  }

  lemma KeysAppend(ts: seq<Transaction>, t: Transaction, level: nat)
    requires level < 3
    ensures Keys(ts + [t], level) == Keys(ts, level) + [KeyAt(t, level)]
  {
    assert (ts + [t])[..|ts|] == ts;
  }

  /** The empty prefix selects everything. */
  lemma {:induction false} SelectNothing(ts: seq<Transaction>)
    ensures Select(ts, []) == ts
  {
    if ts != [] {
      SelectNothing(ts[..|ts| - 1]);
    }
  }

  /** A key that never occurs below q selects no transaction. */
  lemma {:induction false} SelectUnseen(ts: seq<Transaction>, q: seq<string>, k: string)
    requires |q| < 3
    requires k !in Keys(Select(ts, q), |q|)
    ensures Select(ts, q + [k]) == []
  {
    if ts != [] {
      var init, t := ts[..|ts| - 1], ts[|ts| - 1];
      SplitLast(ts);
      SelectAppend(init, t, q);
      SelectAppend(init, t, q + [k]);
      MatchesExtend(t, q, k);
      if Matches(t, q) {
        assert Select(ts, q) == Select(init, q) + [t];
        KeysAppend(Select(init, q), t, |q|);
        assert Keys(Select(ts, q), |q|) == Keys(Select(init, q), |q|) + [KeyAt(t, |q|)];
      } else {
        assert Select(ts, q) == Select(init, q);
      }
      SelectUnseen(init, q, k);
      assert Select(ts, q + [k]) == Select(init, q + [k]);
    }
  }

  /**
   * Filing t under a prefix q it matches: the keys one level below q gain
   * t's key at the end when it is new, and a new key selected nothing before.
   */
  lemma FirstSeenStep(ts: seq<Transaction>, t: Transaction, q: seq<string>)
    requires |q| < 3 && Matches(t, q)
    ensures var k := KeyAt(t, |q|);
      FirstSeen(Keys(Select(ts + [t], q), |q|))
        == if k in Keys(Select(ts, q), |q|) then FirstSeen(Keys(Select(ts, q), |q|))
           else FirstSeen(Keys(Select(ts, q), |q|)) + [k]
    ensures KeyAt(t, |q|) !in Keys(Select(ts, q), |q|) ==> Select(ts, q + [KeyAt(t, |q|)]) == []
  {
    var k := KeyAt(t, |q|);
    SelectAppend(ts, t, q);
    KeysAppend(Select(ts, q), t, |q|);
    FirstSeenAppend(Keys(Select(ts, q), |q|), k);
    if k !in Keys(Select(ts, q), |q|) {
      SelectUnseen(ts, q, k);
    }
  }

  /** FirstSeenStep at the top level, where the keys are the years of all of ts. */
  lemma FirstSeenYearStep(ts: seq<Transaction>, t: Transaction)
    ensures var k := KeyAt(t, 0);
      FirstSeen(Keys(ts + [t], 0))
        == if k in Keys(ts, 0) then FirstSeen(Keys(ts, 0)) else FirstSeen(Keys(ts, 0)) + [k]
    ensures KeyAt(t, 0) !in Keys(ts, 0) ==> Select(ts, [KeyAt(t, 0)]) == []
  {
    KeysAppend(ts, t, 0);
    FirstSeenAppend(Keys(ts, 0), KeyAt(t, 0));
    if KeyAt(t, 0) !in Keys(ts, 0) {
      SelectUnseenYear(ts, KeyAt(t, 0));
    }
  }

  /** A year key that never occurs selects nothing. */
  lemma SelectUnseenYear(ts: seq<Transaction>, k: string)
    requires k !in Keys(ts, 0)
    ensures Select(ts, [k]) == []
  {
    SelectNothing(ts);
    SelectUnseen(ts, [], k);
    assert [] + [k] == [k];
  }

  lemma {:induction false} TotalAppend(ts: seq<Transaction>, t: Transaction)
    ensures Total(ts + [t]) == Total(ts) + t.amount
  {
    assert (ts + [t])[..|ts|] == ts;
  }

  /** SumOver when one more transaction arrives that is not below q. */
  lemma {:induction false} SumOverOther(ks: seq<string>, ts: seq<Transaction>, t: Transaction, q: seq<string>)
    requires |q| < 3
    requires !Matches(t, q)
    ensures SumOver(ks, ts + [t], q) == SumOver(ks, ts, q)
  {
    if ks != [] {
      var k := ks[|ks| - 1];
      SumOverOther(ks[..|ks| - 1], ts, t, q);
      SelectAppend(ts, t, q + [k]);
      MatchesExtend(t, q, k);
      assert Select(ts + [t], q + [k]) == Select(ts, q + [k]);
    }
  }

  /** SumOver distinct keys when one more transaction arrives below q: it adds to its own key only. */
  lemma {:induction false} SumOverOwn(ks: seq<string>, ts: seq<Transaction>, t: Transaction, q: seq<string>)
    requires |q| < 3
    requires Matches(t, q)
    requires NoDuplicates(ks)
    ensures SumOver(ks, ts + [t], q) == SumOver(ks, ts, q) + (if KeyAt(t, |q|) in ks then t.amount else 0)
  {
    if ks != [] {
      var init, k := ks[..|ks| - 1], ks[|ks| - 1];
      SplitLast(ks);
      assert NoDuplicates(init);
      SumOverOwn(init, ts, t, q);
      SelectAppend(ts, t, q + [k]);
      MatchesExtend(t, q, k);
      if KeyAt(t, |q|) == k {
        assert Select(ts + [t], q + [k]) == Select(ts, q + [k]) + [t];
        TotalAppend(Select(ts, q + [k]), t);
        assert k !in init;
      } else {
        assert Select(ts + [t], q + [k]) == Select(ts, q + [k]);
        assert KeyAt(t, |q|) in ks <==> KeyAt(t, |q|) in init;
      }
    }
  }

  /**
   * The totals of the children of q, taken over the children in first-seen
   * order, add up to the total below q: every transaction below q is
   * counted in exactly one child.
   */
  lemma {:induction false} Partition(ts: seq<Transaction>, q: seq<string>)
    requires |q| < 3
    ensures SumOver(FirstSeen(Keys(Select(ts, q), |q|)), ts, q) == Total(Select(ts, q))
  {
    if ts != [] {
      var init, t := ts[..|ts| - 1], ts[|ts| - 1];
      SplitLast(ts);
      Partition(init, q);
      var before := Keys(Select(init, q), |q|);
      var ks := FirstSeen(before);
      SelectAppend(init, t, q);
      if Matches(t, q) {
        var kt := KeyAt(t, |q|);
        assert Select(ts, q) == Select(init, q) + [t];
        KeysAppend(Select(init, q), t, |q|);
        assert Keys(Select(ts, q), |q|) == before + [kt];
        FirstSeenAppend(before, kt);
        TotalAppend(Select(init, q), t);
        SumOverOwn(ks, init, t, q);
        if kt in before {
          assert FirstSeen(before + [kt]) == ks;
          assert SumOver(ks, ts, q) == SumOver(ks, init, q) + t.amount;
        } else {
          assert FirstSeen(before + [kt]) == ks + [kt];
          assert (ks + [kt])[..|ks|] == ks;
          assert SumOver(ks + [kt], ts, q) == SumOver(ks, ts, q) + Total(Select(ts, q + [kt]));
          SelectUnseen(init, q, kt);
          SelectAppend(init, t, q + [kt]);
          MatchesExtend(t, q, kt);
          assert Select(ts, q + [kt]) == [] + [t];
          TotalAppend([], t);
          assert SumOver(FirstSeen(Keys(Select(ts, q), |q|)), ts, q) == Total(Select(ts, q));
        }
      } else {
        assert Select(ts, q) == Select(init, q);
        SumOverOther(ks, init, t, q);
        assert FirstSeen(Keys(Select(ts, q), |q|)) == ks;
      }
    }
  }

  /** Select keeps every copy of a transaction that matches q and no copy of one that does not. */
  lemma {:induction false} SelectCount(ts: seq<Transaction>, q: seq<string>, t: Transaction)
    requires |q| <= 3
    ensures multiset(Select(ts, q))[t] == if Matches(t, q) then multiset(ts)[t] else 0
  {
    if ts != [] {
      var init, u := ts[..|ts| - 1], ts[|ts| - 1];
      SplitLast(ts);
      SelectCount(init, q, t);
      SelectAppend(init, u, q);
    }
  }

  /** A full path matches exactly the transactions filed under it. */
  lemma MatchesPath(t: Transaction, q: seq<string>)
    requires |q| == 3
    ensures Matches(t, q) <==> q == Path(t)
  {
    if Matches(t, q) {
      assert q[0] == Path(t)[0] && q[1] == Path(t)[1] && q[2] == Path(t)[2];
    }
  }

  /**
   * Every transaction is filed under exactly one full path: all its
   * occurrences are selected by its own path, and no other path selects it.
   */
  lemma FiledOnce(ts: seq<Transaction>, t: Transaction)
    ensures multiset(Select(ts, Path(t)))[t] == multiset(ts)[t]
    ensures forall q :: |q| == 3 && q != Path(t) ==> t !in Select(ts, q)
  {
    SelectCount(ts, Path(t), t);
    MatchesPath(t, Path(t));
    forall q | |q| == 3 && q != Path(t)
      ensures t !in Select(ts, q)
    {
      SelectCount(ts, q, t);
      MatchesPath(t, q);
    }
  }
}
