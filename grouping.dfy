/**
 * What GroupTransactions computes, in pkg/cmd/banking.go and again in
 * main.go: per beneficiary, the sum of the absolute values of the amounts
 * paid to or received from it. Both loops are proved against Groups.
 */
module Grouping {

  /** The two fields GroupTransactions reads from a transaction; the amount is in cents. */
  datatype Payment = Payment(beneficiary: string, amount: int)

  function Abs(x: int): (r: nat)
    ensures r == x || r == -x
  {
    if x < 0 then -x else x
  }

  /** A Go map read: the stored value, or the zero value for a missing key. */
  function Get(m: map<string, int>, k: string): int
  {
    if k in m then m[k] else 0
  }

  /** The sum of the absolute amounts of the payments with beneficiary b. */
  function AbsTotal(ps: seq<Payment>, b: string): nat
  {
    if ps == [] then 0
    else AbsTotal(ps[..|ps| - 1], b) + if ps[|ps| - 1].beneficiary == b then Abs(ps[|ps| - 1].amount) else 0
  }

  /** The beneficiaries occurring in ps. */
  function Beneficiaries(ps: seq<Payment>): set<string>
  {
    set p | p in ps :: p.beneficiary
  }

  /**
   * The grouping, one payment at a time: the payment's absolute amount is
   * added to its beneficiary's entry, a missing entry counting as zero.
   */
  function Groups(ps: seq<Payment>): map<string, int>
  {
    if ps == [] then map[]
    else
      var m, p := Groups(ps[..|ps| - 1]), ps[|ps| - 1];
      m[p.beneficiary := Get(m, p.beneficiary) + Abs(p.amount)]
  }

  /**
   * What the grouping holds: one key per beneficiary that occurs, whatever
   * its amounts (a zero amount still creates the key, and no payments give
   * an empty map), mapped to its total of absolute amounts, so never to a
   * negative value.
   */
  lemma {:induction false} GroupsMeaning(ps: seq<Payment>)
    ensures Groups(ps).Keys == Beneficiaries(ps)
    ensures forall b :: b in Groups(ps) ==> Groups(ps)[b] == AbsTotal(ps, b) >= 0
  {
    if ps != [] {
      var init, p := ps[..|ps| - 1], ps[|ps| - 1];
      assert ps == init + [p];
      GroupsMeaning(init);
      assert Beneficiaries(ps) == Beneficiaries(init) + {p.beneficiary};
      if p.beneficiary !in Beneficiaries(init) {
        AbsTotalAbsent(init, p.beneficiary);
      }
    }
  }

  /** One more payment changes only its own beneficiary's entry. */
  lemma GroupsOthers(ps: seq<Payment>, p: Payment, b: string)
    requires b != p.beneficiary
    ensures b in Groups(ps + [p]) <==> b in Groups(ps)
    ensures b in Groups(ps) ==> Groups(ps + [p])[b] == Groups(ps)[b]
  {
    assert (ps + [p])[..|ps|] == ps;
  }

  /** A beneficiary that does not occur has total zero. */
  lemma {:induction false} AbsTotalAbsent(ps: seq<Payment>, b: string)
    requires b !in Beneficiaries(ps)
    ensures AbsTotal(ps, b) == 0
  {
    if ps != [] {
      var init := ps[..|ps| - 1];
      assert Beneficiaries(init) <= Beneficiaries(ps) by {
        forall p | p in init ensures p in ps { }
      }
      assert ps[|ps| - 1] in ps;
      AbsTotalAbsent(init, b);
    }
  }

  lemma {:induction false} AbsTotalConcat(ps: seq<Payment>, qs: seq<Payment>, b: string)
    ensures AbsTotal(ps + qs, b) == AbsTotal(ps, b) + AbsTotal(qs, b)
    decreases |qs|
  {
    if qs == [] {
      assert ps + qs == ps;
    } else {
      assert (ps + qs)[..|ps + qs| - 1] == ps + qs[..|qs| - 1];
      AbsTotalConcat(ps, qs[..|qs| - 1], b);
    }
  }

  /** Taking the same element out of two equal multisets leaves equal multisets. */
  lemma RemoveOne<T>(init: seq<T>, t: T, us: seq<T>, j: nat)
    requires j < |us| && us[j] == t && multiset(init + [t]) == multiset(us)
    ensures multiset(us[..j] + us[j + 1..]) == multiset(init)
  {
    assert us == us[..j] + [t] + us[j + 1..];
    forall x ensures multiset(us[..j] + us[j + 1..])[x] == multiset(init)[x] {
      assert multiset(us)[x] == multiset(init + [t])[x];
    }
  }

  /** The totals depend only on which payments there are, not on their order. */
  lemma {:induction false} AbsTotalPermutation(ps: seq<Payment>, qs: seq<Payment>, b: string)
    requires multiset(ps) == multiset(qs)
    ensures AbsTotal(ps, b) == AbsTotal(qs, b)
    decreases |ps|
  {
    if ps != [] {
      var init, p := ps[..|ps| - 1], ps[|ps| - 1];
      assert ps == init + [p];
      assert p in multiset(qs);
      var j :| 0 <= j < |qs| && qs[j] == p;
      var left, right := qs[..j], qs[j + 1..];
      assert qs == left + [p] + right;
      RemoveOne(init, p, qs, j);
      AbsTotalPermutation(init, left + right, b);
      AbsTotalConcat(left, right, b);
      AbsTotalConcat(left + [p], right, b);
      AbsTotalConcat(left, [p], b);
      assert AbsTotal([p], b) == if p.beneficiary == b then Abs(p.amount) else 0 by {
        assert [p][..0] == [];
      }
    }
  }

  /** With exact amounts the grouping is independent of the order of the input. */
  lemma GroupsPermutation(ps: seq<Payment>, qs: seq<Payment>)
    requires multiset(ps) == multiset(qs)
    ensures Groups(ps) == Groups(qs)
  {
    forall p ensures p in ps <==> p in qs {
      assert p in ps <==> p in multiset(ps);
      assert p in qs <==> p in multiset(qs);
    }
    assert Beneficiaries(ps) == Beneficiaries(qs);
    GroupsMeaning(ps);
    GroupsMeaning(qs);
    forall b | b in Beneficiaries(ps) ensures AbsTotal(ps, b) == AbsTotal(qs, b) {
      AbsTotalPermutation(ps, qs, b);
    }
  }
}
