/**
 * First-seen order: the distinct keys of a sequence, each at the position
 * of its first occurrence. This is the order in which the grouping window
 * appends a child to its parent's ordered slice.
 */
module Order {

  /** No key occurs twice. */
  predicate NoDuplicates(s: seq<string>)
  {
    forall i, j :: 0 <= i < j < |s| ==> s[i] != s[j]
  }

  /** Appending k keeps the keys distinct exactly when k is new. */
  lemma NoDuplicatesAppend(s: seq<string>, k: string)
    ensures NoDuplicates(s + [k]) <==> NoDuplicates(s) && k !in s
  {
    if k in s {
      var i :| 0 <= i < |s| && s[i] == k;
      assert (s + [k])[i] == (s + [k])[|s|];
    }
    if NoDuplicates(s + [k]) {
      forall i, j | 0 <= i < j < |s|
        ensures s[i] != s[j]
      {
        assert (s + [k])[i] == s[i] && (s + [k])[j] == s[j];
      }
    }
  }

  /** The distinct elements of keys in order of first occurrence. */
  function FirstSeen(keys: seq<string>): (r: seq<string>)
    ensures NoDuplicates(r)
    ensures forall k :: k in r <==> k in keys
  {
    if keys == [] then []
    else
      var seen := FirstSeen(keys[..|keys| - 1]);
      var k := keys[|keys| - 1];
      if k in seen then seen else seen + [k]
  }

  /** Position of the first occurrence of k in keys. */
  function FirstIndex(keys: seq<string>, k: string): (i: nat)
    requires k in keys
    ensures i < |keys| && keys[i] == k
    ensures forall j :: 0 <= j < i ==> keys[j] != k
  {
    if keys[0] == k then 0 else 1 + FirstIndex(keys[1..], k)
  }

  /** Appending a key extends FirstSeen by that key exactly when it is new. */
  lemma FirstSeenAppend(keys: seq<string>, k: string)
    ensures FirstSeen(keys + [k]) == if k in keys then FirstSeen(keys) else FirstSeen(keys) + [k]
  {
    assert (keys + [k])[..|keys|] == keys;
  }

  lemma FirstIndexAppend(keys: seq<string>, k: string, x: string)
    requires x in keys + [k]
    ensures x in keys ==> FirstIndex(keys + [k], x) == FirstIndex(keys, x)
    ensures x !in keys ==> FirstIndex(keys + [k], x) == |keys|
  {
    var i := FirstIndex(keys + [k], x);
    if x in keys {
      var i0 := FirstIndex(keys, x);
      assert (keys + [k])[i0] == x;
      assert i <= i0;
    } else {
      assert forall j :: 0 <= j < |keys| ==> (keys + [k])[j] != x;
    }
  }

  /** Keys that were first seen earlier come earlier in FirstSeen. */
  lemma {:induction false} FirstSeenInOrder(keys: seq<string>)
    ensures forall i, j :: 0 <= i < j < |FirstSeen(keys)| ==>
              FirstIndex(keys, FirstSeen(keys)[i]) < FirstIndex(keys, FirstSeen(keys)[j])
  {
    if keys != [] {
      var init, k := keys[..|keys| - 1], keys[|keys| - 1];
      assert keys == init + [k];
      FirstSeenInOrder(init);
      FirstSeenAppend(init, k);
      var seen := FirstSeen(init);
      forall i, j | 0 <= i < j < |FirstSeen(keys)|
        ensures FirstIndex(keys, FirstSeen(keys)[i]) < FirstIndex(keys, FirstSeen(keys)[j])
      {
        FirstIndexAppend(init, k, FirstSeen(keys)[i]);
        FirstIndexAppend(init, k, FirstSeen(keys)[j]);
        if j < |seen| {
          assert FirstSeen(keys)[i] == seen[i] && FirstSeen(keys)[j] == seen[j];
        } else {
          assert FirstSeen(keys)[i] == seen[i] && seen[i] in init;
        }
      }
    }
  }
}
