/** What happens to the order when a member's key changes. */
module AvlUpdate {
  import opened AvlShape
  import opened AvlClimb
  import opened AvlOrder

  /** `boolean_t`: in C, `B_TRUE` is 0. */
  datatype Boolean = B_TRUE | B_FALSE

  ghost function KeysWith(ks: seq<Key>, k: nat, v: Key): seq<Key>
    requires k <= |ks|
  {
    ks[..k] + [v] + ks[k..]
  }

  ghost function KeysWithout(ks: seq<Key>, k: nat): seq<Key>
    requires k < |ks|
  {
    ks[..k] + ks[k + 1..]
  }

  /** Putting a key where it splits the others keeps them increasing. */
  lemma InsertRanked(cmp: (Key, Key) -> int, ks: seq<Key>, v: Key, k: nat)
    requires Ranked(cmp, ks) && Splits(cmp, ks, v, k)
    ensures Ranked(cmp, KeysWith(ks, k, v))
  {
    var r := KeysWith(ks, k, v);
    forall i, j | 0 <= i < j < |r| ensures cmp(r[i], r[j]) == -1 {
      if j == k {
        assert cmp(v, ks[i]) == 1;
      } else if i == k {
        assert cmp(v, ks[j - 1]) == -1;
      }
    }
  }

  /** The key at `k` is not below the one before it and not above the one after it. */
  ghost predicate InPlace(cmp: (Key, Key) -> int, ks: seq<Key>, k: nat)
    requires k < |ks|
  {
    (k == 0 || cmp(ks[k], ks[k - 1]) >= 0) && (k + 1 == |ks| || cmp(ks[k], ks[k + 1]) <= 0)
  }

  /** The keys without the one at `k` increase, and that one equals none of them. */
  ghost predicate OneMoved(cmp: (Key, Key) -> int, ks: seq<Key>, k: nat) {
    && k < |ks| && TotalOrder(cmp) && Sorted(cmp, KeysWithout(ks, k))
    && forall i :: 0 <= i < |ks| && i != k ==> cmp(ks[k], ks[i]) != 0
  }

  /** One key differs from all others, which increase: all increase exactly when it is in place. */
  lemma InPlaceRanked(cmp: (Key, Key) -> int, ks: seq<Key>, k: nat)
    requires OneMoved(cmp, ks, k)
    ensures InPlace(cmp, ks, k) <==> Ranked(cmp, ks)
  {
    if InPlace(cmp, ks, k) {
      forall i, j | 0 <= i < j < |ks| ensures cmp(ks[i], ks[j]) == -1 {
        OthersIncrease(cmp, ks, k, i, j);
        if j == k {
          OthersIncrease(cmp, ks, k, i, k - 1);
          Between(cmp, ks[i], ks[k - 1], ks[k]);
        } else if i == k {
          OthersIncrease(cmp, ks, k, k + 1, j);
          Between(cmp, ks[k], ks[k + 1], ks[j]);
        }
      }
    }
  }

  /** Increasing keys still increase without one of them. */
  lemma RankedWithout(cmp: (Key, Key) -> int, ks: seq<Key>, k: nat)
    requires Ranked(cmp, ks) && k < |ks|
    ensures Ranked(cmp, KeysWithout(ks, k))
  {
    var r := KeysWithout(ks, k);
    assert forall i :: 0 <= i < |r| ==> r[i] == ks[if i < k then i else i + 1];
  }

  lemma MovedOut(cmp: (Key, Key) -> int, ks: seq<Key>, k: nat)
    requires OneMoved(cmp, ks, k)
    ensures Ranked(cmp, KeysWithout(ks, k))
    ensures forall i :: 0 <= i < |KeysWithout(ks, k)| ==> cmp(ks[k], KeysWithout(ks, k)[i]) != 0
  {
    var r := KeysWithout(ks, k);
    forall i | 0 <= i < |ks| - 1 ensures cmp(ks[k], r[i]) != 0 {
      assert r[i] == ks[if i < k then i else i + 1];
    }
  }

  lemma OthersIncrease(cmp: (Key, Key) -> int, ks: seq<Key>, k: nat, i: int, j: int)
    requires k < |ks| && Sorted(cmp, KeysWithout(ks, k))
    ensures 0 <= i < j < |ks| && i != k && j != k ==> cmp(ks[i], ks[j]) == -1
  {
    var r := KeysWithout(ks, k);
    var a, b := if i < k then i else i - 1, if j < k then j else j - 1;
    if 0 <= i < j < |ks| && i != k && j != k {
      assert r[a] == ks[i] && r[b] == ks[j];
    }
  }

  lemma Between(cmp: (Key, Key) -> int, a: Key, b: Key, c: Key)
    requires TotalOrder(cmp) && cmp(a, b) <= 0 && cmp(b, c) <= 0 && cmp(a, c) != 0
    ensures cmp(a, c) == -1
  {
  }

  // ---- Keys read off the nodes ----

  lemma KeysInsert(s: seq<Node>, k: nat, n: Node)
    requires k <= |s|
    ensures KeysOf(InsertAt(s, k, n)) == KeysWith(KeysOf(s), k, n.key)
  {
  }

  lemma KeysRemove(s: seq<Node>, k: nat)
    requires k < |s|
    ensures KeysOf(RemoveAt(s, k)) == KeysWithout(KeysOf(s), k)
  {
  }
}
