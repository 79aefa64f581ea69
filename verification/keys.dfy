/**
 Facts about finite sets of integer keys: the least key, the keys in ascending
 order (the order in which the model lists table rows), and the next unused key
 (the database's generated primary key).
 */
module Keys {

  /** A non-empty set has a member to pick. */
  lemma Inhabited(s: set<int>)
    requires s != {}
    ensures exists x :: x in s
  {
    // The verifier does not draw a member from `s != {}` on its own; ruling
    // out the empty case supplies the witness that a later `:|` needs.
    if forall x :: x !in s {
      assert false;
    }
  }

  /** `m` is the least element of `s`. */
  predicate IsLeast(m: int, s: set<int>)
  {
    m in s && forall x :: x in s ==> m <= x
  }

  /** Every non-empty finite set of integers has a least element. */
  lemma {:induction false} MinExists(s: set<int>)
    requires s != {}
    ensures exists m :: IsLeast(m, s)
  {
    Inhabited(s);
    var y :| y in s;
    var rest := s - {y};
    if rest == {} {
      assert s == {y};
      assert IsLeast(y, s);
    } else {
      MinExists(rest);
      var m :| IsLeast(m, rest);
      var least := if y < m then y else m;
      assert IsLeast(least, s) by {
        forall x | x in s
          ensures least <= x
        {
          if x != y {
            assert x in rest;
          }
        }
      }
    }
  }

  /** The least element of a non-empty set of keys. */
  function Min(s: set<int>): (m: int)
    requires s != {}
    ensures m in s
    ensures forall x :: x in s ==> m <= x
  {
    MinExists(s);
    var m :| IsLeast(m, s);
    m
  }

  /** The keys of `s`, each exactly once, in strictly ascending order. */
  function Ascending(s: set<int>): (r: seq<int>)
    ensures |r| == |s|
    ensures forall k :: k in r <==> k in s
    ensures forall i, j :: 0 <= i < j < |r| ==> r[i] < r[j]
    decreases s
  {
    if s == {} then []
    else
      var k := Min(s);
      [k] + Ascending(s - {k})
  }

  /** The number of used keys at or above `k`: what is left to skip. */
  function UsedFrom(used: set<int>, k: int): nat
  {
    |set x | x in used && x >= k|
  }

  /**
   The least key at or above `k` that is not in `used`. When the counter `k`
   is past every used key, as it is in every store the services produce, this
   is `k` itself, the key an identity column hands out. For a counter that has
   fallen behind, skipping to the next unused key is the model's own choice.
   */
  function FreshFrom(used: set<int>, k: int): (r: int)
    ensures r >= k && r !in used
    ensures forall j :: k <= j < r ==> j in used
    decreases UsedFrom(used, k)
  {
    if k !in used then k
    else
      assert (set x | x in used && x >= k) == (set x | x in used && x >= k + 1) + {k};
      FreshFrom(used, k + 1)
  }
}
