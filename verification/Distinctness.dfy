/** Lists without repetition. */
module Distinctness {
  predicate Distinct(ids: seq<nat>) {
    forall i, j :: 0 <= i < j < |ids| ==> ids[i] != ids[j]
  }

  ghost function Elements(ids: seq<nat>): set<nat> {
    set k | 0 <= k < |ids| :: ids[k]
  }

  lemma InElements(ids: seq<nat>, x: nat)
    ensures x in ids ==> x in Elements(ids)
  {
  }

  lemma {:induction false} ElementsSize(ids: seq<nat>)
    ensures |Elements(ids)| <= |ids|
    ensures Distinct(ids) ==> |Elements(ids)| == |ids|
  {
    if ids == [] {
      assert Elements(ids) == {};
    } else {
      var init, last := ids[..|ids| - 1], ids[|ids| - 1];
      ElementsSize(init);
      assert Elements(ids) == Elements(init) + {last} by {
        forall x | x in Elements(ids)
          ensures x in Elements(init) + {last}
        {
          var k :| 0 <= k < |ids| && ids[k] == x;
          assert k < |init| ==> init[k] == x;
        }
        forall x | x in Elements(init)
          ensures x in Elements(ids)
        {
          var k :| 0 <= k < |init| && init[k] == x;
          assert ids[k] == x;
        }
      }
    }
  }

  lemma {:induction false} Below(n: nat) returns (s: set<nat>)
    ensures |s| == n && forall x: nat :: x in s <==> x < n
  {
    if n == 0 {
      s := {};
    } else {
      var less := Below(n - 1);
      s := less + {n - 1};
    }
  }

  lemma {:induction false} SubsetIsSmaller(a: set<nat>, b: set<nat>)
    requires a <= b
    ensures |a| <= |b|
    decreases |a|
  {
    if a != {} {
      var x :| x in a;
      SubsetIsSmaller(a - {x}, b - {x});
    }
  }

  /** There are only `n` numbers below `n`. */
  lemma DistinctBelow(ids: seq<nat>, n: nat)
    requires Distinct(ids) && forall k :: 0 <= k < |ids| ==> ids[k] < n
    ensures |ids| <= n
  {
    ElementsSize(ids);
    var all := Below(n);
    SubsetIsSmaller(Elements(ids), all);
  }
}
