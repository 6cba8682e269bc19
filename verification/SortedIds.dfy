/** Finite sets of key IDs: their largest element and their ascending list, as SQL's MAX and
    ORDER BY deliver them. */
module SortedIds {

  predicate IsTop(s: set<nat>, m: nat) {
    if s == {} then m == 0 else m in s && forall x | x in s :: x <= m
  }

  lemma {:induction false} TopExists(s: set<nat>)
    ensures exists m :: IsTop(s, m)
  {
    if s == {} {
      assert IsTop(s, 0);
    } else {
      var x :| x in s;
      TopExists(s - {x});
      var m :| IsTop(s - {x}, m);
      assert s == s - {x} + {x};
      assert IsTop(s, if m < x then x else m);
    }
  }

  /** SELECT MAX, with NULL read as 0. */
  function Top(s: set<nat>): (m: nat)
    ensures IsTop(s, m)
  {
    if s == {} then 0
    else
      TopExists(s);
      var m :| m in s && forall x | x in s :: x <= m; m
  }

  /** ORDER BY key_id: the ascending list. */
  function Sorted(s: set<nat>): (ids: seq<nat>)
    ensures |ids| == |s|
    decreases |s|
  {
    if s == {} then [] else Sorted(s - {Top(s)}) + [Top(s)]
  }

  ghost predicate Increasing(ids: seq<nat>) {
    forall i, j :: 0 <= i < j < |ids| ==> ids[i] < ids[j]
  }

  lemma {:induction false} SortedElements(s: set<nat>)
    ensures forall x :: x in Sorted(s) <==> x in s
    decreases |s|
  {
    if s != {} {
      SortedElements(s - {Top(s)});
    }
  }

  lemma {:induction false} SortedIncreases(s: set<nat>)
    ensures Increasing(Sorted(s))
    decreases |s|
  {
    if s != {} {
      var front := Sorted(s - {Top(s)});
      SortedIncreases(s - {Top(s)});
      forall i | 0 <= i < |front|
        ensures front[i] < Top(s)
      {
        SortedElements(s - {Top(s)});
        assert front[i] in front;
      }
    }
  }

  /** A larger element goes to the end. */
  lemma SortedPush(s: set<nat>, m: nat)
    requires forall x :: x in s ==> x < m
    ensures Sorted(s + {m}) == Sorted(s) + [m]
  {
    assert Top(s + {m}) == m;
    assert s + {m} - {m} == s;
  }
}
