/** Ascending enumeration of a finite set of integers, as `for (x : s)` visits a `std::set<int>`. */
module Sets {

  predicate StrictlyIncreasing(s: seq<int>)
  {
    forall i, j :: 0 <= i < j < |s| ==> s[i] < s[j]
  }

  /** A non-empty set has a member. */
  lemma NonEmpty(s: set<int>)
    requires s != {}
    ensures exists x :: x in s
  {
    if forall y :: y !in s {
      assert false;
    }
  }

  lemma {:induction false} HasMinimum(s: set<int>)
    requires s != {}
    ensures exists m :: m in s && forall y :: y in s ==> m <= y
    decreases |s|
  {
    NonEmpty(s);
    var x :| x in s;
    if s != {x} {
      HasMinimum(s - {x});
      var m :| m in s - {x} && forall y :: y in s - {x} ==> m <= y;
      var least := if x < m then x else m;
      forall y | y in s
        ensures least <= y
      {
        if y != x {
          assert y in s - {x};
        }
      }
      assert least in s;
    } else {
      assert forall y :: y in s ==> x <= y;
    }
  }

  function Min(s: set<int>): (m: int)
    requires s != {}
    ensures m in s
    ensures forall y :: y in s ==> m <= y
  {
    HasMinimum(s);
    var m :| m in s && forall y :: y in s ==> m <= y;
    m
  }

  /** The elements of `s` in ascending order, each once. */
  function Ascending(s: set<int>): (r: seq<int>)
    ensures StrictlyIncreasing(r)
    ensures forall x :: x in r <==> x in s
    ensures |r| == |s|
    decreases |s|
  {
    if s == {} then []
    else
      var m := Min(s);
      var t := Ascending(s - {m});
      assert forall i :: 0 <= i < |t| ==> t[i] in s - {m};
      [m] + t
  }
}
