/**
 The validator's working list of column indices (`columnsToCheck`) and the two
 ways it shrinks: removal of a value (header scan) and removal at a position
 (row scan).
 */
module ColumnList {

  predicate StrictlyAscending(xs: seq<int>)
  {
    forall i, j :: 0 <= i < j < |xs| ==> xs[i] < xs[j]
  }

  /** The column indices 0, 1, ..., n-1. */
  function Range(n: nat): (r: seq<int>)
    ensures |r| == n
    ensures forall i :: 0 <= i < n ==> r[i] == i
  {
    if n == 0 then [] else Range(n - 1) + [n - 1]
  }

  /** Putting a value below every member in front of an ascending list keeps it ascending. */
  lemma ConsAscending(x: int, rest: seq<int>)
    requires StrictlyAscending(rest)
    requires forall y :: y in rest ==> x < y
    ensures StrictlyAscending([x] + rest)
  {
    var r := [x] + rest;
    forall i, j | 0 <= i < j < |r|
      ensures r[i] < r[j]
    {
      assert r[j] == rest[j - 1] && rest[j - 1] in rest;
      if i > 0 {
        assert r[i] == rest[i - 1];
      }
    }
  }

  /** A suffix of a list holds only members of the list. */
  lemma SuffixMembers<T>(xs: seq<T>, j: int)
    requires 0 <= j <= |xs|
    ensures forall x :: x in xs[j..] ==> x in xs
  {
    forall x | x in xs[j..]
      ensures x in xs
    {
      var k :| 0 <= k < |xs[j..]| && xs[j..][k] == x;
      assert xs[j + k] == x;
    }
  }

  /** The list without its first occurrence of `v` (a list's remove-by-value). */
  function RemoveValue(xs: seq<int>, v: int): seq<int>
  {
    if xs == [] then []
    else if xs[0] == v then xs[1..]
    else [xs[0]] + RemoveValue(xs[1..], v)
  }

  /** `k` is the position of the first occurrence of `v` in `xs`. */
  predicate FirstAt(xs: seq<int>, v: int, k: int)
  {
    0 <= k < |xs| && xs[k] == v && v !in xs[..k]
  }

  /**
   Removing an absent value changes nothing; removing a present one cuts out its first
   occurrence, keeps every other element in order, and so takes away exactly one copy.
   */
  lemma {:induction false} RemoveValueCount(xs: seq<int>, v: int)
    ensures v !in xs ==> RemoveValue(xs, v) == xs
    ensures v in xs ==> exists k :: FirstAt(xs, v, k) && RemoveValue(xs, v) == xs[..k] + xs[k + 1..]
    ensures v in xs ==> |RemoveValue(xs, v)| == |xs| - 1
                        && multiset(RemoveValue(xs, v)) == multiset(xs) - multiset{v}
  {
    RemoveValueAbsent(xs, v);
    RemoveValueFirst(xs, v);
    if v in xs {
      var k :| FirstAt(xs, v, k) && RemoveValue(xs, v) == xs[..k] + xs[k + 1..];
      CutOut(xs, k);
    }
  }

  /** Cutting out one position drops that one element and keeps all the others. */
  lemma CutOut(xs: seq<int>, k: int)
    requires 0 <= k < |xs|
    ensures |xs[..k] + xs[k + 1..]| == |xs| - 1
    ensures multiset(xs[..k] + xs[k + 1..]) == multiset(xs) - multiset{xs[k]}
  {
    assert xs == xs[..k] + [xs[k]] + xs[k + 1..];
  }

  /** Removing an absent value changes nothing. */
  lemma {:induction false} RemoveValueAbsent(xs: seq<int>, v: int)
    ensures v !in xs ==> RemoveValue(xs, v) == xs
  {
    if xs != [] && v !in xs {
      assert xs == [xs[0]] + xs[1..] && v !in xs[1..];
      RemoveValueAbsent(xs[1..], v);
    }
  }

  /** Removing a present value cuts out its first occurrence and keeps the rest in order. */
  lemma {:induction false} RemoveValueFirst(xs: seq<int>, v: int)
    ensures v in xs ==> exists k :: FirstAt(xs, v, k) && RemoveValue(xs, v) == xs[..k] + xs[k + 1..]
  {
    if xs != [] && v in xs {
      if xs[0] == v {
        assert FirstAt(xs, v, 0) && xs[..0] + xs[1..] == xs[1..];
      } else {
        var tail := xs[1..];
        assert xs == [xs[0]] + tail && v in tail;
        RemoveValueFirst(tail, v);
        var j :| FirstAt(tail, v, j) && RemoveValue(tail, v) == tail[..j] + tail[j + 1..];
        RemoveValueShift(xs, v, j);
      }
    }
  }

  /** A first occurrence in the tail, behind a head that differs, is the first occurrence in the list. */
  lemma RemoveValueShift(xs: seq<int>, v: int, j: int)
    requires xs != [] && xs[0] != v
    requires FirstAt(xs[1..], v, j) && RemoveValue(xs[1..], v) == xs[1..][..j] + xs[1..][j + 1..]
    ensures FirstAt(xs, v, j + 1) && RemoveValue(xs, v) == xs[..j + 1] + xs[j + 2..]
  {
    var tail := xs[1..];
    var pre, post := tail[..j], tail[j + 1..];
    assert RemoveValue(xs, v) == [xs[0]] + (pre + post);
    assert [xs[0]] + (pre + post) == ([xs[0]] + pre) + post;
    assert xs[..j + 1] == [xs[0]] + pre;
    assert xs[j + 2..] == post;
    forall x | x in [xs[0]] + pre
      ensures x == xs[0] || x in pre
    {
    }
  }

  /** The list without the element at position `j` (a list's remove-by-index). */
  function RemoveAt(xs: seq<int>, j: int): (r: seq<int>)
    requires 0 <= j < |xs|
    ensures |r| == |xs| - 1
    ensures forall i :: 0 <= i < j ==> r[i] == xs[i]
    ensures forall i :: j <= i < |r| ==> r[i] == xs[i + 1]
  {
    xs[..j] + xs[j + 1..]
  }

  /** The elements of `xs` outside `gone`, in their original order. */
  function Except(xs: seq<int>, gone: set<int>): seq<int>
  {
    if xs == [] then []
    else (if xs[0] in gone then [] else [xs[0]]) + Except(xs[1..], gone)
  }

  /** What is left after `gone` is exactly the members of the list outside `gone`, and no longer. */
  lemma {:induction false} ExceptMembers(xs: seq<int>, gone: set<int>)
    ensures forall x :: x in Except(xs, gone) <==> x in xs && x !in gone
    ensures |Except(xs, gone)| <= |xs|
  {
    if xs != [] {
      ExceptMembers(xs[1..], gone);
      SuffixMembers(xs, 1);
      forall x | x in xs
        ensures x == xs[0] || x in xs[1..]
      {
        var k :| 0 <= k < |xs| && xs[k] == x;
        if k > 0 {
          assert xs[1..][k - 1] == x;
        }
      }
    }
  }

  lemma {:induction false} ExceptAscending(xs: seq<int>, gone: set<int>)
    requires StrictlyAscending(xs)
    ensures StrictlyAscending(Except(xs, gone))
  {
    if xs != [] {
      assert StrictlyAscending(xs[1..]);
      ExceptAscending(xs[1..], gone);
      ExceptMembers(xs[1..], gone);
      var rest := Except(xs[1..], gone);
      if xs[0] !in gone {
        forall y | y in rest
          ensures xs[0] < y
        {
          var k :| 0 <= k < |xs[1..]| && xs[1..][k] == y;
          assert xs[k + 1] == y;
        }
        ConsAscending(xs[0], rest);
      }
    }
  }

  lemma {:induction false} ExceptNothing(xs: seq<int>)
    ensures Except(xs, {}) == xs
  {
    if xs != [] {
      ExceptNothing(xs[1..]);
    }
  }

  lemma {:induction false} ExceptAbsent(xs: seq<int>, gone: set<int>, v: int)
    requires v !in xs
    ensures Except(xs, gone + {v}) == Except(xs, gone)
  {
    if xs != [] {
      assert v !in xs[1..];
      ExceptAbsent(xs[1..], gone, v);
    }
  }

  /**
   On a list without repetitions, removing a value from what is left after `gone`
   leaves exactly what is left after `gone` and that value; removing it a second
   time changes nothing.
   */
  lemma {:induction false} RemoveValueExcept(xs: seq<int>, gone: set<int>, v: int)
    requires StrictlyAscending(xs)
    ensures RemoveValue(Except(xs, gone), v) == Except(xs, gone + {v})
  {
    if xs != [] {
      var x := xs[0];
      var tail := xs[1..];
      assert StrictlyAscending(tail);
      var rest := Except(tail, gone);
      if x in gone {
        assert Except(xs, gone) == rest;
        assert Except(xs, gone + {v}) == Except(tail, gone + {v});
        RemoveValueExcept(tail, gone, v);
      } else if x == v {
        assert Except(xs, gone) == [x] + rest;
        assert Except(xs, gone + {v}) == Except(tail, gone + {v});
        assert RemoveValue([x] + rest, v) == rest;
        assert v !in tail by {
          forall k | 0 <= k < |tail| ensures tail[k] != v {
            assert xs[0] < xs[k + 1];
          }
        }
        ExceptAbsent(tail, gone, v);
      } else {
        assert Except(xs, gone) == [x] + rest;
        assert Except(xs, gone + {v}) == [x] + Except(tail, gone + {v});
        assert ([x] + rest)[1..] == rest;
        assert RemoveValue([x] + rest, v) == [x] + RemoveValue(rest, v);
        RemoveValueExcept(tail, gone, v);
      }
    }
  }
}
