/** Datatypes and arithmetic shared by every component of the model. */
module Prelude {

  datatype Option<+T> = None | Some(value: T)

  datatype Result<+T, +E> = Ok(value: T) | Err(error: E)

  /** The start of the bucket of the given width that holds `t`: floor division, also for negative `t`. */
  function BucketStart(t: int, width: int): (b: int)
    requires width > 0
    ensures b <= t < b + width
    ensures b % width == 0
  {
    BucketMultiple(t / width, width);
    t / width * width
  }

  lemma BucketMultiple(q: int, width: int)
    requires width > 0
    ensures (q * width) % width == 0
  {
    BucketIsQuotient(q * width, q, width);
  }

  /** Euclid's division is the only one: `q` is the quotient as soon as the remainder is in range. */
  lemma BucketIsQuotient(t: int, q: int, width: int)
    requires width > 0
    requires q * width <= t < q * width + width
    ensures t / width == q && t % width == t - q * width
  {
    var d := t / width - q;
    assert d * width == t - t % width - q * width by {
      assert t == t / width * width + t % width;
    }
    MultipleWithinWidthIsZero(d, width);
  }

  lemma MultipleWithinWidthIsZero(d: int, width: int)
    requires -width < d * width < width
    ensures d == 0
  {
  }

  /** Buckets grow with time. */
  lemma BucketMonotone(s: int, t: int, width: int)
    requires width > 0 && s <= t
    ensures s / width <= t / width
    ensures BucketStart(s, width) <= BucketStart(t, width)
  {
    var d := s / width - t / width;
    assert d * width <= s - t + t % width by {
      assert t == t / width * width + t % width;
      assert s == s / width * width + s % width;
    }
    ProductBelow(d, width);
    ProductMonotone(s / width, t / width, width);
  }

  lemma ProductBelow(d: int, width: int)
    requires width > 0 && d * width < width
    ensures d <= 0
  {
  }

  lemma ProductMonotone(a: int, b: int, width: int)
    requires width > 0 && a <= b
    ensures a * width <= b * width
  {
  }

  /** The elements of a finite set of integers in increasing order. */
  function Sorted(s: set<int>): seq<int>
    decreases |s|
  {
    if s == {} then [] else
      var m := Least(s);
      [m] + Sorted(s - {m})
  }

  ghost predicate Increasing(s: seq<int>) {
    forall i, j :: 0 <= i < j < |s| ==> s[i] < s[j]
  }

  lemma {:induction false} SortedElements(s: set<int>)
    ensures |Sorted(s)| == |s| && forall x :: x in Sorted(s) <==> x in s
    decreases |s|
  {
    if s != {} {
      SortedElements(s - {Least(s)});
    }
  }

  lemma {:induction false} SortedIncreases(s: set<int>)
    ensures Increasing(Sorted(s))
    decreases |s|
  {
    if s != {} {
      var m := Least(s);
      SortedIncreases(s - {m});
      SortedElements(s - {m});
      LeastFirst(m, Sorted(s - {m}));
    }
  }

  lemma LeastFirst(m: int, rest: seq<int>)
    requires Increasing(rest) && forall x :: x in rest ==> m < x
    ensures Increasing([m] + rest)
  {
    assert forall j :: 0 <= j < |rest| ==> rest[j] in rest;
  }

  lemma SortedMeaning(s: set<int>)
    ensures Increasing(Sorted(s)) && |Sorted(s)| == |s|
    ensures forall x :: x in Sorted(s) <==> x in s
  {
    SortedElements(s);
    SortedIncreases(s);
  }

  function Least(s: set<int>): (m: int)
    requires s != {}
    ensures m in s && forall x :: x in s ==> m <= x
  {
    LeastExists(s);
    var m :| m in s && forall x :: x in s ==> m <= x;
    m
  }

  lemma {:induction false} LeastExists(s: set<int>)
    requires |s| > 0
    ensures exists m :: m in s && forall x :: x in s ==> m <= x
    decreases |s|
  {
    assert (forall e :: e !in s) ==> s == {};
    var e :| e in s;
    var rest := s - {e};
    assert s == rest + {e};
    if rest == {} {
      assert e in s && forall x :: x in s ==> e <= x;
    } else {
      LeastExists(rest);
      var m :| m in rest && forall x :: x in rest ==> m <= x;
      var least := if e < m then e else m;
      assert least in s && forall x :: x in s ==> least <= x;
    }
  }

  function Greatest(s: set<int>): (m: int)
    requires s != {}
    ensures m in s && forall x :: x in s ==> x <= m
  {
    GreatestExists(s);
    var m :| m in s && forall x :: x in s ==> x <= m;
    m
  }

  lemma GreatestExists(s: set<int>)
    requires s != {}
    ensures exists m :: m in s && forall x :: x in s ==> x <= m
  {
    var negated := set x | x in s :: -x;
    assert (forall e :: e !in s) ==> s == {};
    var e :| e in s;
    assert -e in negated;
    var m := -Least(negated);
    assert forall x :: x in s ==> -x in negated;
    assert m in s;
  }
}
