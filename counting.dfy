/** Cardinality facts about finite sets that the model's counting arguments rest on. */
module Counting {

  /** No element of `s` occurs twice. */
  predicate NoDup<T(==)>(s: seq<T>) {
    forall i, j :: 0 <= i < j < |s| ==> s[i] != s[j]
  }

  /** Appending a new element keeps a sequence free of repeats. */
  lemma NoDupSnoc<T>(s: seq<T>, x: T)
    requires NoDup(s) && x !in s
    ensures NoDup(s + [x])
  {
    var t := s + [x];
    forall i, j | 0 <= i < j < |t| ensures t[i] != t[j] {
      assert t[i] == s[i];
      if j < |s| {
        assert t[j] == s[j];
      }
    }
  }

  /** The elements of `s` as a set. */
  function Elements<T>(s: seq<T>): set<T> {
    set x | x in s
  }

  /** The half-open integer interval [lo, hi). */
  function Interval(lo: int, hi: int): (r: set<int>)
    ensures forall x :: x in r <==> lo <= x < hi
    decreases hi - lo
  {
    if hi <= lo then {} else Interval(lo, hi - 1) + {hi - 1}
  }

  /** The row {x} x [lo, hi) of integer pairs. */
  function Row(x: int, lo: int, hi: int): set<(int, int)>
    decreases hi - lo
  {
    if hi <= lo then {} else Row(x, lo, hi - 1) + {(x, hi - 1)}
  }

  /** The rectangle [lo1, hi1) x [lo2, hi2) of integer pairs. */
  function Rectangle(lo1: int, hi1: int, lo2: int, hi2: int): set<(int, int)>
    decreases hi1 - lo1
  {
    if hi1 <= lo1 then {} else Rectangle(lo1, hi1 - 1, lo2, hi2) + Row(hi1 - 1, lo2, hi2)
  }

  lemma {:induction false} RowMem(x: int, lo: int, hi: int, p: (int, int))
    ensures p in Row(x, lo, hi) <==> p.0 == x && lo <= p.1 < hi
    decreases hi - lo
  {
    if lo < hi {
      RowMem(x, lo, hi - 1, p);
    }
  }

  lemma {:induction false} RowCard(x: int, lo: int, hi: int)
    requires lo <= hi
    ensures |Row(x, lo, hi)| == hi - lo
    decreases hi - lo
  {
    if lo < hi {
      RowCard(x, lo, hi - 1);
      RowMem(x, lo, hi - 1, (x, hi - 1));
    }
  }

  lemma {:induction false} RectMem(lo1: int, hi1: int, lo2: int, hi2: int, p: (int, int))
    ensures p in Rectangle(lo1, hi1, lo2, hi2) <==> lo1 <= p.0 < hi1 && lo2 <= p.1 < hi2
    decreases hi1 - lo1
  {
    if lo1 < hi1 {
      RectMem(lo1, hi1 - 1, lo2, hi2, p);
      RowMem(hi1 - 1, lo2, hi2, p);
    }
  }

  /** The rectangle [lo1, hi1) x [lo2, hi2) has (hi1 - lo1) * (hi2 - lo2) points. */
  lemma {:induction false} RectangleCard(lo1: int, hi1: int, lo2: int, hi2: int)
    requires lo1 <= hi1 && lo2 <= hi2
    ensures |Rectangle(lo1, hi1, lo2, hi2)| == (hi1 - lo1) * (hi2 - lo2)
    decreases hi1 - lo1
  {
    if lo1 < hi1 {
      RectangleCard(lo1, hi1 - 1, lo2, hi2);
      RectangleSplit(lo1, hi1, lo2, hi2);
      AddRow(|Rectangle(lo1, hi1, lo2, hi2)|, |Rectangle(lo1, hi1 - 1, lo2, hi2)|, hi1 - 1 - lo1, hi2 - lo2);
    }
  }

  /** The last row of a rectangle adds as many points as the row is long. */
  lemma RectangleSplit(lo1: int, hi: int, lo2: int, hi2: int)
    requires lo1 < hi && lo2 <= hi2
    ensures |Rectangle(lo1, hi, lo2, hi2)| == |Rectangle(lo1, hi - 1, lo2, hi2)| + (hi2 - lo2)
  {
    var left, row := Rectangle(lo1, hi - 1, lo2, hi2), Row(hi - 1, lo2, hi2);
    assert Rectangle(lo1, hi, lo2, hi2) == left + row;
    RowCard(hi - 1, lo2, hi2);
    assert left !! row by {
      forall p | p in row ensures p !in left {
        RowMem(hi - 1, lo2, hi2, p);
        RectMem(lo1, hi - 1, lo2, hi2, p);
      }
    }
  }

  lemma AddRow(total: int, prev: int, m: int, b: int)
    requires prev == m * b && total == prev + b
    ensures total == (m + 1) * b
  {
  }

  lemma {:induction false} IntervalCard(lo: int, hi: int)
    requires lo <= hi
    ensures |Interval(lo, hi)| == hi - lo
    decreases hi - lo
  {
    if lo < hi {
      IntervalCard(lo, hi - 1);
      assert Interval(lo, hi) == Interval(lo, hi - 1) + {hi - 1};
      assert hi - 1 !in Interval(lo, hi - 1);
    }
  }

  /** A duplicate-free sequence has as many distinct elements as entries. */
  lemma {:induction false} NoDupCard<T>(s: seq<T>)
    requires NoDup(s)
    ensures |Elements(s)| == |s|
  {
    if s != [] {
      var t := s[..|s| - 1];
      assert NoDup(t);
      NoDupCard(t);
      assert Elements(s) == Elements(t) + {s[|s| - 1]};
    }
  }

  /** A subset as large as its superset is the superset. */
  lemma SubsetOfSameSize<T>(a: set<T>, b: set<T>)
    requires a <= b && |a| == |b|
    ensures a == b
  {
    assert b == a + (b - a);
    assert |b - a| == 0;
  }

  lemma SubsetCard<T>(a: set<T>, b: set<T>)
    requires a <= b
    ensures |a| <= |b|
  {
    assert b == a + (b - a);
  }

  /** The image of a set under `f`. */
  function Image<A, B>(s: set<A>, f: A -> B): set<B> {
    set x | x in s :: f(x)
  }

  lemma {:induction false} ImageCard<A, B>(s: set<A>, f: A -> B)
    ensures |Image(s, f)| <= |s|
    decreases |s|
  {
    if s != {} {
      var x :| x in s;
      ImageCard(s - {x}, f);
      SubsetCard(Image(s, f), Image(s - {x}, f) + {f(x)});
    }
  }

  /** When the image is as large as the set, `f` identifies no two elements of the set. */
  lemma {:induction false} FullImageInjective<A, B>(s: set<A>, f: A -> B)
    requires |Image(s, f)| == |s|
    ensures forall x, y :: x in s && y in s && f(x) == f(y) ==> x == y
  {
    forall x, y | x in s && y in s && f(x) == f(y)
      ensures x == y
    {
      if x != y {
        assert Image(s, f) <= Image(s - {x}, f) by {
          forall z | z in Image(s, f) ensures z in Image(s - {x}, f) {
            var w :| w in s && f(w) == z;
            if w == x { assert f(y) == z && y in s - {x}; }
          }
        }
        ImageCard(s - {x}, f);
        SubsetCard(Image(s, f), Image(s - {x}, f));
      }
    }
  }
}
