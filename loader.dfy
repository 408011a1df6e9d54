/** The ranking step of `load_geonames`: the parsed rows are sorted by
    population, largest first, with Python's stable sort. */
module Loader {
  import opened Cities

  /** Consecutive populations never increase. */
  predicate NonIncreasing(s: seq<CityInfo>)
  {
    forall i, j :: 0 <= i < j < |s| ==> s[i].pop >= s[j].pop
  }

  /** The rows of population `p`, in their order in `s`. */
  function WithPop(s: seq<CityInfo>, p: int): seq<CityInfo>
  {
    if s == [] then []
    else if s[0].pop == p then [s[0]] + WithPop(s[1..], p)
    else WithPop(s[1..], p)
  }

  /** Places `x`, which came before every row of `t`, in front of the first
      row whose population is not larger than its own. */
  function Insert(x: CityInfo, t: seq<CityInfo>): (r: seq<CityInfo>)
    ensures multiset(r) == multiset(t) + multiset{x}
  {
    if t == [] then [x]
    else if x.pop >= t[0].pop then [x] + t
    else
      assert t == [t[0]] + t[1..];
      [t[0]] + Insert(x, t[1..])
  }

  /** `data.sort(key = lambda x: x["pop"], reverse = True)`. */
  function SortByPop(rows: seq<CityInfo>): seq<CityInfo>
  {
    if rows == [] then [] else Insert(rows[0], SortByPop(rows[1..]))
  }

  /** The list `load_geonames` returns for the parsed `rows`: ranked by
      population, largest first; a permutation of the rows; and rows of equal
      population keep the order they had in the file. */
  function LoadGeonames(rows: seq<CityInfo>): (r: seq<CityInfo>)
    ensures NonIncreasing(r)
    ensures multiset(r) == multiset(rows)
    ensures forall p :: WithPop(r, p) == WithPop(rows, p)
  {
    SortSorted(rows);
    SortPermutes(rows);
    forall p ensures WithPop(SortByPop(rows), p) == WithPop(rows, p) {
      SortStable(rows, p);
    }
    SortByPop(rows)
  }

  lemma {:induction false} InsertSorted(x: CityInfo, t: seq<CityInfo>)
    requires NonIncreasing(t)
    ensures NonIncreasing(Insert(x, t))
    ensures Insert(x, t)[0] == x || Insert(x, t)[0] == t[0]
  {
    if t != [] && x.pop < t[0].pop {
      var tail := Insert(x, t[1..]);
      InsertSorted(x, t[1..]);
      ConsSorted(t[0], tail);
    }
  }

  /** A row no smaller than the head of a ranked list can go in front of it. */
  lemma ConsSorted(h: CityInfo, s: seq<CityInfo>)
    requires NonIncreasing(s)
    requires s != [] ==> h.pop >= s[0].pop
    ensures NonIncreasing([h] + s)
  {
    var r := [h] + s;
    forall i, j | 0 <= i < j < |r|
      ensures r[i].pop >= r[j].pop
    {
      if i == 0 {
        assert r[j].pop <= s[0].pop;
      }
    }
  }

  lemma {:induction false} SortSorted(rows: seq<CityInfo>)
    ensures NonIncreasing(SortByPop(rows))
  {
    if rows != [] {
      SortSorted(rows[1..]);
      InsertSorted(rows[0], SortByPop(rows[1..]));
    }
  }

  lemma {:induction false} SortPermutes(rows: seq<CityInfo>)
    ensures multiset(SortByPop(rows)) == multiset(rows)
  {
    if rows != [] {
      SortPermutes(rows[1..]);
      assert rows == [rows[0]] + rows[1..];
    }
  }

  /** Inserting a row adds it at the front of its population class, and
      leaves every other class alone. */
  lemma {:induction false} InsertWithPop(x: CityInfo, t: seq<CityInfo>, p: int)
    requires NonIncreasing(t)
    ensures WithPop(Insert(x, t), p) == if x.pop == p then [x] + WithPop(t, p) else WithPop(t, p)
  {
    if t == [] {
    } else if x.pop >= t[0].pop {
      assert ([x] + t)[1..] == t;
    } else {
      assert t[0].pop != p || x.pop != p;
      InsertWithPop(x, t[1..], p);
      assert ([t[0]] + Insert(x, t[1..]))[1..] == Insert(x, t[1..]);
    }
  }

  lemma {:induction false} SortStable(rows: seq<CityInfo>, p: int)
    ensures WithPop(SortByPop(rows), p) == WithPop(rows, p)
  {
    if rows != [] {
      SortSorted(rows[1..]);
      SortStable(rows[1..], p);
      InsertWithPop(rows[0], SortByPop(rows[1..]), p);
    }
  }

  /** A population larger than every population of a ranked list has no rows in it. */
  lemma {:induction false} WithPopAbove(s: seq<CityInfo>, p: int)
    requires NonIncreasing(s)
    requires s == [] || p > s[0].pop
    ensures WithPop(s, p) == []
  {
    if s != [] {
      WithPopAbove(s[1..], p);
    }
  }

  /** The population class of a list's first row is not empty. */
  lemma WithPopHead(s: seq<CityInfo>)
    requires s != []
    ensures WithPop(s, s[0].pop) != []
  {
  }

  /** The ranking is determined by its three properties: a list ranked by
      population whose rows of each population appear in file order is
      exactly the list `load_geonames` returns. */
  lemma RankingUnique(rows: seq<CityInfo>, s: seq<CityInfo>)
    requires NonIncreasing(s)
    requires forall p :: WithPop(s, p) == WithPop(rows, p)
    ensures s == LoadGeonames(rows)
  {
    SameClassesEqual(s, LoadGeonames(rows));
  }

  lemma {:induction false} SameClassesEqual(a: seq<CityInfo>, b: seq<CityInfo>)
    requires NonIncreasing(a) && NonIncreasing(b)
    requires forall p :: WithPop(a, p) == WithPop(b, p)
    ensures a == b
    decreases |a|
  {
    if a != [] && b != [] {
      var p, q := a[0].pop, b[0].pop;
      if p < q {
        WithPopAbove(a, q);
        WithPopHead(b);
        assert false;
      } else if q < p {
        WithPopAbove(b, p);
        WithPopHead(a);
        assert false;
      }
      assert WithPop(a, p) == [a[0]] + WithPop(a[1..], p);
      assert WithPop(b, p) == [b[0]] + WithPop(b[1..], p);
      assert WithPop(a, p) == WithPop(b, p);
      assert a[0] == WithPop(a, p)[0] == WithPop(b, p)[0] == b[0];
      forall r
        ensures WithPop(a[1..], r) == WithPop(b[1..], r)
      {
        assert WithPop(a, r) == WithPop(b, r);
        if r == p {
          assert [a[0]] + WithPop(a[1..], r) == [a[0]] + WithPop(b[1..], r);
          assert WithPop(a[1..], r) == ([a[0]] + WithPop(a[1..], r))[1..];
          assert WithPop(b[1..], r) == ([a[0]] + WithPop(b[1..], r))[1..];
        }
      }
      SameClassesEqual(a[1..], b[1..]);
      assert a == [a[0]] + a[1..] && b == [b[0]] + b[1..];
    } else if a != [] {
      WithPopHead(a);
      assert false;
    } else if b != [] {
      WithPopHead(b);
      assert false;
    }
  }
}
