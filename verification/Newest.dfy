/** Keeping the newest ids: `sorted(ids)[-cap:]`, as the command ledger and the tried-commands file do. */
module Newest {

  /** `xs[-n:]` for positive `n`. */
  function LastOf<T>(xs: seq<T>, n: nat): seq<T> {
    if n <= |xs| then xs[|xs| - n..] else xs
  }

  function Elements(xs: seq<int>): (s: set<int>)
    ensures forall x :: x in s <==> x in xs
  {
    set x | x in xs
  }

  predicate Increasing(xs: seq<int>) {
    forall i, j :: 0 <= i < j < |xs| ==> xs[i] < xs[j]
  }

  predicate IsLeast(m: int, s: set<int>) {
    m in s && forall y :: y in s ==> m <= y
  }

  lemma {:induction false} HasLeast(s: set<int>, x: int)
    requires x in s
    ensures exists m :: IsLeast(m, s)
    decreases |s|
  {
    var rest := s - {x};
    if y :| y in rest {
      HasLeast(rest, y);
      var m :| IsLeast(m, rest);
      var least := if x < m then x else m;
      forall z | z in s ensures least <= z {
        assert z == x || z in rest;
      }
      assert IsLeast(least, s);
    } else {
      forall z | z in s ensures x <= z {
        assert z == x || z in rest;
      }
      assert IsLeast(x, s);
    }
  }

  /** Python's `sorted(s)`. */
  function Sorted(s: set<int>): (xs: seq<int>)
    ensures |xs| == |s|
    ensures forall y :: y in xs <==> y in s
    decreases |s|
  {
    if x :| x in s then
      HasLeast(s, x);
      var m :| IsLeast(m, s);
      [m] + Sorted(s - {m})
    else
      assert s == {};
      []
  }

  lemma LeastComesFirst(s: set<int>)
    requires |s| > 0
    ensures var xs := Sorted(s); IsLeast(xs[0], s) && xs[1..] == Sorted(s - {xs[0]})
  {
    if x :| x in s {
      HasLeast(s, x);
    }
  }

  lemma {:induction false} SortedIncreases(s: set<int>)
    ensures Increasing(Sorted(s))
    decreases |s|
  {
    hide IsLeast, Increasing, Sorted;
    var xs := Sorted(s);
    if |xs| > 0 {
      LeastComesFirst(s);
      var rest := s - {xs[0]};
      SortedIncreases(rest);
      LeastFirst(xs[0], s, Sorted(rest));
      assert xs == [xs[0]] + Sorted(rest);
    } else {
      NothingIncreases(xs);
    }
  }

  lemma NothingIncreases(xs: seq<int>)
    requires xs == []
    ensures Increasing(xs)
  {
  }

  lemma LeastFirst(m: int, s: set<int>, rest: seq<int>)
    requires IsLeast(m, s) && Increasing(rest) && forall y :: y in rest <==> y in s - {m}
    ensures Increasing([m] + rest)
  {
    forall i | 0 <= i < |rest| ensures m < rest[i] {
      assert rest[i] in rest;
    }
  }

  function KeepNewest(s: set<int>, cap: nat): seq<int> {
    LastOf(Sorted(s), cap)
  }

  /** The members of `s` that exceed `x`. */
  function Above(s: set<int>, x: int): set<int> {
    set y | y in s && y > x
  }

  /** The members of `s` exceeded by fewer than `cap` others: what `KeepNewest` should hold. */
  function Top(s: set<int>, cap: nat): set<int> {
    set y | y in s && |Above(s, y)| < cap
  }

  lemma {:induction false} SubsetSize(a: set<int>, b: set<int>)
    requires a <= b
    ensures |a| <= |b|
  {
    assert b == a + (b - a);
  }

  lemma AboveGrows(s: set<int>, t: set<int>, x: int)
    requires s <= t
    ensures |Above(s, x)| <= |Above(t, x)|
  {
    SubsetSize(Above(s, x), Above(t, x));
  }

  lemma LeastBelow(m: int, s: set<int>)
    requires IsLeast(m, s)
    ensures Above(s, m) == s - {m}
    ensures forall x :: x >= m ==> Above(s, x) == Above(s - {m}, x)
  {
  }

  lemma LeastIsBelow(m: int, s: set<int>, x: int)
    requires IsLeast(m, s) && x in s
    ensures m <= x
  {
  }

  lemma {:induction false} RankAbove(s: set<int>, i: nat)
    requires i < |s|
    ensures |Above(s, Sorted(s)[i])| == |s| - 1 - i
    decreases i
  {
    hide IsLeast, Sorted, Above;
    var xs := Sorted(s);
    var rest := s - {xs[0]};
    LeastComesFirst(s);
    LeastBelow(xs[0], s);
    if i > 0 {
      assert xs[i] == Sorted(rest)[i - 1];
      RankAbove(rest, i - 1);
      assert Sorted(rest)[i - 1] in rest;
      assert xs[i] >= xs[0] by { LeastIsBelow(xs[0], s, xs[i]); }
    }
  }

  lemma KeptOrNot(s: set<int>, cap: nat, i: nat)
    requires i < |s|
    ensures Sorted(s)[i] in Top(s, cap) <==> |s| - cap <= i
  {
    RankAbove(s, i);
    assert Sorted(s)[i] in Sorted(s);
  }

  lemma IndexIn(xs: seq<int>, y: int) returns (i: nat)
    requires y in xs
    ensures i < |xs| && xs[i] == y
  {
    i :| 0 <= i < |xs| && xs[i] == y;
  }

  lemma KeptIsInTop(s: set<int>, cap: nat, y: int)
    requires y in KeepNewest(s, cap)
    ensures y in Top(s, cap)
  {
    hide Sorted, Above, Top;
    var kept := KeepNewest(s, cap);
    var j := IndexIn(kept, y);
    var i := j + (|s| - |kept|);
    assert Sorted(s)[i] == y;
    KeptOrNot(s, cap, i);
  }

  lemma TopIsKept(s: set<int>, cap: nat, y: int)
    requires y in Top(s, cap)
    ensures y in KeepNewest(s, cap)
  {
    hide Sorted, Above, Top;
    var kept := KeepNewest(s, cap);
    TopIsWithin(s, cap);
    var i := IndexIn(Sorted(s), y);
    KeptOrNot(s, cap, i);
    assert kept[i - (|s| - |kept|)] == y;
  }

  lemma KeepNewestIsTop(s: set<int>, cap: nat)
    ensures Elements(KeepNewest(s, cap)) == Top(s, cap)
  {
    hide KeepNewest, Top;
    forall y ensures y in KeepNewest(s, cap) <==> y in Top(s, cap) {
      if y in KeepNewest(s, cap) {
        KeptIsInTop(s, cap, y);
      }
      if y in Top(s, cap) {
        TopIsKept(s, cap, y);
      }
    }
  }

  lemma TopIsWithin(s: set<int>, cap: nat)
    ensures Top(s, cap) <= s
  {
  }

  lemma {:induction false} ElementCount(xs: seq<int>)
    requires Increasing(xs)
    ensures |Elements(xs)| == |xs|
  {
    if xs != [] {
      ElementCount(xs[1..]);
      assert Elements(xs) == {xs[0]} + Elements(xs[1..]);
    }
  }

  lemma LastIncreases(xs: seq<int>, n: nat)
    requires Increasing(xs)
    ensures Increasing(LastOf(xs, n))
  {
  }

  lemma TopSize(s: set<int>, cap: nat)
    ensures |Top(s, cap)| == |KeepNewest(s, cap)| == if cap <= |s| then cap else |s|
    ensures Increasing(KeepNewest(s, cap))
  {
    hide Sorted, Above, Top, Increasing, Elements;
    SortedIncreases(s);
    KeepNewestIsTop(s, cap);
    LastIncreases(Sorted(s), cap);
    ElementCount(KeepNewest(s, cap));
  }

  lemma TopOfTop(s: set<int>, cap: nat, y: int)
    ensures |Above(s, y)| < cap ==> Above(Top(s, cap), y) == Above(s, y)
    ensures |Above(s, y)| >= cap ==> |Above(Top(s, cap), y)| >= cap
    ensures Above(Top(s, cap), y) <= Above(s, y)
  {
    var kept := Top(s, cap);
    if |Above(s, y)| < cap {
      forall z | z in Above(s, y) ensures z in kept {
        SubsetSize(Above(s, z), Above(s, y));
      }
    } else {
      SubsetSize(Above(s, y), s);
      TopSize(s, cap);
      forall z | z in kept ensures z > y {
        if z <= y {
          SubsetSize(Above(s, y), Above(s, z));
        }
      }
      assert Above(kept, y) == kept;
    }
  }

  /** Recording one more id on top of what was kept is the same as keeping from everything recorded. */
  lemma TopAfterAdding(s: set<int>, x: int, cap: nat)
    requires cap >= 1
    ensures Top(Top(s, cap) + {x}, cap) == Top(s + {x}, cap)
  {
    var kept := Top(s, cap);
    forall y ensures y in Top(kept + {x}, cap) <==> y in Top(s + {x}, cap) {
      TopOfTop(s, cap, y);
      SubsetSize(Above(kept, y), Above(kept + {x}, y));
      SubsetSize(Above(s, y), Above(s + {x}, y));
      if x > y {
        assert Above(kept + {x}, y) == Above(kept, y) + {x};
        assert Above(s + {x}, y) == Above(s, y) + {x};
      } else {
        assert Above(kept + {x}, y) == Above(kept, y);
        assert Above(s + {x}, y) == Above(s, y);
      }
    }
  }

  /** Evicting what is not among the newest never brings an id back: seen stays seen. */
  predicate Covered(s: set<int>, cap: nat, x: int) {
    x in s || |Above(s, x)| >= cap
  }

  lemma CoveredStays(s: set<int>, t: set<int>, cap: nat, x: int)
    requires s <= t && Covered(s, cap, x)
    ensures Covered(t, cap, x)
  {
    SubsetSize(Above(s, x), Above(t, x));
  }

  lemma FirstIsLeast(xs: seq<int>, y: int)
    requires Increasing(xs) && y in xs
    ensures xs[0] <= y
  {
  }

  lemma {:induction false} IncreasingIsUnique(xs: seq<int>, ys: seq<int>)
    requires Increasing(xs) && Increasing(ys) && Elements(xs) == Elements(ys)
    ensures xs == ys
    decreases |xs|
  {
    ElementCount(xs);
    ElementCount(ys);
    if xs != [] {
      assert xs[0] in Elements(xs);
      FirstIsLeast(ys, xs[0]);
      assert ys != [] && ys[0] in Elements(ys);
      FirstIsLeast(xs, ys[0]);
      forall z ensures z in Elements(xs[1..]) <==> z in Elements(ys[1..]) {
        assert z in Elements(xs[1..]) <==> z in Elements(xs) && z > xs[0];
        assert z in Elements(ys[1..]) <==> z in Elements(ys) && z > ys[0];
      }
      IncreasingIsUnique(xs[1..], ys[1..]);
      assert xs == [xs[0]] + xs[1..] && ys == [ys[0]] + ys[1..];
    }
  }

  /** Adding to what was kept gives the very list that keeping from everything would have given. */
  lemma KeepNewestAfterAdding(s: set<int>, x: int, cap: nat)
    requires cap >= 1
    ensures KeepNewest(Elements(KeepNewest(s, cap)) + {x}, cap) == KeepNewest(s + {x}, cap)
  {
    hide *;
    var kept := Elements(KeepNewest(s, cap));
    KeepNewestIsTop(s, cap);
    KeepNewestIsTop(kept + {x}, cap);
    KeepNewestIsTop(s + {x}, cap);
    TopAfterAdding(s, x, cap);
    TopSize(kept + {x}, cap);
    TopSize(s + {x}, cap);
    IncreasingIsUnique(KeepNewest(kept + {x}, cap), KeepNewest(s + {x}, cap));
  }

  /** Sorting and cutting what was kept changes nothing. */
  lemma KeepNewestIsStable(s: set<int>, cap: nat)
    requires cap >= 1
    ensures LastOf(Sorted(Elements(KeepNewest(s, cap))), cap) == KeepNewest(s, cap)
  {
    hide Sorted, Increasing, Elements;
    var xs := KeepNewest(s, cap);
    TopSize(s, cap);
    SortedIncreases(Elements(xs));
    SortedElements(Elements(xs));
    IncreasingIsUnique(xs, Sorted(Elements(xs)));
  }

  lemma SortedElements(s: set<int>)
    ensures Elements(Sorted(s)) == s
  {
  }
}
