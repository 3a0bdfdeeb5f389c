/** Counting what a purchase makes necessary. Every item bought comes off a queue, and
    buying the j-th item of the queue makes the things in `needs[j]` necessary in turn. */
module Budget {

  ghost function Union<T>(needs: seq<set<T>>): set<T> {
    if needs == [] then {} else needs[0] + Union(needs[1..])
  }

  /** What X and the first n items of the queue make necessary beyond what is there. */
  ghost function Want<T>(have: set<T>, X: set<T>, needs: seq<set<T>>, n: nat): set<T>
    requires n <= |needs|
  {
    (X + Union(needs[..n])) - have
  }

  /** n is the least number of items that pays for all it makes necessary. */
  ghost predicate Least<T>(have: set<T>, X: set<T>, needs: seq<set<T>>, n: nat) {
    && n <= |needs|
    && |Want(have, X, needs, n)| == n
    && forall m: nat | m < n :: |Want(have, X, needs, m)| > m
  }

  /** Buying the first n items for X leads from have to have', and n is the least that does. */
  ghost predicate Bought<T>(have: set<T>, X: set<T>, needs: seq<set<T>>, n: nat, have': set<T>) {
    Least(have, X, needs, n) && have' == have + Want(have, X, needs, n)
  }

  /** The whole queue does not pay for what it makes necessary, nor does any part of it. */
  ghost predicate Starved<T>(have: set<T>, X: set<T>, needs: seq<set<T>>) {
    forall m: nat | m <= |needs| :: |Want(have, X, needs, m)| > m
  }

  lemma {:induction false} UnionConcat<T>(a: seq<set<T>>, b: seq<set<T>>)
    ensures Union(a + b) == Union(a) + Union(b)
  {
    if a == [] {
      assert a + b == b;
    } else {
      UnionConcat(a[1..], b);
      assert (a + b)[1..] == a[1..] + b;
    }
  }

  lemma SubsetSize<T>(a: set<T>, b: set<T>)
    requires a <= b
    ensures |a| <= |b|
  {
    assert b == a + (b - a);
  }

  lemma SplitSets<T>(t: set<T>, a: set<T>, b: set<T>)
    ensures t + ((a + b) - t) == (t + (a - t)) + (b - (t + (a - t)))
    ensures |(a + b) - t| == |a - t| + |b - (t + (a - t))|
  {
    var d, e := a - t, b - (t + (a - t));
    assert (a + b) - t == d + e;
    assert d !! e;
  }

  lemma Regroup<T>(a: set<T>, b: set<T>, c: set<T>, d: set<T>)
    ensures a + b + (c + d) == (a + c) + (b + d)
  {
  }

  lemma WantMore<T>(have: set<T>, X: set<T>, Y: set<T>, needs: seq<set<T>>, m: nat)
    requires m <= |needs|
    ensures |Want(have, X, needs, m)| <= |Want(have, X + Y, needs, m)|
  {
    SubsetSize(Want(have, X, needs, m), Want(have, X + Y, needs, m));
  }

  /** Wanting X and Y is wanting X first and then, with that in place, Y. */
  lemma WantSplit<T>(have: set<T>, X: set<T>, Y: set<T>, needs: seq<set<T>>, n: nat, m: nat)
    requires n + m <= |needs|
    ensures var have1 := have + Want(have, X, needs, n);
            && |Want(have, X + Y, needs, n + m)| == |Want(have, X, needs, n)| + |Want(have1, Y, needs[n..], m)|
            && have + Want(have, X + Y, needs, n + m) == have1 + Want(have1, Y, needs[n..], m)
  {
    var a, b := needs[..n], needs[n..][..m];
    assert needs[..n + m] == a + b;
    UnionConcat(a, b);
    Regroup(X, Y, Union(a), Union(b));
    SplitSets(have, X + Union(a), Y + Union(b));
  }

  lemma BoughtTrans<T>(have: set<T>, X: set<T>, have1: set<T>, Y: set<T>, have2: set<T>,
                       needs: seq<set<T>>, n1: nat, n2: nat)
    requires Bought(have, X, needs, n1, have1) && Bought(have1, Y, needs[n1..], n2, have2)
    ensures Bought(have, X + Y, needs, n1 + n2, have2)
  {
    WantSplit(have, X, Y, needs, n1, n2);
    forall m: nat | m < n1 + n2
      ensures |Want(have, X + Y, needs, m)| > m
    {
      if m < n1 {
        WantMore(have, X, Y, needs, m);
      } else {
        WantSplit(have, X, Y, needs, n1, m - n1);
      }
    }
  }

  lemma StarvedTrans<T>(have: set<T>, X: set<T>, have1: set<T>, Y: set<T>, needs: seq<set<T>>, n: nat)
    requires Bought(have, X, needs, n, have1) && Starved(have1, Y, needs[n..])
    ensures Starved(have, X + Y, needs)
  {
    forall m: nat | m <= |needs|
      ensures |Want(have, X + Y, needs, m)| > m
    {
      if m < n {
        WantMore(have, X, Y, needs, m);
      } else {
        WantSplit(have, X, Y, needs, n, m - n);
      }
    }
  }

  lemma StarvedMore<T>(have: set<T>, X: set<T>, Y: set<T>, needs: seq<set<T>>)
    requires Starved(have, X, needs)
    ensures Starved(have, X + Y, needs)
  {
    forall m: nat | m <= |needs|
      ensures |Want(have, X + Y, needs, m)| > m
    {
      WantMore(have, X, Y, needs, m);
    }
  }

  /** Buying a missing thing c with the first item leaves what that item makes necessary. */
  lemma BuyWant<T>(have: set<T>, c: T, needs: seq<set<T>>, m: nat)
    requires c !in have && m < |needs|
    ensures |Want(have, {c}, needs, 0)| == 1
    ensures |Want(have, {c}, needs, 1 + m)| == 1 + |Want(have + {c}, needs[0], needs[1..], m)|
    ensures have + Want(have, {c}, needs, 1 + m) == have + {c} + Want(have + {c}, needs[0], needs[1..], m)
  {
    var rest := needs[1..][..m];
    assert needs[..1 + m] == [needs[0]] + rest;
    assert ([needs[0]] + rest)[1..] == rest;
    assert needs[..0] == [];
    assert {c} - have == {c};
    SplitSets(have, {c}, needs[0] + Union(rest));
  }

  lemma BuyBought<T>(have: set<T>, c: T, needs: seq<set<T>>, n: nat, have': set<T>)
    requires c !in have && needs != [] && Bought(have + {c}, needs[0], needs[1..], n, have')
    ensures Bought(have, {c}, needs, 1 + n, have')
  {
    BuyWant(have, c, needs, n);
    forall m: nat | m < 1 + n
      ensures |Want(have, {c}, needs, m)| > m
    {
      BuyWant(have, c, needs, if m == 0 then 0 else m - 1);
    }
  }

  lemma BuyStarved<T>(have: set<T>, c: T, needs: seq<set<T>>)
    requires c !in have && (needs == [] || Starved(have + {c}, needs[0], needs[1..]))
    ensures Starved(have, {c}, needs)
  {
    forall m: nat | m <= |needs|
      ensures |Want(have, {c}, needs, m)| > m
    {
      if needs == [] {
        assert Want(have, {c}, needs, 0) == {c};
      } else {
        BuyWant(have, c, needs, if m == 0 then 0 else m - 1);
      }
    }
  }

  lemma WantGrows<T>(have: set<T>, X: set<T>, needs: seq<set<T>>, m: nat)
    requires m < |needs|
    ensures Want(have, X, needs, m) <= Want(have, X, needs, m + 1)
  {
    assert needs[..m + 1] == needs[..m] + [needs[m]];
    UnionConcat(needs[..m], [needs[m]]);
  }

  lemma {:induction false} FirstPaid<T>(have: set<T>, X: set<T>, needs: seq<set<T>>, m: nat)
    requires m <= |needs| && |Want(have, X, needs, m)| <= m
    ensures exists n: nat :: n <= m && Least(have, X, needs, n)
    decreases m
  {
    if k: nat :| k < m && |Want(have, X, needs, k)| <= k {
      FirstPaid(have, X, needs, k);
    } else {
      if m > 0 {
        SubsetSize(Want(have, X, needs, m - 1), Want(have, X, needs, m)) by { WantGrows(have, X, needs, m - 1); }
      }
      assert Least(have, X, needs, m);
    }
  }

  /** The least budget is unique, and there is one unless the queue is starved. */
  lemma LeastOrStarved<T>(have: set<T>, X: set<T>, needs: seq<set<T>>)
    ensures Starved(have, X, needs) <==> forall n: nat :: !Least(have, X, needs, n)
    ensures forall n: nat, m: nat :: Least(have, X, needs, n) && Least(have, X, needs, m) ==> n == m
  {
    if !Starved(have, X, needs) {
      var m: nat :| m <= |needs| && |Want(have, X, needs, m)| <= m;
      FirstPaid(have, X, needs, m);
    }
  }

  ghost function ConstantCost<T>(have: set<T>, X: set<T>, P: set<T>): nat {
    if X <= have then 0 else |(X + P) - have|
  }

  lemma ConstantCostBound<T>(have: set<T>, X: set<T>, P: set<T>)
    ensures ConstantCost(have, X, P) <= |X| + |P|
    ensures P <= have ==> ConstantCost(have, X, P) <= |X|
  {
    assert X + P == X + (P - X);
    SubsetSize(P - X, P);
    SubsetSize((X + P) - have, X + P);
    if P <= have {
      SubsetSize((X + P) - have, X);
    }
  }

  lemma {:induction false} UnionConstant<T>(needs: seq<set<T>>, P: set<T>)
    requires forall j :: 0 <= j < |needs| ==> needs[j] == P
    ensures Union(needs) == if needs == [] then {} else P
  {
    if needs != [] {
      UnionConstant(needs[1..], P);
    }
  }

  /** When all items make the same things necessary, the cost has a closed form. */
  lemma ConstantNeeds<T>(have: set<T>, X: set<T>, needs: seq<set<T>>, P: set<T>)
    requires forall j :: 0 <= j < |needs| ==> needs[j] == P
    ensures Starved(have, X, needs) <==> ConstantCost(have, X, P) > |needs|
    ensures forall n: nat :: Least(have, X, needs, n) ==> n == ConstantCost(have, X, P)
  {
    var cost := ConstantCost(have, X, P);
    forall m: nat | m <= |needs|
      ensures Want(have, X, needs, m) == if m == 0 then X - have else (X + P) - have
    {
      UnionConstant(needs[..m], P);
    }
    if X <= have {
      assert Want(have, X, needs, 0) == {};
      assert |Want(have, X, needs, 0)| == 0;
    } else {
      var x :| x in X && x !in have;
      assert x in X - have;
    }
    if cost <= |needs| {
      assert |Want(have, X, needs, cost)| <= cost;
    }
    forall n: nat | Least(have, X, needs, n)
      ensures n == cost
    {
      if n == 0 {
        assert |X - have| == 0;
      }
    }
  }
}
