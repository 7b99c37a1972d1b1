/**
 * `Array.prototype.filter` as a function on sequences, and what it promises:
 * the result is the elements that pass, each kept once, in their original order.
 */
module Seqs {

  /** `s.filter(p)`. */
  function Keep<T(!new)>(s: seq<T>, p: T -> bool): (r: seq<T>)
    ensures |r| <= |s|
    ensures forall x :: x in r <==> x in s && p(x)
    decreases |s|
  {
    if s == [] then []
    else
      assert s == [s[0]] + s[1..];
      (if p(s[0]) then [s[0]] else []) + Keep(s[1..], p)
  }

  /** The indices of `s` whose elements pass `p`, ascending. */
  function Positions<T(!new)>(s: seq<T>, p: T -> bool): seq<nat> {
    PositionsFrom(s, p, 0)
  }

  /** The indices, counted from `base`, of the elements of `s` that pass `p`. */
  function PositionsFrom<T(!new)>(s: seq<T>, p: T -> bool, base: nat): seq<nat>
    decreases |s|
  {
    if s == [] then []
    else (if p(s[0]) then [base] else []) + PositionsFrom(s[1..], p, base + 1)
  }

  /**
   * `Keep(s, p)` is the subsequence of `s` at the ascending indices
   * `Positions(s, p)`, and those are exactly the indices whose element passes.
   */
  lemma KeepSelectsInOrder<T(!new)>(s: seq<T>, p: T -> bool)
    ensures |Positions(s, p)| == |Keep(s, p)|
    ensures forall k :: 0 <= k < |Positions(s, p)| ==>
              Positions(s, p)[k] < |s| && Keep(s, p)[k] == s[Positions(s, p)[k]]
    ensures forall k, l :: 0 <= k < l < |Positions(s, p)| ==> Positions(s, p)[k] < Positions(s, p)[l]
    ensures forall i :: 0 <= i < |s| ==> (i in Positions(s, p) <==> p(s[i]))
  {
    var ix := PositionsFrom(s, p, 0);
    PositionsPickKept(s, p, 0);
    PositionsAscend(s, p, 0);
    PositionsAreThePassing(s, p, 0);
    forall k | 0 <= k < |ix| ensures ix[k] < |s| && Keep(s, p)[k] == s[ix[k]] {
      assert ix[k] - 0 == ix[k];
    }
    forall i | 0 <= i < |s| ensures i in ix <==> p(s[i]) {
      assert 0 + i == i;
    }
  }

  lemma {:induction false} PositionsPickKept<T(!new)>(s: seq<T>, p: T -> bool, base: nat)
    ensures |PositionsFrom(s, p, base)| == |Keep(s, p)|
    ensures forall k :: 0 <= k < |PositionsFrom(s, p, base)| ==>
              base <= PositionsFrom(s, p, base)[k] < base + |s| &&
              Keep(s, p)[k] == s[PositionsFrom(s, p, base)[k] - base]
    decreases |s|
  {
    if s != [] {
      PositionsPickKept(s[1..], p, base + 1);
      var ix', r' := PositionsFrom(s[1..], p, base + 1), Keep(s[1..], p);
      var ix, r := PositionsFrom(s, p, base), Keep(s, p);
      var h := if p(s[0]) then 1 else 0;
      assert r == (if p(s[0]) then [s[0]] else []) + r';
      forall k | 0 <= k < |ix| ensures base <= ix[k] < base + |s| && r[k] == s[ix[k] - base] {
        if k >= h {
          assert ix[k] == ix'[k - h] && r[k] == r'[k - h];
          assert s[1..][ix'[k - h] - (base + 1)] == s[ix[k] - base];
        }
      }
    }
  }

  lemma {:induction false} PositionsAscend<T(!new)>(s: seq<T>, p: T -> bool, base: nat)
    ensures forall k :: 0 <= k < |PositionsFrom(s, p, base)| ==> base <= PositionsFrom(s, p, base)[k]
    ensures forall k, l :: 0 <= k < l < |PositionsFrom(s, p, base)| ==>
              PositionsFrom(s, p, base)[k] < PositionsFrom(s, p, base)[l]
    decreases |s|
  {
    if s != [] {
      PositionsAscend(s[1..], p, base + 1);
      var ix' := PositionsFrom(s[1..], p, base + 1);
      var ix := PositionsFrom(s, p, base);
      var h := if p(s[0]) then 1 else 0;
      assert forall k :: h <= k < |ix| ==> ix[k] == ix'[k - h];
    }
  }

  lemma {:induction false} PositionsAreThePassing<T(!new)>(s: seq<T>, p: T -> bool, base: nat)
    ensures forall i :: 0 <= i < |s| ==> (base + i in PositionsFrom(s, p, base) <==> p(s[i]))
    decreases |s|
  {
    if s != [] {
      PositionsAreThePassing(s[1..], p, base + 1);
      PositionsAscend(s[1..], p, base + 1);
      var ix' := PositionsFrom(s[1..], p, base + 1);
      var ix := PositionsFrom(s, p, base);
      assert ix == (if p(s[0]) then [base] else []) + ix';
      assert base !in ix';
      forall i | 0 < i < |s| ensures base + i in ix <==> p(s[i]) {
        assert s[1..][i - 1] == s[i];
        assert (base + 1) + (i - 1) == base + i;
      }
    }
  }

  /** Filtering `[x] + s` looks at `x` first, then at `s`. */
  lemma KeepCons<T(!new)>(x: T, s: seq<T>, p: T -> bool)
    ensures Keep([x] + s, p) == (if p(x) then [x] else []) + Keep(s, p)
  {
    assert ([x] + s)[1..] == s;
  }

  /** When every element passes, filtering changes nothing. */
  lemma {:induction false} KeepEverything<T(!new)>(s: seq<T>, p: T -> bool)
    requires forall i :: 0 <= i < |s| ==> p(s[i])
    ensures Keep(s, p) == s
    decreases |s|
  {
    if s != [] {
      KeepEverything(s[1..], p);
    }
  }

  /** Two tests that agree on every element of `s` keep the same elements. */
  lemma {:induction false} KeepAgreeing<T(!new)>(s: seq<T>, p: T -> bool, q: T -> bool)
    requires forall i :: 0 <= i < |s| ==> p(s[i]) == q(s[i])
    ensures Keep(s, p) == Keep(s, q)
    decreases |s|
  {
    if s != [] {
      KeepAgreeing(s[1..], p, q);
    }
  }

  /** When exactly the element at index `i` fails, filtering shortens `s` by one. */
  lemma {:induction false} KeepDropsOne<T(!new)>(s: seq<T>, p: T -> bool, i: nat)
    requires i < |s| && !p(s[i])
    requires forall j :: 0 <= j < |s| && j != i ==> p(s[j])
    ensures |Keep(s, p)| == |s| - 1
    decreases |s|
  {
    if i == 0 {
      KeepEverything(s[1..], p);
    } else {
      KeepDropsOne(s[1..], p, i - 1);
    }
  }
}
