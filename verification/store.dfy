/**
 * Generic machinery for the id-keyed stores: enumeration of a map in store
 * order, filtering, pagination and Java's integer division.
 *
 * A store is a `map<int, T>` from primary key to row. The order in which the
 * database enumerates rows is not something the code relies on; the model
 * fixes it as ascending primary key, which is the order an auto-increment
 * identity column assigns.
 */
module Store {

  /** Strictly increasing, hence duplicate-free. */
  ghost predicate Increasing(s: seq<int>) {
    forall i, j :: 0 <= i < j < |s| ==> s[i] < s[j]
  }

  /** A sequence without repeated elements. */
  ghost predicate Distinct<T>(s: seq<T>) {
    forall i, j :: 0 <= i < j < |s| ==> s[i] != s[j]
  }

  /** Putting an element not yet present in front keeps a sequence duplicate-free. */
  lemma ConsDistinct<T>(x: T, s: seq<T>)
    requires Distinct(s) && x !in s
    ensures Distinct([x] + s)
  {
    var r := [x] + s;
    forall i, j | 0 <= i < j < |r|
      ensures r[i] != r[j]
    {
      if i == 0 {
        assert r[j] == s[j - 1];
      } else {
        assert r[i] == s[i - 1] && r[j] == s[j - 1];
      }
    }
  }

  predicate IsMin(k: int, s: set<int>) {
    k in s && forall j :: j in s ==> k <= j
  }

  /** Set extensionality, which the solver does not apply unaided to `{}`. */
  lemma NoElementsMeansEmpty(s: set<int>)
    requires forall x :: x !in s
    ensures s == {}
  {
    var e: set<int> := {};
    assert forall x :: x in s <==> x in e;
    assert s == e;
  }

  lemma NonEmptyHasElement(s: set<int>)
    requires s != {}
    ensures exists x :: x in s
  {
    if forall x :: x !in s {
      NoElementsMeansEmpty(s);
    }
  }

  lemma {:induction false} MinExists(s: set<int>)
    requires s != {}
    ensures exists k :: IsMin(k, s)
    decreases s
  {
    NonEmptyHasElement(s);
    var x :| x in s;
    if s != {x} {
      var rest := s - {x};
      NonEmptyHasElement(rest);
      MinExists(rest);
      var m :| IsMin(m, rest);
      assert forall j :: j in s ==> j == x || j in rest;
      if x < m {
        assert IsMin(x, s);
      } else {
        assert IsMin(m, s);
      }
    } else {
      assert IsMin(x, s);
    }
  }

  /** The keys of a store in the order the store enumerates them. */
  function AscendingKeys(s: set<int>): (r: seq<int>)
    ensures |r| == |s|
    ensures forall k :: k in r <==> k in s
    decreases |s|
  {
    if s == {} then []
    else
      MinExists(s);
      var k :| IsMin(k, s);
      [k] + AscendingKeys(s - {k})
  }

  /** Store order is strictly ascending: the least key first, and no key twice. */
  lemma {:induction false} KeysIncrease(s: set<int>)
    ensures Increasing(AscendingKeys(s))
    decreases |s|
  {
    if s != {} {
      MinExists(s);
      var k :| IsMin(k, s);
      var rest := AscendingKeys(s - {k});
      assert AscendingKeys(s) == [k] + rest;
      KeysIncrease(s - {k});
      forall i | 0 <= i < |rest|
        ensures k < rest[i]
      {
        assert rest[i] in s - {k};
      }
      ConsIncreasing(k, rest);
    }
  }

  lemma ConsIncreasing(k: int, s: seq<int>)
    requires Increasing(s) && forall i :: 0 <= i < |s| ==> k < s[i]
    ensures Increasing([k] + s)
  {
    var r := [k] + s;
    forall i, j | 0 <= i < j < |r|
      ensures r[i] < r[j]
    {
      assert r[j] == s[j - 1];
      if i > 0 {
        assert r[i] == s[i - 1];
      }
    }
  }

  /** The values stored under `keys`, in their order. */
  function ValuesAt<T>(m: map<int, T>, keys: seq<int>): (r: seq<T>)
    requires forall i :: 0 <= i < |keys| ==> keys[i] in m
    ensures |r| == |keys| && forall i :: 0 <= i < |keys| ==> r[i] == m[keys[i]]
  {
    seq(|keys|, i requires 0 <= i < |keys| => m[keys[i]])
  }

  /** Every value of `m` occurs among the values listed under all of its keys. */
  lemma ValuesAreListed<T>(m: map<int, T>, keys: seq<int>, r: seq<T>)
    requires forall k :: k in keys <==> k in m
    requires forall i :: 0 <= i < |keys| ==> keys[i] in m
    requires |r| == |keys| && forall i :: 0 <= i < |keys| ==> r[i] == m[keys[i]]
    ensures forall k :: k in m ==> m[k] in r
  {
    forall k | k in m
      ensures m[k] in r
    {
      var i := IndexOf(keys, k);
      assert r[i] == m[k];
    }
  }

  /** The rows of a store, in store order: the row under the least key first. */
  function Rows<T(==,!new)>(m: map<int, T>): (r: seq<T>)
    ensures |r| == |m|
    ensures forall x :: x in r <==> x in m.Values
  {
    var keys := AscendingKeys(m.Keys);
    var r := ValuesAt(m, keys);
    ValuesAreListed(m, keys, r);
    KeysIncrease(m.Keys);
    assert forall x :: x in m.Values ==> x in r by {
      forall x | x in m.Values
        ensures x in r
      {
        var k :| k in m && m[k] == x;
      }
    }
    r
  }

  /** The `i`-th row is the one stored under the `i`-th key. */
  lemma RowsFollowKeys<T(!new)>(m: map<int, T>)
    ensures Increasing(AscendingKeys(m.Keys))
    ensures forall i :: 0 <= i < |Rows(m)| ==> AscendingKeys(m.Keys)[i] in m && Rows(m)[i] == m[AscendingKeys(m.Keys)[i]]
  {
    KeysIncrease(m.Keys);
  }

  /** A value of a map is stored under some key. */
  lemma ValueHasKey<T(!new)>(m: map<int, T>, v: T)
    requires v in m.Values
    ensures exists k :: k in m && m[k] == v
  {
    var r := Rows(m);
    RowsFollowKeys(m);
    var i :| 0 <= i < |r| && r[i] == v;
    assert AscendingKeys(m.Keys)[i] in m;
  }

  /** The elements of `s` that satisfy `p`, in their original order. */
  function Filter<T(!new)>(s: seq<T>, p: T -> bool): (r: seq<T>)
    ensures |r| <= |s|
    ensures forall x :: x in r <==> x in s && p(x)
    ensures Distinct(s) ==> Distinct(r)
  {
    if s == [] then []
    else
      var rest := Filter(s[1..], p);
      assert s == [s[0]] + s[1..];
      assert Distinct(s) ==> s[0] !in s[1..];
      if p(s[0]) then [s[0]] + rest else rest
  }

  /**
   * One page of a list, as Spring Data's `PageRequest.of(page, size)` cuts it:
   * the elements at positions `page * size` up to (excluding)
   * `(page + 1) * size`, as far as they exist.
   */
  function Page<T>(s: seq<T>, page: nat, size: nat): (r: seq<T>)
    requires size > 0
    ensures |r| <= size
    ensures page * size >= |s| ==> r == []
    ensures page * size < |s| ==> |r| == (if |s| - page * size < size then |s| - page * size else size)
    ensures forall i :: 0 <= i < |r| ==> page * size + i < |s| && r[i] == s[page * size + i]
    ensures forall x :: x in r ==> x in s
  {
    var lo := page * size;
    if lo >= |s| then []
    else if lo + size <= |s| then s[lo..lo + size]
    else s[lo..]
  }

  /** Java's `int / int`: the quotient truncated toward zero. */
  function JavaDiv(a: int, b: int): (q: int)
    requires b != 0
    ensures a >= 0 && b > 0 ==> q == a / b
  {
    var q := (if a < 0 then -a else a) / (if b < 0 then -b else b);
    if (a < 0) == (b < 0) then q else -q
  }

  lemma NegatedDividend(a: int, b: int)
    requires a < 0 < b
    ensures JavaDiv(a, b) == -((-a) / b)
  {
  }

  lemma MulKeepsSign(q: int, b: int)
    requires b > 0
    ensures q <= 0 ==> q * b <= 0
  {
  }

  lemma DivIsPositiveFromDivisor(n: nat, b: int)
    requires 0 < b <= n
    ensures n / b >= 1
  {
    MulKeepsSign(n / b, b);
  }

  lemma DivOfNatIsNat(n: nat, b: int)
    requires b > 0
    ensures n / b >= 0
  {
  }

  lemma TruncatesToZero(a: int, b: int)
    requires -b < a < 0 < b
    ensures JavaDiv(a, b) == 0
  {
    NegatedDividend(a, b);
  }

  lemma NegativeFromDivisor(a: int, b: int)
    requires a <= -b < 0
    ensures JavaDiv(a, b) < 0
  {
    NegatedDividend(a, b);
    DivIsPositiveFromDivisor(-a, b);
  }

  /**
   * Java's quotient by a positive divisor is negative exactly when the
   * dividend is at most minus the divisor; above that, a negative dividend
   * truncates to 0 and a non-negative one divides as usual.
   */
  lemma JavaDivByPositive(a: int, b: int)
    requires b > 0
    ensures JavaDiv(a, b) < 0 <==> a <= -b
    ensures a > -b ==> JavaDiv(a, b) == if a < 0 then 0 else a / b
  {
    if a <= -b {
      NegativeFromDivisor(a, b);
    } else if a < 0 {
      TruncatesToZero(a, b);
    } else {
      DivOfNatIsNat(a, b);
    }
  }

  /**
   * The page number `from / size` that an offset-style request turns into,
   * when it is a valid page: a negative offset above `-size` truncates to
   * the first page.
   */
  function PageOf(from: int, size: int): (p: nat)
    requires size > 0 && from > -size
    ensures p == JavaDiv(from, size)
    ensures from < 0 ==> p == 0
  {
    JavaDivByPositive(from, size);
    if from < 0 then 0 else from / size
  }

  /** A position at which an element of a sequence occurs. */
  lemma IndexOf<T>(s: seq<T>, x: T) returns (i: int)
    requires x in s
    ensures 0 <= i < |s| && s[i] == x
  {
    i :| 0 <= i < |s| && s[i] == x;
  }
}
