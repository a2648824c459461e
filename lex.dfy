/** Python's comparison of sort-key tuples and the builtins `min(xs, key=f)` and
    `max(xs, key=f)`, which return the FIRST element, in list order, whose key is extremal. */
module Lex {

  /** One component of a sort key: a Python number (a `bool` counts as 0 or 1) or one of
      the float infinities `float("-inf")`, `float("inf")`. */
  datatype Scalar = NegInf | Num(n: int) | PosInf

  predicate ScalarLess(a: Scalar, b: Scalar) {
    match a
    case NegInf => !b.NegInf?
    case Num(x) => (b.Num? && x < b.n) || b.PosInf?
    case PosInf => false
  }

  function BoolScalar(b: bool): Scalar {
    Num(if b then 1 else 0)
  }

  /** A key tuple. */
  type Key = seq<Scalar>

  /** Python's `<` on tuples: lexicographic, a proper prefix comes first. */
  predicate KeyLess(a: Key, b: Key)
    decreases |a|
  {
    if a == [] then b != []
    else if b == [] then false
    else ScalarLess(a[0], b[0]) || (a[0] == b[0] && KeyLess(a[1..], b[1..]))
  }

  lemma {:induction false} KeyLessIrreflexive(a: Key)
    ensures !KeyLess(a, a)
    decreases |a|
  {
    if a != [] {
      KeyLessIrreflexive(a[1..]);
    }
  }

  lemma {:induction false} KeyLessTransitive(a: Key, b: Key, c: Key)
    requires KeyLess(a, b) && KeyLess(b, c)
    ensures KeyLess(a, c)
    decreases |a|
  {
    if a != [] && b != [] && c != [] && a[0] == b[0] == c[0] {
      KeyLessTransitive(a[1..], b[1..], c[1..]);
    }
  }

  lemma {:induction false} KeyLessTotal(a: Key, b: Key)
    ensures a == b || KeyLess(a, b) || KeyLess(b, a)
    decreases |a|
  {
    if a != [] && b != [] && a[0] == b[0] {
      KeyLessTotal(a[1..], b[1..]);
      if a[1..] == b[1..] {
        assert a == [a[0]] + a[1..] && b == [b[0]] + b[1..];
      }
    }
  }

  lemma KeyLessAsymmetric(a: Key, b: Key)
    ensures !(KeyLess(a, b) && KeyLess(b, a))
  {
    KeyLessIrreflexive(a);
    if KeyLess(a, b) && KeyLess(b, a) {
      KeyLessTransitive(a, b, a);
    }
  }

  /** `KeyLess` is a strict total order. */
  lemma KeyLessOrder()
    ensures forall a: Key :: !KeyLess(a, a)
    ensures forall a: Key, b: Key, c: Key :: KeyLess(a, b) && KeyLess(b, c) ==> KeyLess(a, c)
    ensures forall a: Key, b: Key :: a == b || KeyLess(a, b) || KeyLess(b, a)
  {
    forall a: Key ensures !KeyLess(a, a) {
      KeyLessIrreflexive(a);
    }
    forall a: Key, b: Key, c: Key | KeyLess(a, b) && KeyLess(b, c) ensures KeyLess(a, c) {
      KeyLessTransitive(a, b, c);
    }
    forall a: Key, b: Key ensures a == b || KeyLess(a, b) || KeyLess(b, a) {
      KeyLessTotal(a, b);
    }
  }

  /** One step of the lexicographic comparison. */
  lemma KeyLessCons(x: Scalar, a: Key, y: Scalar, b: Key)
    ensures KeyLess([x] + a, [y] + b) <==> ScalarLess(x, y) || (x == y && KeyLess(a, b))
  {
    assert ([x] + a)[1..] == a && ([y] + b)[1..] == b;
  }

  /** Comparison of two three-component keys, component by component. */
  lemma KeyLess3(x0: Scalar, x1: Scalar, x2: Scalar, y0: Scalar, y1: Scalar, y2: Scalar)
    ensures KeyLess([x0, x1, x2], [y0, y1, y2]) <==>
      ScalarLess(x0, y0) || (x0 == y0 && (ScalarLess(x1, y1) || (x1 == y1 && ScalarLess(x2, y2))))
  {
    assert [x0, x1, x2] == [x0] + [x1, x2] && [y0, y1, y2] == [y0] + [y1, y2];
    assert [x1, x2] == [x1] + [x2] && [y1, y2] == [y1] + [y2];
    assert [x2] == [x2] + [] && [y2] == [y2] + [];
    KeyLessCons(x0, [x1, x2], y0, [y1, y2]);
    KeyLessCons(x1, [x2], y1, [y2]);
    KeyLessCons(x2, [], y2, []);
  }

  /** What `!(a < b)` says about the first three components of two longer keys. */
  lemma KeyNotLessFront(a: Key, b: Key)
    requires |a| >= 3 && |b| >= 3 && !KeyLess(a, b)
    ensures !ScalarLess(a[0], b[0])
    ensures a[0] == b[0] ==> !ScalarLess(a[1], b[1])
    ensures a[0] == b[0] && a[1] == b[1] ==> !ScalarLess(a[2], b[2])
  {
    assert a == [a[0]] + a[1..] && b == [b[0]] + b[1..];
    assert a[1..] == [a[1]] + a[2..] && b[1..] == [b[1]] + b[2..];
    assert a[2..] == [a[2]] + a[3..] && b[2..] == [b[2]] + b[3..];
    KeyLessCons(a[0], a[1..], b[0], b[1..]);
    KeyLessCons(a[1], a[2..], b[1], b[2..]);
    KeyLessCons(a[2], a[3..], b[2], b[3..]);
  }

  /** What `!(a < b)` says about the fourth component of two keys of four components
      whose first three agree. */
  lemma KeyNotLessFourth(a: Key, b: Key)
    requires |a| == 4 && |b| == 4 && !KeyLess(a, b)
    requires a[0] == b[0] && a[1] == b[1] && a[2] == b[2]
    ensures !ScalarLess(a[3], b[3])
  {
    assert a == [a[0]] + a[1..] && b == [b[0]] + b[1..];
    KeyLessCons(a[0], a[1..], b[0], b[1..]);
    assert a[1..] == [a[1]] + a[2..] && b[1..] == [b[1]] + b[2..];
    KeyLessCons(a[1], a[2..], b[1], b[2..]);
    assert a[2..] == [a[2]] + a[3..] && b[2..] == [b[2]] + b[3..];
    KeyLessCons(a[2], a[3..], b[2], b[3..]);
    assert a[3..] == [a[3]] + [] && b[3..] == [b[3]] + [];
    KeyLessCons(a[3], [], b[3], []);
  }

  /** `i` is the index Python's `min` returns: no key is smaller than `s[i]`'s, and every
      earlier key is strictly larger. */
  ghost predicate IsFirstMin<T>(s: seq<T>, key: T -> Key, i: nat) {
    && i < |s|
    && (forall j :: 0 <= j < |s| ==> !KeyLess(key(s[j]), key(s[i])))
    && (forall j :: 0 <= j < i ==> KeyLess(key(s[i]), key(s[j])))
  }

  /** `i` is the index Python's `max` returns. */
  ghost predicate IsFirstMax<T>(s: seq<T>, key: T -> Key, i: nat) {
    && i < |s|
    && (forall j :: 0 <= j < |s| ==> !KeyLess(key(s[i]), key(s[j])))
    && (forall j :: 0 <= j < i ==> KeyLess(key(s[j]), key(s[i])))
  }

  /** `min(s, key=key)`, as an index: scans left to right and replaces the best so far only
      by a strictly smaller key. */
  function ArgMin<T>(s: seq<T>, key: T -> Key): (i: nat)
    requires |s| > 0
    ensures IsFirstMin(s, key, i)
    decreases |s|
  {
    KeyLessOrder();
    if |s| == 1 then 0
    else
      var b := ArgMin(s[..|s| - 1], key);
      assert forall j :: 0 <= j < |s| - 1 ==> s[..|s| - 1][j] == s[j];
      if KeyLess(key(s[|s| - 1]), key(s[b])) then |s| - 1 else b
  }

  /** `max(s, key=key)`, as an index: replaces the best so far only by a strictly larger key. */
  function ArgMax<T>(s: seq<T>, key: T -> Key): (i: nat)
    requires |s| > 0
    ensures IsFirstMax(s, key, i)
    decreases |s|
  {
    KeyLessOrder();
    if |s| == 1 then 0
    else
      var b := ArgMax(s[..|s| - 1], key);
      assert forall j :: 0 <= j < |s| - 1 ==> s[..|s| - 1][j] == s[j];
      if KeyLess(key(s[b]), key(s[|s| - 1])) then |s| - 1 else b
  }

  /** When every key starts with a flag (`False < True`), `min` picks an element whose flag
      is clear as soon as any element's flag is clear. */
  lemma FirstMinPrefersClearFlag<T>(s: seq<T>, key: T -> Key, flag: T -> bool, j: nat)
    requires j < |s| && !flag(s[j])
    requires forall x :: x in s ==> |key(x)| > 0 && key(x)[0] == BoolScalar(flag(x))
    ensures !flag(s[ArgMin(s, key)])
  {
    var i := ArgMin(s, key);
    assert s[i] in s && s[j] in s;
    var ki, kj := key(s[i]), key(s[j]);
    assert !KeyLess(kj, ki);
    assert kj == [kj[0]] + kj[1..] && ki == [ki[0]] + ki[1..];
    KeyLessCons(kj[0], kj[1..], ki[0], ki[1..]);
  }

  /** The characterisation determines the index: `min` returns exactly the first minimal
      element. */
  lemma FirstMinUnique<T>(s: seq<T>, key: T -> Key, i: nat)
    requires |s| > 0
    ensures IsFirstMin(s, key, i) <==> i == ArgMin(s, key)
  {
  }

  lemma FirstMaxUnique<T>(s: seq<T>, key: T -> Key, i: nat)
    requires |s| > 0
    ensures IsFirstMax(s, key, i) <==> i == ArgMax(s, key)
  {
  }
}
