/** Lexicographic order on equal-length integer keys, and the arg-max under it.
    Sorting a frame by several key columns in descending order puts first a row
    whose key is a maximum of this order. */
module Lex {

  /** `a` is at most `b`, comparing the first key, then the second on a tie, and so on. */
  predicate LexLe(a: seq<int>, b: seq<int>)
    requires |a| == |b|
    decreases |a|
  {
    |a| == 0 || a[0] < b[0] || (a[0] == b[0] && LexLe(a[1..], b[1..]))
  }

  lemma {:induction false} LexLeReflexive(a: seq<int>)
    ensures LexLe(a, a)
    decreases |a|
  {
    if |a| > 0 {
      LexLeReflexive(a[1..]);
    }
  }

  lemma {:induction false} LexLeTotal(a: seq<int>, b: seq<int>)
    requires |a| == |b|
    ensures LexLe(a, b) || LexLe(b, a)
    decreases |a|
  {
    if |a| > 0 && a[0] == b[0] {
      LexLeTotal(a[1..], b[1..]);
    }
  }

  lemma {:induction false} LexLeTransitive(a: seq<int>, b: seq<int>, c: seq<int>)
    requires |a| == |b| == |c|
    requires LexLe(a, b) && LexLe(b, c)
    ensures LexLe(a, c)
    decreases |a|
  {
    if |a| > 0 && a[0] == b[0] == c[0] {
      LexLeTransitive(a[1..], b[1..], c[1..]);
    }
  }

  lemma {:induction false} LexLeAntisymmetric(a: seq<int>, b: seq<int>)
    requires |a| == |b|
    requires LexLe(a, b) && LexLe(b, a)
    ensures a == b
    decreases |a|
  {
    if |a| > 0 {
      LexLeAntisymmetric(a[1..], b[1..]);
      assert a == [a[0]] + a[1..];
      assert b == [b[0]] + b[1..];
    }
  }

  /** On one key the order is the integer order. */
  lemma LexLeSingle(x: int, y: int)
    ensures LexLe([x], [y]) <==> x <= y
  {
  }

  /** On two keys: the first decides, and the second breaks a tie. */
  lemma LexLePair(p: int, c: int, p': int, c': int)
    ensures LexLe([p, c], [p', c']) <==> p < p' || (p == p' && c <= c')
  {
    assert [p, c][1..] == [c];
    assert [p', c'][1..] == [c'];
    LexLeSingle(c, c');
  }

  /** Every key has length `width`. */
  predicate Uniform(keys: seq<seq<int>>, width: nat) {
    forall k | 0 <= k < |keys| :: |keys[k]| == width
  }

  /** `keys[i]` is at least every key. */
  predicate IsMax(keys: seq<seq<int>>, width: nat, i: nat)
    requires Uniform(keys, width) && i < |keys|
  {
    forall j | 0 <= j < |keys| :: LexLe(keys[j], keys[i])
  }

  lemma RaiseBound(keys: seq<seq<int>>, width: nat, i: nat)
    requires Uniform(keys, width) && i < |keys| - 1
    requires forall j | 0 <= j < |keys| - 1 :: LexLe(keys[j], keys[i])
    requires LexLe(keys[i], keys[|keys| - 1])
    ensures IsMax(keys, width, |keys| - 1)
  {
    var m := |keys| - 1;
    forall j | 0 <= j < |keys|
      ensures LexLe(keys[j], keys[m])
    {
      if j < m {
        LexLeTransitive(keys[j], keys[i], keys[m]);
      } else {
        LexLeReflexive(keys[m]);
      }
    }
  }

  /** Index of a maximal key. */
  function ArgMax(keys: seq<seq<int>>, width: nat): (i: nat)
    requires |keys| > 0 && Uniform(keys, width)
    ensures i < |keys| && IsMax(keys, width, i)
    decreases |keys|
  {
    if |keys| == 1 then
      LexLeReflexive(keys[0]);
      0
    else
      var last := |keys| - 1;
      var i := ArgMax(keys[..last], width);
      if LexLe(keys[last], keys[i]) then
        i
      else
        LexLeTotal(keys[i], keys[last]);
        RaiseBound(keys, width, i);
        last
  }

  /** A key strictly above every other key is the one chosen. */
  lemma StrictMaxIsChosen(keys: seq<seq<int>>, width: nat, m: nat)
    requires Uniform(keys, width) && m < |keys|
    requires forall j | 0 <= j < |keys| && j != m :: !LexLe(keys[m], keys[j])
    ensures ArgMax(keys, width) == m
  {
  }

  /** Any two maximal keys are equal: the arg-max is unique up to ties on every key. */
  lemma MaxKeysEqual(keys: seq<seq<int>>, width: nat, i: nat, j: nat)
    requires Uniform(keys, width) && i < |keys| && j < |keys|
    requires IsMax(keys, width, i) && IsMax(keys, width, j)
    ensures keys[i] == keys[j]
  {
    LexLeAntisymmetric(keys[i], keys[j]);
  }
}
