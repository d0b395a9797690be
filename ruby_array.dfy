/** Ruby's `Array#uniq` (and its in-place form `uniq!`), which the cache
    applies both to whole coupon records and to coupon titles: it keeps the
    first occurrence of every value and drops the later ones. */
module RubyArray {

  /** No value occurs twice. */
  predicate NoDups<T(==)>(s: seq<T>) {
    forall i, j :: 0 <= i < j < |s| ==> s[i] != s[j]
  }

  /** `s.uniq`, written as the scan that appends each element not seen yet. */
  function Uniq<T(==)>(s: seq<T>): (r: seq<T>)
    ensures NoDups(r)
    ensures forall i :: 0 <= i < |r| ==> r[i] in s
    ensures forall i :: 0 <= i < |s| ==> s[i] in r
    ensures |r| <= |s|
  {
    if s == [] then []
    else
      var p := Uniq(s[..|s| - 1]);
      assert s == s[..|s| - 1] + [s[|s| - 1]];
      if s[|s| - 1] in p then p else p + [s[|s| - 1]]
  }

  /** The position of the first occurrence of `x` in `s`. */
  function IndexOf<T(==)>(s: seq<T>, x: T): (i: nat)
    requires x in s
    ensures i < |s| && s[i] == x && x !in s[..i]
  {
    if s[0] == x then 0
    else
      var j := IndexOf(s[1..], x);
      assert s[..j + 1] == [s[0]] + s[1..][..j];
      j + 1
  }

  /** An index holding `x` with no earlier `x` is the first occurrence. */
  lemma IndexOfUnique<T>(s: seq<T>, x: T, i: nat)
    requires i < |s| && s[i] == x && x !in s[..i]
    ensures IndexOf(s, x) == i
  {
  }

  /** The first occurrence of a value of `p` does not move when more
      elements are appended. */
  lemma IndexOfAppend<T>(p: seq<T>, q: seq<T>, x: T)
    requires x in p
    ensures IndexOf(p + q, x) == IndexOf(p, x)
  {
    var k := IndexOf(p, x);
    assert (p + q)[..k] == p[..k];
    IndexOfUnique(p + q, x, k);
  }

  /** A sequence without duplicates is left as it is. */
  lemma {:induction false} UniqOfNoDups<T>(s: seq<T>)
    requires NoDups(s)
    ensures Uniq(s) == s
  {
    if s != [] {
      var p := s[..|s| - 1];
      assert NoDups(p);
      UniqOfNoDups(p);
      assert s[|s| - 1] !in p by {
        forall i | 0 <= i < |p| ensures p[i] != s[|s| - 1] {
          assert p[i] == s[i];
        }
      }
      assert s == p + [s[|s| - 1]];
    }
  }

  /** Appending more elements never disturbs what `uniq` kept of the front:
      `uniq(a)` is a prefix of `uniq(a + b)`. */
  lemma {:induction false} UniqKeepsPrefix<T>(a: seq<T>, b: seq<T>)
    ensures Uniq(a) <= Uniq(a + b)
  {
    if b == [] {
      assert a + b == a;
    } else {
      var b' := b[..|b| - 1];
      assert (a + b)[..|a + b| - 1] == a + b';
      UniqKeepsPrefix(a, b');
    }
  }

  /** Appending `x` to `p` extends `uniq(p)` by `x` exactly when `x` is new. */
  lemma UniqSnoc<T>(p: seq<T>, x: T)
    ensures Uniq(p + [x]) == if x in p then Uniq(p) else Uniq(p) + [x]
  {
    assert (p + [x])[..|p + [x]| - 1] == p;
  }

  /** The step of `UniqFirstOccurrenceOrder` for one appended element. */
  lemma UniqOrderStep<T>(p: seq<T>, x: T, i: nat, j: nat)
    requires forall a, b :: 0 <= a < b < |Uniq(p)| ==> IndexOf(p, Uniq(p)[a]) < IndexOf(p, Uniq(p)[b])
    requires i < j < |Uniq(p + [x])|
    ensures IndexOf(p + [x], Uniq(p + [x])[i]) < IndexOf(p + [x], Uniq(p + [x])[j])
  {
    var u := Uniq(p);
    UniqSnoc(p, x);
    assert Uniq(p + [x])[i] == u[i];
    IndexOfAppend(p, [x], u[i]);
    if j < |u| {
      assert Uniq(p + [x])[j] == u[j];
      IndexOfAppend(p, [x], u[j]);
    } else {
      assert x !in p;
      assert (p + [x])[..|p|] == p;
      IndexOfUnique(p + [x], x, |p|);
    }
  }

  /** `[a, b, a].uniq` is `[a, b]` when `a` and `b` differ. */
  lemma UniqOfABA<T>(a: T, b: T)
    requires a != b
    ensures Uniq([a, b, a]) == [a, b]
  {
    assert Uniq([a]) == [a] by {
      UniqSnoc([], a);
      assert [] + [a] == [a];
    }
    assert Uniq([a, b]) == [a, b] by {
      UniqSnoc([a], b);
      assert [a] + [b] == [a, b];
    }
    assert a in [a, b];
    UniqSnoc([a, b], a);
    assert [a, b] + [a] == [a, b, a];
  }

  /** `uniq` lists the distinct values in the order of their first
      occurrence in the input. */
  lemma {:induction false} UniqFirstOccurrenceOrder<T>(s: seq<T>)
    ensures forall i, j :: 0 <= i < j < |Uniq(s)| ==> IndexOf(s, Uniq(s)[i]) < IndexOf(s, Uniq(s)[j])
  {
    if s != [] {
      var p, x := s[..|s| - 1], s[|s| - 1];
      assert s == p + [x];
      UniqFirstOccurrenceOrder(p);
      forall i, j | 0 <= i < j < |Uniq(s)| ensures IndexOf(s, Uniq(s)[i]) < IndexOf(s, Uniq(s)[j]) {
        UniqOrderStep(p, x, i, j);
      }
    }
  }

  /** The values `uniq` keeps from `a + b`, when `a` is already free of
      duplicates, are `a` itself followed by the rest. */
  lemma UniqExtends<T>(a: seq<T>, b: seq<T>)
    requires NoDups(a)
    ensures a <= Uniq(a + b)
  {
    UniqOfNoDups(a);
    UniqKeepsPrefix(a, b);
  }
}
