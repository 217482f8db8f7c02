/**
  Facts about sequences shared by the model: distinctness, first positions,
  order-preserving selections and the first-occurrence deduplication that a
  PHP keyed assignment performs.
 */
module Sequences {

  /** No element occurs twice in `s`. */
  predicate Distinct<T(==)>(s: seq<T>) {
    forall i, j :: 0 <= i < j < |s| ==> s[i] != s[j]
  }

  /** Position of the first occurrence of `x` in `s`. */
  function FirstIndex<T(==)>(s: seq<T>, x: T): (i: nat)
    requires x in s
    ensures i < |s| && s[i] == x
    ensures forall j :: 0 <= j < i ==> s[j] != x
  {
    if s[0] == x then 0 else 1 + FirstIndex(s[1..], x)
  }

  /**
    `r` is `s` read at the strictly increasing positions `idx`: `r` keeps the
    relative order and the values of the elements of `s` it takes.
   */
  ghost predicate SubsequenceAt<T>(r: seq<T>, s: seq<T>, idx: seq<int>) {
    && |idx| == |r|
    && (forall i :: 0 <= i < |idx| ==> 0 <= idx[i] < |s| && r[i] == s[idx[i]])
    && (forall i, k :: 0 <= i < k < |idx| ==> idx[i] < idx[k])
  }

  /**
    `s` with every repeated element dropped, each element staying where it
    first occurred. Defined on the prefix so that it follows a left-to-right
    scan: the last element is kept only when the prefix before it lacks it.
   */
  function Dedup<T(==)>(s: seq<T>): seq<T> {
    if s == [] then []
    else
      var init, last := s[..|s| - 1], s[|s| - 1];
      if last in init then Dedup(init) else Dedup(init) + [last]
  }

  /** Appending an element does not move the first position of an element already present. */
  lemma FirstIndexAppend<T>(s: seq<T>, x: T, y: T)
    requires y in s
    ensures FirstIndex(s + [x], y) == FirstIndex(s, y)
  {
    var i, i' := FirstIndex(s, y), FirstIndex(s + [x], y);
    assert (s + [x])[i] == y;
  }

  /**
    Dedup keeps exactly the elements of `s`, each once, ordered by the
    position of their first occurrence in `s`.
   */
  lemma {:induction false} DedupCharacterisation<T>(s: seq<T>)
    ensures forall x :: x in Dedup(s) <==> x in s
    ensures Distinct(Dedup(s))
    ensures forall i, j :: 0 <= i < j < |Dedup(s)| ==>
              Dedup(s)[i] in s && Dedup(s)[j] in s &&
              FirstIndex(s, Dedup(s)[i]) < FirstIndex(s, Dedup(s)[j])
  {
    if s != [] {
      var init, last := s[..|s| - 1], s[|s| - 1];
      assert s == init + [last];
      DedupCharacterisation(init);
      var d := Dedup(init);
      forall x | x in init
        ensures x in s && FirstIndex(s, x) == FirstIndex(init, x)
      {
        FirstIndexAppend(init, last, x);
      }
      if last !in init {
        var d' := d + [last];
        assert FirstIndex(s, last) == |init| by {
          assert s[|init|] == last;
        }
        forall i, j | 0 <= i < j < |d'|
          ensures d'[i] in s && d'[j] in s && FirstIndex(s, d'[i]) < FirstIndex(s, d'[j])
        {
          if j < |d| {
            assert d'[i] == d[i] && d'[j] == d[j];
            assert d[i] in d && d[j] in d;
            assert FirstIndex(init, d[i]) < FirstIndex(init, d[j]);
          } else {
            assert d'[i] == d[i] && d'[j] == last;
            assert d[i] in d;
            assert FirstIndex(init, d[i]) < |init|;
          }
        }
      }
    }
  }

  /** Every position moved one place to the right. */
  function Shift(idx: seq<int>): (r: seq<int>)
    ensures |r| == |idx|
  {
    seq(|idx|, i requires 0 <= i < |idx| => idx[i] + 1)
  }

  /** A selection from `s` is still one from `s + [x]`, and can take `x` as its new last element. */
  lemma SubsequenceAtSnoc<T>(r: seq<T>, s: seq<T>, idx: seq<int>, x: T)
    requires SubsequenceAt(r, s, idx)
    ensures SubsequenceAt(r, s + [x], idx)
    ensures SubsequenceAt(r + [x], s + [x], idx + [|s|])
  {
  }

  /** A selection from `s` is one from `[x] + s` at shifted positions, and can take `x` as its new first element. */
  lemma SubsequenceAtCons<T>(r: seq<T>, s: seq<T>, idx: seq<int>, x: T)
    requires SubsequenceAt(r, s, idx)
    ensures SubsequenceAt(r, [x] + s, Shift(idx))
    ensures SubsequenceAt([x] + r, [x] + s, [0] + Shift(idx))
  {
  }

  /** A position other than 0 is in the shifted positions exactly when its predecessor was in the original ones. */
  lemma ShiftMembership(idx: seq<int>, j: int)
    ensures j in Shift(idx) <==> j - 1 in idx
  {
    if j in Shift(idx) {
      var k :| 0 <= k < |idx| && Shift(idx)[k] == j;
    }
    if j - 1 in idx {
      var k :| 0 <= k < |idx| && idx[k] == j - 1;
      assert Shift(idx)[k] == j;
    }
  }

  /** A sequence without repetitions is its own deduplication. */
  lemma {:induction false} DedupOfDistinct<T>(s: seq<T>)
    requires Distinct(s)
    ensures Dedup(s) == s
  {
    if s != [] {
      var init := s[..|s| - 1];
      assert Distinct(init);
      DedupOfDistinct(init);
      assert s[|s| - 1] !in init;
      assert s == init + [s[|s| - 1]];
    }
  }
}
