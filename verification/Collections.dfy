/** Facts about duplicate-free sequences, used wherever the operator's order of
    iteration must not matter. */
module Collections {

  predicate NoDup<T(==)>(s: seq<T>) {
    forall i, j :: 0 <= i < j < |s| ==> s[i] != s[j]
  }

  function ToSet<T(==)>(s: seq<T>): set<T> {
    set x | x in s
  }

  /** `s` enumerates the set `S`: every element once, in some order. */
  predicate Lists<T(==)>(s: seq<T>, S: set<T>) {
    NoDup(s) && ToSet(s) == S
  }

  lemma {:induction false} NoDupIffCardinality<T>(s: seq<T>)
    ensures |ToSet(s)| <= |s|
    ensures NoDup(s) <==> |ToSet(s)| == |s|
  {
    if s == [] {
      assert ToSet(s) == {};
    } else {
      var init, x := s[..|s| - 1], s[|s| - 1];
      NoDupIffCardinality(init);
      assert s == init + [x];
      assert ToSet(s) == ToSet(init) + {x};
      if x in init {
        assert ToSet(s) == ToSet(init);
      } else if NoDup(init) {
        assert NoDup(s);
      } else {
        assert NoDup(s) ==> NoDup(init);
      }
    }
  }

  lemma PermutationKeepsSet<T>(a: seq<T>, b: seq<T>)
    requires multiset(a) == multiset(b)
    ensures ToSet(a) == ToSet(b)
    ensures forall x :: x in a <==> x in b
    ensures |a| == |b|
    ensures NoDup(a) <==> NoDup(b)
  {
    forall x
      ensures x in a <==> x in b
    {
      assert x in a <==> x in multiset(a);
      assert x in b <==> x in multiset(b);
    }
    assert |a| == |multiset(a)| == |multiset(b)| == |b|;
    NoDupIffCardinality(a);
    NoDupIffCardinality(b);
  }

  lemma PrefixOfNoDup<T>(s: seq<T>, n: nat)
    requires NoDup(s) && n <= |s|
    ensures NoDup(s[..n])
    ensures |ToSet(s[..n])| == n
    ensures ToSet(s[..n]) <= ToSet(s)
  {
    NoDupIffCardinality(s[..n]);
  }

  /** First occurrences, in order. */
  function Dedup<T(==)>(s: seq<T>): (d: seq<T>)
    ensures NoDup(d)
    ensures ToSet(d) == ToSet(s)
  {
    if s == [] then []
    else
      var d, x := Dedup(s[..|s| - 1]), s[|s| - 1];
      assert s == s[..|s| - 1] + [x];
      assert ToSet(s) == ToSet(d) + {x};
      assert x in d ==> x in ToSet(d);
      if x in d then d else (assert ToSet(d + [x]) == ToSet(d) + {x}; d + [x])
  }

  lemma DedupAppend<T>(s: seq<T>, x: T)
    ensures Dedup(s + [x]) == if x in Dedup(s) then Dedup(s) else Dedup(s) + [x]
  {
    assert (s + [x])[..|s|] == s;
  }

  /** Every finite set can be listed. */
  lemma {:induction false} SomeListing<T>(S: set<T>) returns (s: seq<T>)
    ensures Lists(s, S)
    decreases |S|
  {
    if S == {} {
      s := [];
      assert ToSet(s) == {};
    } else {
      var x :| x in S;
      var rest := SomeListing(S - {x});
      s := rest + [x];
      assert x !in ToSet(rest);
      assert ToSet(s) == ToSet(rest) + {x} == S;
    }
  }
}
