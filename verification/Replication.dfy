/** Writes to the Secret store, and where the writes of an attempt lead. Everything here is
    about one owner name, the contents it wants (`want`) and the store it starts from. */
module Replication {
  import opened Collections
  import opened Model

  datatype Write = Put(key: Key, content: Content) | Delete(key: Key)

  function Other(s: Store, key: Key): string {
    if key in s then s[key].other else NOTHING_ELSE
  }

  /** The effect of one write: an update keeps what else is on the Secret. */
  function Apply(s: Store, w: Write): Store {
    match w
    case Put(key, content) => s[key := Secret(content, Other(s, key))]
    case Delete(key) => s - {key}
  }

  // -------------------------------------------------------- what is to do

  predicate Claims(want: map<Key, Content>, name: string) {
    forall k :: k in want ==> OwnedBy(want[k], name)
  }

  /** Planned Secrets that are missing or differ. */
  function Stale(s: Store, want: map<Key, Content>): set<Key> {
    set k | k in want && (k !in s || s[k].content != want[k])
  }

  function Owned(s: Store, name: string): set<Key> {
    set k | k in s && OwnedBy(s[k].content, name)
  }

  /** Owned Secrets that are no longer planned. */
  function Obsolete(s: Store, want: map<Key, Content>, name: string): set<Key> {
    set k | k in s && OwnedBy(s[k].content, name) && k !in want
  }

  /** `puts` and `deletes` are what an attempt from `s` has to do, in some order. */
  predicate Due(s: Store, want: map<Key, Content>, name: string, puts: seq<Key>, deletes: seq<Key>) {
    Lists(puts, Stale(s, want)) && Lists(deletes, Obsolete(s, want, name))
  }

  /** The key of the `i`-th write: the puts come first, then the deletes. */
  function NthKey(puts: seq<Key>, deletes: seq<Key>, i: nat): Key
    requires i < |puts| + |deletes|
  {
    if i < |puts| then puts[i] else deletes[i - |puts|]
  }

  /** A planned key is put, any other key is deleted. */
  function WriteFor(want: map<Key, Content>, key: Key): Write {
    if key in want then Put(key, want[key]) else Delete(key)
  }

  /** The store after the first `n` writes. */
  function After(s: Store, want: map<Key, Content>, puts: seq<Key>, deletes: seq<Key>, n: nat): Store
    requires n <= |puts| + |deletes|
  {
    if n == 0 then s else Apply(After(s, want, puts, deletes, n - 1), WriteFor(want, NthKey(puts, deletes, n - 1)))
  }

  /** The store once the keys in `put` are written and those in `gone` are deleted. */
  function Patch(s: Store, want: map<Key, Content>, put: set<Key>, gone: set<Key>): Store
    requires put <= want.Keys
  {
    map k | k in (s.Keys + put) - gone :: if k in put then Secret(want[k], Other(s, k)) else s[k]
  }

  /** Where an uninterrupted attempt ends. */
  function Synced(s: Store, want: map<Key, Content>, name: string): Store {
    Patch(s, want, Stale(s, want), Obsolete(s, want, name))
  }

  // -------------------------------------------- partial work is a patch

  function Least(a: nat, b: nat): nat {
    if a < b then a else b
  }

  /** The keys put and the keys deleted by the first `n` writes. */
  function PutBy(puts: seq<Key>, n: nat): set<Key> {
    set i | 0 <= i < n && i < |puts| :: puts[i]
  }

  function GoneBy(puts: seq<Key>, deletes: seq<Key>, n: nat): set<Key> {
    if n <= |puts| then {} else PutBy(deletes, n - |puts|)
  }

  lemma KeysByNext(puts: seq<Key>, deletes: seq<Key>, n: nat)
    requires n < |puts| + |deletes|
    ensures PutBy(puts, n + 1) == PutBy(puts, n) + if n < |puts| then {puts[n]} else {}
    ensures GoneBy(puts, deletes, n + 1) == GoneBy(puts, deletes, n) + if n < |puts| then {} else {deletes[n - |puts|]}
  {
  }

  lemma KeysByAll(puts: seq<Key>, deletes: seq<Key>, n: nat)
    ensures PutBy(puts, n) <= ToSet(puts) && GoneBy(puts, deletes, n) <= ToSet(deletes)
    ensures n <= |puts| ==> GoneBy(puts, deletes, n) == {}
    ensures |puts| <= n ==> PutBy(puts, n) == ToSet(puts)
    ensures |puts| + |deletes| <= n ==> GoneBy(puts, deletes, n) == ToSet(deletes)
  {
  }

  lemma PatchNothing(s: Store, want: map<Key, Content>)
    ensures Patch(s, want, {}, {}) == s
  {
  }

  lemma PatchNext(s: Store, want: map<Key, Content>, put: set<Key>, gone: set<Key>, k: Key)
    requires put <= want.Keys && gone !! want.Keys
    ensures Apply(Patch(s, want, put, gone), WriteFor(want, k)) ==
            if k in want then Patch(s, want, put + {k}, gone) else Patch(s, want, put, gone + {k})
  {
  }

  lemma {:induction false} AfterIsPatch(s: Store, want: map<Key, Content>, puts: seq<Key>, deletes: seq<Key>, n: nat)
    requires ToSet(puts) <= want.Keys && ToSet(deletes) !! want.Keys
    requires n <= |puts| + |deletes|
    ensures PutBy(puts, n) <= want.Keys
    ensures After(s, want, puts, deletes, n) == Patch(s, want, PutBy(puts, n), GoneBy(puts, deletes, n))
  {
    if n == 0 {
      PatchBeforeAll(s, want, puts, deletes);
    } else {
      var before := After(s, want, puts, deletes, n - 1);
      AfterIsPatch(s, want, puts, deletes, n - 1);
      PatchAfterNext(s, want, puts, deletes, n - 1);
      assert After(s, want, puts, deletes, n) == Apply(before, WriteFor(want, NthKey(puts, deletes, n - 1)));
    }
  }

  lemma PatchBeforeAll(s: Store, want: map<Key, Content>, puts: seq<Key>, deletes: seq<Key>)
    ensures PutBy(puts, 0) == {} && GoneBy(puts, deletes, 0) == {}
    ensures Patch(s, want, PutBy(puts, 0), GoneBy(puts, deletes, 0)) == s
  {
    assert PutBy(puts, 0) == {};
    PatchNothing(s, want);
  }

  lemma PatchAfterNext(s: Store, want: map<Key, Content>, puts: seq<Key>, deletes: seq<Key>, n: nat)
    requires ToSet(puts) <= want.Keys && ToSet(deletes) !! want.Keys
    requires n < |puts| + |deletes|
    ensures PutBy(puts, n) <= want.Keys && PutBy(puts, n + 1) <= want.Keys
    ensures Apply(Patch(s, want, PutBy(puts, n), GoneBy(puts, deletes, n)), WriteFor(want, NthKey(puts, deletes, n))) ==
            Patch(s, want, PutBy(puts, n + 1), GoneBy(puts, deletes, n + 1))
  {
    KeysByAll(puts, deletes, n);
    KeysByAll(puts, deletes, n + 1);
    KeysByNext(puts, deletes, n);
    assert n < |puts| ==> puts[n] in ToSet(puts);
    assert n >= |puts| ==> deletes[n - |puts|] in ToSet(deletes);
    PatchNext(s, want, PutBy(puts, n), GoneBy(puts, deletes, n), NthKey(puts, deletes, n));
  }

  // ------------------------------------------------- convergence and frame

  /** After a complete attempt the Secrets owned under the name are exactly the planned
      keys, each with the planned content; an update keeps the rest of the Secret, what was owned
      before and is not planned is gone, and every other key is untouched. */
  lemma Convergence(s: Store, want: map<Key, Content>, name: string)
    requires Claims(want, name)
    ensures
      var t := Synced(s, want, name);
      && Owned(t, name) == want.Keys
      && (forall k :: k in want ==> t[k] == Secret(want[k], Other(s, k)))
      && (forall k :: k in Owned(s, name) && k !in want ==> k !in t)
      && (forall k :: k !in want && k !in Owned(s, name) ==> (k in t <==> k in s) && (k in s ==> t[k] == s[k]))
  {
    var t := Synced(s, want, name);
    forall k
      ensures k in Owned(t, name) <==> k in want
    {
    }
  }

  // ---------------------------------------------------- partial progress

  /** Partial work: what has been written is no longer due, everything else still is. */
  lemma PatchReducesWork(s: Store, want: map<Key, Content>, name: string, put: set<Key>, gone: set<Key>)
    requires Claims(want, name)
    requires put <= Stale(s, want) && gone <= Obsolete(s, want, name)
    ensures
      var t := Patch(s, want, put, gone);
      && Stale(t, want) == Stale(s, want) - put
      && Obsolete(t, want, name) == Obsolete(s, want, name) - gone
  {
    var t := Patch(s, want, put, gone);
    forall k
      ensures k in Stale(t, want) <==> k in Stale(s, want) - put
      ensures k in Obsolete(t, want, name) <==> k in Obsolete(s, want, name) - gone
    {
    }
  }

  lemma PatchThenPatch(s: Store, want: map<Key, Content>, name: string, put: set<Key>, gone: set<Key>, put': set<Key>,
                       gone': set<Key>)
    requires put <= Stale(s, want) && gone <= Obsolete(s, want, name)
    requires put' <= Stale(s, want) - put && gone' <= Obsolete(s, want, name) - gone
    ensures Patch(Patch(s, want, put, gone), want, put', gone') == Patch(s, want, put + put', gone + gone')
  {
  }

  /** A partial attempt does not change where a complete one ends. */
  lemma PatchKeepsGoal(s: Store, want: map<Key, Content>, name: string, put: set<Key>, gone: set<Key>)
    requires Claims(want, name)
    requires put <= Stale(s, want) && gone <= Obsolete(s, want, name)
    ensures Synced(Patch(s, want, put, gone), want, name) == Synced(s, want, name)
  {
    PatchReducesWork(s, want, name, put, gone);
    PatchThenPatch(s, want, name, put, gone, Stale(s, want) - put, Obsolete(s, want, name) - gone);
    assert put + (Stale(s, want) - put) == Stale(s, want);
    assert gone + (Obsolete(s, want, name) - gone) == Obsolete(s, want, name);
  }

  /** The work left: one unit per write. */
  function Work(s: Store, want: map<Key, Content>, name: string): nat {
    |Stale(s, want)| + |Obsolete(s, want, name)|
  }

  lemma PatchWork(s: Store, want: map<Key, Content>, name: string, put: set<Key>, gone: set<Key>)
    requires Claims(want, name)
    requires put <= Stale(s, want) && gone <= Obsolete(s, want, name)
    ensures
      var t := Patch(s, want, put, gone);
      && |Stale(t, want)| == |Stale(s, want)| - |put|
      && |Obsolete(t, want, name)| == |Obsolete(s, want, name)| - |gone|
  {
    PatchReducesWork(s, want, name, put, gone);
    DifferenceSize(Stale(s, want), put);
    DifferenceSize(Obsolete(s, want, name), gone);
  }

  lemma PutBySize(puts: seq<Key>, n: nat)
    requires NoDup(puts)
    ensures |PutBy(puts, n)| == Least(n, |puts|)
  {
    var m := Least(n, |puts|);
    assert PutBy(puts, n) == ToSet(puts[..m]);
    PrefixOfNoDup(puts, m);
  }

  lemma KeysBySize(puts: seq<Key>, deletes: seq<Key>, n: nat)
    requires NoDup(puts) && NoDup(deletes) && n <= |puts| + |deletes|
    ensures |PutBy(puts, n)| == Least(n, |puts|)
    ensures |GoneBy(puts, deletes, n)| == n - Least(n, |puts|)
  {
    PutBySize(puts, n);
    if n > |puts| {
      PutBySize(deletes, n - |puts|);
    }
  }

  /** Every write due takes exactly one unit off the work left, applies first: `n` writes are
      the first `n` stale keys, then obsolete keys. The goal stays where it is. */
  lemma EachWriteIsProgress(s: Store, want: map<Key, Content>, name: string, puts: seq<Key>, deletes: seq<Key>, n: nat)
    requires Claims(want, name) && Due(s, want, name, puts, deletes)
    requires n <= |puts| + |deletes|
    ensures PutBy(puts, n) <= Stale(s, want) && GoneBy(puts, deletes, n) <= Obsolete(s, want, name)
    ensures
      var t := After(s, want, puts, deletes, n);
      && t == Patch(s, want, PutBy(puts, n), GoneBy(puts, deletes, n))
      && |Stale(t, want)| == |Stale(s, want)| - Least(n, |puts|)
      && |Obsolete(t, want, name)| == |Obsolete(s, want, name)| - (n - Least(n, |puts|))
      && Work(t, want, name) + n == Work(s, want, name)
      && Synced(t, want, name) == Synced(s, want, name)
  {
    AfterIsPatch(s, want, puts, deletes, n);
    var put, gone := PutBy(puts, n), GoneBy(puts, deletes, n);
    KeysByAll(puts, deletes, n);
    KeysBySize(puts, deletes, n);
    PatchWork(s, want, name, put, gone);
    PatchKeepsGoal(s, want, name, put, gone);
  }

  lemma DifferenceSize<T>(big: set<T>, small: set<T>)
    requires small <= big
    ensures |big - small| == |big| - |small|
  {
    assert big == (big - small) + small;
  }

  lemma DueSizes(s: Store, want: map<Key, Content>, name: string, puts: seq<Key>, deletes: seq<Key>)
    requires Due(s, want, name, puts, deletes)
    ensures |puts| == |Stale(s, want)| && |deletes| == |Obsolete(s, want, name)|
  {
    NoDupIffCardinality(puts);
    NoDupIffCardinality(deletes);
  }

  /** There is as much to write as there is work, and writing all of it reaches the goal. */
  lemma AllWritesReachTheGoal(s: Store, want: map<Key, Content>, name: string, puts: seq<Key>, deletes: seq<Key>,
                              n: nat)
    requires Claims(want, name) && Due(s, want, name, puts, deletes)
    requires n == |puts| + |deletes|
    ensures n == Work(s, want, name)
    ensures After(s, want, puts, deletes, n) == Synced(s, want, name)
  {
    DueSizes(s, want, name, puts, deletes);
    KeysByAll(puts, deletes, n);
    AfterIsPatch(s, want, puts, deletes, n);
  }

  // ------------------------------------------------------ make before break

  /** Does the namespace hold a Secret of this owner? */
  ghost predicate Served(s: Store, name: string, namespace: string) {
    exists k :: k in Owned(s, name) && k.namespace == namespace
  }

  /** After any number of writes each target namespace that had one of the owner's
      Secrets still has one, and nothing is deleted before every planned Secret is in
      place. */
  lemma MakeBeforeBreak(s: Store, want: map<Key, Content>, name: string, puts: seq<Key>, deletes: seq<Key>, n: nat)
    requires Claims(want, name) && Due(s, want, name, puts, deletes)
    requires n <= |puts| + |deletes|
    ensures
      var t := After(s, want, puts, deletes, n);
      && (forall k :: k in want && Served(s, name, k.namespace) ==> Served(t, name, k.namespace))
      && ((exists k :: k in Owned(s, name) && k !in t) ==> Stale(t, want) == {})
  {
    var t := After(s, want, puts, deletes, n);
    AfterIsPatch(s, want, puts, deletes, n);
    KeysByAll(puts, deletes, n);
    PatchReducesWork(s, want, name, PutBy(puts, n), GoneBy(puts, deletes, n));
    forall k | k in want && Served(s, name, k.namespace)
      ensures Served(t, name, k.namespace)
    {
      if n <= |puts| {
        var j :| j in Owned(s, name) && j.namespace == k.namespace;
        assert j in Owned(t, name);
      } else {
        assert k in Owned(t, name);
      }
    }
  }

  // ------------------------------------------------------------ foreigners

  /** No write of an attempt turns a key foreign to the registry. */
  lemma NoKeyTurnsForeign(s: Store, want: map<Key, Content>, name: string, put: set<Key>, gone: set<Key>, key: Key)
    requires Claims(want, name) && put <= want.Keys
    requires !Foreign(s, key, name)
    ensures !Foreign(Patch(s, want, put, gone), key, name)
  {
  }

  /** Work on other keys leaves what is stale and what is obsolete elsewhere as it was. */
  lemma PatchElsewhere(s: Store, want: map<Key, Content>, put: set<Key>, gone: set<Key>, other: map<Key, Content>)
    requires put <= want.Keys && want.Keys !! other.Keys && gone !! other.Keys
    ensures Stale(Patch(s, want, put, gone), other) == Stale(s, other)
  {
    var t := Patch(s, want, put, gone);
    assert forall k :: k in other ==> (k in t <==> k in s) && (k in s ==> t[k] == s[k]);
  }

  lemma ObsoleteFollowsOwned(s: Store, t: Store, want: map<Key, Content>, name: string)
    requires Owned(s, name) == Owned(t, name)
    ensures Obsolete(s, want, name) == Obsolete(t, want, name)
  {
    forall k
      ensures k in Obsolete(s, want, name) <==> k in Owned(s, name) && k !in want
      ensures k in Obsolete(t, want, name) <==> k in Owned(t, name) && k !in want
    {
    }
  }
}
