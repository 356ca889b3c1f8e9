/** Any number of Inclusive registries with disjoint targets on one cluster, their attempts
    interleaved in any order and cut off anywhere. */
module Fleet {
  import opened Collections
  import opened Model
  import opened CredentialSource
  import opened Replication
  import opened Secrets
  import opened Attempts
  import opened Retries
  import opened Registries

  datatype Member = Member(inputs: Inputs, credentials: Credentials) {
    function Name(): string {
      inputs.registry.name
    }

    ghost predicate Ready(s: Store) {
      Retries.Ready(inputs, credentials, s)
    }

    ghost function Work(s: Store): nat
      requires Renders(inputs, credentials)
    {
      Replication.Work(s, Want(inputs, credentials), Name())
    }

    /** Nothing is left to do for this registry. */
    ghost predicate InSync(s: Store)
      requires Renders(inputs, credentials)
    {
      && Stale(s, Want(inputs, credentials)) == {}
      && Obsolete(s, Want(inputs, credentials), Name()) == {}
    }
  }

  ghost predicate Apart(p: Member, q: Member, s: Store) {
    Neighbours(p.inputs, p.credentials, q.inputs, q.credentials, s)
    && Want(p.inputs, p.credentials).Keys !! Want(q.inputs, q.credentials).Keys
  }

  /** Every registry is ready, and every two of them are neighbours with disjoint targets. */
  ghost predicate Peaceful(fleet: seq<Member>, s: Store) {
    && (forall i :: 0 <= i < |fleet| ==> fleet[i].Ready(s) && fleet[i].inputs.Selection().policy == INCLUSIVE)
    && forall i, j :: 0 <= i < |fleet| && 0 <= j < |fleet| && i != j ==> Apart(fleet[i], fleet[j], s)
  }

  /** A condition to check on the resources themselves: Inclusive registries of different names
      that validate, list different namespaces, and take their credentials from Secrets none of
      them owns, are at peace. */
  lemma DifferentNamespacesMakePeace(fleet: seq<Member>, s: Store)
    requires forall i, j :: 0 <= i < j < |fleet| ==>
               fleet[i].Name() != fleet[j].Name() && fleet[i].inputs.namespaces == fleet[j].inputs.namespaces
    requires forall i, j :: 0 <= i < j < |fleet| ==>
               ToSet(fleet[i].inputs.Selection().namespaces) !! ToSet(fleet[j].inputs.Selection().namespaces)
    requires forall i, j :: 0 <= i < |fleet| && 0 <= j < |fleet| ==> SourceFreeOf(fleet[i], fleet[j], s)
    requires forall i :: 0 <= i < |fleet| ==> Validates(fleet[i], s)
    ensures Peaceful(fleet, s)
  {
    forall i | 0 <= i < |fleet|
      ensures fleet[i].Ready(s)
    {
      assert SourceFreeOf(fleet[i], fleet[i], s) && Validates(fleet[i], s);
      InclusiveSourceIsSafe(fleet[i].inputs, fleet[i].credentials, s);
    }
    forall i, j | 0 <= i < |fleet| && 0 <= j < |fleet| && i != j
      ensures Apart(fleet[i], fleet[j], s)
    {
      assert SourceFreeOf(fleet[i], fleet[j], s) && SourceFreeOf(fleet[j], fleet[i], s);
      WantStaysInSelection(fleet[i], s);
      WantStaysInSelection(fleet[j], s);
      var a, b := if i < j then i else j, if i < j then j else i;
      assert ToSet(fleet[a].inputs.Selection().namespaces) !! ToSet(fleet[b].inputs.Selection().namespaces);
    }
  }

  ghost predicate Validates(p: Member, s: Store) {
    && p.inputs.Selection().policy == INCLUSIVE
    && CredentialsIn(p.inputs.registry.spec, s) == Ok(p.credentials)
    && Plannable(p.inputs, p.credentials, s)
  }

  ghost predicate SourceFreeOf(p: Member, q: Member, s: Store) {
    p.inputs.registry.spec.credentialsRef.Some? ==> p.inputs.registry.spec.credentialsRef.value !in Owned(s, q.Name())
  }

  lemma WantStaysInSelection(p: Member, s: Store)
    requires Validates(p, s)
    ensures forall k :: k in Want(p.inputs, p.credentials) ==> k.namespace in ToSet(p.inputs.Selection().namespaces)
  {
  }

  /** One registry's turn. */
  datatype Turn = Turn(who: nat, attempt: Attempt)

  ghost predicate Takes(fleet: seq<Member>, turn: Turn, s: Store, t: Store) {
    turn.who < |fleet| && Reconciles(fleet[turn.who].inputs, s, turn.attempt, t)
  }

  /** An attempt of `p` in the terms of the store. */
  lemma TurnIsPatch(p: Member, s: Store, a: Attempt, t: Store) returns (put: set<Key>, gone: set<Key>)
    requires p.Ready(s) && Reconciles(p.inputs, s, a, t)
    ensures put <= Stale(s, Want(p.inputs, p.credentials))
            && gone <= Obsolete(s, Want(p.inputs, p.credentials), p.Name())
    ensures t == Patch(s, Want(p.inputs, p.credentials), put, gone)
  {
    if a.Ran? {
      RunProgress(Want(p.inputs, p.credentials), p.Name(), s, a, t);
      put, gone := PutBy(a.puts, a.done), GoneBy(a.puts, a.deletes, a.done);
    } else {
      put, gone := {}, {};
      PatchNothing(s, Want(p.inputs, p.credentials));
    }
  }

  /** A turn of `p` changes nothing that matters to a registry apart from it. */
  lemma OthersKeepTheirWork(p: Member, q: Member, s: Store, a: Attempt, t: Store)
    requires Apart(p, q, s) && Reconciles(p.inputs, s, a, t)
    ensures q.Ready(t) && q.Work(t) == q.Work(s) && (q.InSync(t) <==> q.InSync(s))
    ensures Owned(t, q.Name()) == Owned(s, q.Name())
  {
    var put, gone := TurnIsPatch(p, s, a, t);
    NeighbourIsUnaffected(p.inputs, p.credentials, q.inputs, q.credentials, s, put, gone);
  }

  /** A turn of `p` itself: its work drops by its writes, and a success leaves none. */
  lemma OwnTurn(p: Member, s: Store, a: Attempt, t: Store)
    requires p.Ready(s) && Reconciles(p.inputs, s, a, t)
    ensures p.Ready(t) && p.Work(t) + a.Done() == p.Work(s)
    ensures a.Succeeded() || p.InSync(s) ==> p.InSync(t)
  {
    OneAttempt(p.inputs, p.credentials, s, a, t);
    var put, gone := TurnIsPatch(p, s, a, t);
    PatchReducesWork(s, Want(p.inputs, p.credentials), p.Name(), put, gone);
  }

  /** What a registry owns grows only by its own turns, and only to planned keys. */
  lemma OwnedAfterTurn(p: Member, s: Store, a: Attempt, t: Store)
    requires p.Ready(s) && Reconciles(p.inputs, s, a, t)
    ensures Owned(t, p.Name()) <= Owned(s, p.Name()) + Want(p.inputs, p.credentials).Keys
  {
    var put, gone := TurnIsPatch(p, s, a, t);
  }

  /** The source of another registry's credentials is not planned by an Inclusive one. */
  lemma SourcesStayUnowned(p: Member, q: Member, s: Store, a: Attempt, t: Store)
    requires Apart(p, q, s) && Reconciles(p.inputs, s, a, t)
    ensures q.inputs.registry.spec.credentialsRef.Some? ==>
              q.inputs.registry.spec.credentialsRef.value !in Owned(t, p.Name())
  {
    OwnedAfterTurn(p, s, a, t);
    InclusiveTargetsAreSeen(p.inputs, p.credentials, s);
  }

  lemma ApartAfterTurn(p: Member, q: Member, s: Store, a: Attempt, t: Store)
    requires Apart(p, q, s) && Reconciles(p.inputs, s, a, t)
    ensures Apart(p, q, t) && (Apart(q, p, s) ==> Apart(q, p, t))
  {
    OthersKeepTheirWork(p, q, s, a, t);
    OwnTurn(p, s, a, t);
    SourcesStayUnowned(p, q, s, a, t);
  }

  lemma ApartFromThird(p: Member, q: Member, r: Member, s: Store, a: Attempt, t: Store)
    requires Apart(p, q, s) && Apart(p, r, s) && Apart(q, r, s) && Reconciles(p.inputs, s, a, t)
    ensures Apart(q, r, t)
  {
    OthersKeepTheirWork(p, q, s, a, t);
    OthersKeepTheirWork(p, r, s, a, t);
  }

  lemma PeaceIsKept(fleet: seq<Member>, turn: Turn, s: Store, t: Store)
    requires Peaceful(fleet, s) && Takes(fleet, turn, s, t)
    ensures Peaceful(fleet, t)
  {
    var w, a := turn.who, turn.attempt;
    OwnTurn(fleet[w], s, a, t);
    forall i | 0 <= i < |fleet| && i != w
      ensures fleet[i].Ready(t)
    {
      OthersKeepTheirWork(fleet[w], fleet[i], s, a, t);
    }
    forall i, j | 0 <= i < |fleet| && 0 <= j < |fleet| && i != j
      ensures Apart(fleet[i], fleet[j], t)
    {
      if i == w {
        ApartAfterTurn(fleet[w], fleet[j], s, a, t);
      } else if j == w {
        assert Apart(fleet[w], fleet[i], s);
        ApartAfterTurn(fleet[w], fleet[i], s, a, t);
      } else {
        ApartFromThird(fleet[w], fleet[i], fleet[j], s, a, t);
      }
    }
  }

  /** A run of the fleet: turns in any order, each of them cut off anywhere. */
  ghost predicate IsFleetRun(fleet: seq<Member>, states: seq<Store>, turns: seq<Turn>) {
    && |states| == |turns| + 1
    && forall n :: 0 <= n < |turns| ==> Takes(fleet, turns[n], states[n], states[n + 1])
  }

  /** The writes made in the first `n` turns by one registry. */
  function WritesBy(turns: seq<Turn>, who: nat, n: nat): nat
    requires n <= |turns|
  {
    if n == 0 then 0
    else WritesBy(turns, who, n - 1) + if turns[n - 1].who == who then turns[n - 1].attempt.Done() else 0
  }

  lemma {:induction false} PeaceLasts(fleet: seq<Member>, states: seq<Store>, turns: seq<Turn>, n: nat)
    requires IsFleetRun(fleet, states, turns) && Peaceful(fleet, states[0]) && n <= |turns|
    ensures Peaceful(fleet, states[n])
  {
    if n > 0 {
      PeaceLasts(fleet, states, turns, n - 1);
      assert Takes(fleet, turns[n - 1], states[n - 1], states[n]);
      PeaceIsKept(fleet, turns[n - 1], states[n - 1], states[n]);
    }
  }

  lemma TurnForMember(fleet: seq<Member>, turn: Turn, s: Store, t: Store, i: nat)
    requires Peaceful(fleet, s) && Takes(fleet, turn, s, t) && i < |fleet|
    ensures fleet[i].Ready(s) && fleet[i].Ready(t)
    ensures fleet[i].Work(t) + (if turn.who == i then turn.attempt.Done() else 0) == fleet[i].Work(s)
    ensures fleet[i].InSync(s) || (turn.who == i && turn.attempt.Succeeded()) ==> fleet[i].InSync(t)
  {
    if turn.who == i {
      OwnTurn(fleet[i], s, turn.attempt, t);
    } else {
      OthersKeepTheirWork(fleet[turn.who], fleet[i], s, turn.attempt, t);
    }
  }

  lemma StepOfRun(fleet: seq<Member>, states: seq<Store>, turns: seq<Turn>, n: nat, i: nat)
    requires IsFleetRun(fleet, states, turns) && Peaceful(fleet, states[0]) && n < |turns| && i < |fleet|
    ensures fleet[i].Ready(states[n]) && fleet[i].Ready(states[n + 1])
    ensures fleet[i].Work(states[n + 1]) + (if turns[n].who == i then turns[n].attempt.Done() else 0)
            == fleet[i].Work(states[n])
    ensures fleet[i].InSync(states[n]) || (turns[n].who == i && turns[n].attempt.Succeeded()) ==>
              fleet[i].InSync(states[n + 1])
  {
    PeaceLasts(fleet, states, turns, n);
    assert Takes(fleet, turns[n], states[n], states[n + 1]);
    TurnForMember(fleet, turns[n], states[n], states[n + 1], i);
  }

  lemma {:induction false} DropsAddUp(work: seq<nat>, turns: seq<Turn>, who: nat, n: nat)
    requires |work| == |turns| + 1 && n <= |turns|
    requires forall k :: 0 <= k < |turns| ==>
               work[k + 1] + (if turns[k].who == who then turns[k].attempt.Done() else 0) == work[k]
    ensures work[n] + WritesBy(turns, who, n) == work[0]
  {
    if n > 0 {
      DropsAddUp(work, turns, who, n - 1);
      assert work[(n - 1) + 1] + (if turns[n - 1].who == who then turns[n - 1].attempt.Done() else 0) == work[n - 1];
    }
  }

  lemma MembersRender(fleet: seq<Member>, s: Store, i: nat)
    requires Peaceful(fleet, s) && i < |fleet|
    ensures Renders(fleet[i].inputs, fleet[i].credentials)
  {
    assert fleet[i].Ready(s);
  }

  lemma StepOfWork(fleet: seq<Member>, states: seq<Store>, turns: seq<Turn>, n: nat, i: nat)
    requires IsFleetRun(fleet, states, turns) && Peaceful(fleet, states[0]) && n < |turns| && i < |fleet|
    requires Renders(fleet[i].inputs, fleet[i].credentials)
    ensures fleet[i].Work(states[n + 1]) + (if turns[n].who == i then turns[n].attempt.Done() else 0)
            == fleet[i].Work(states[n])
  {
    StepOfRun(fleet, states, turns, n, i);
  }

  /** Over any interleaving with any failures, each registry's own writes are exactly the
      progress on its own work: nobody undoes or does anybody else's. */
  lemma WorkIsConserved(fleet: seq<Member>, states: seq<Store>, turns: seq<Turn>, n: nat, i: nat)
    requires IsFleetRun(fleet, states, turns) && Peaceful(fleet, states[0]) && n <= |turns| && i < |fleet|
    ensures Renders(fleet[i].inputs, fleet[i].credentials)
    ensures fleet[i].Work(states[n]) + WritesBy(turns, i, n) == fleet[i].Work(states[0])
  {
    MembersRender(fleet, states[0], i);
    var work := seq(|states|, k requires 0 <= k < |states| => fleet[i].Work(states[k]));
    forall k | 0 <= k < |turns|
      ensures work[k + 1] + (if turns[k].who == i then turns[k].attempt.Done() else 0) == work[k]
    {
      StepOfWork(fleet, states, turns, k, i);
    }
    DropsAddUp(work, turns, i, n);
  }

  /** Once a registry has succeeded it stays in sync through everything the others do. */
  lemma {:induction false} SuccessLasts(fleet: seq<Member>, states: seq<Store>, turns: seq<Turn>, m: nat, n: nat,
                                        i: nat)
    requires IsFleetRun(fleet, states, turns) && Peaceful(fleet, states[0]) && m < n <= |turns| && i < |fleet|
    requires turns[m].who == i && turns[m].attempt.Succeeded()
    ensures fleet[i].Ready(states[n]) && fleet[i].InSync(states[n])
  {
    StepOfRun(fleet, states, turns, n - 1, i);
    if m < n - 1 {
      SuccessLasts(fleet, states, turns, m, n - 1, i);
    }
  }

  predicate HasSucceeded(turns: seq<Turn>, who: nat) {
    exists m :: 0 <= m < |turns| && turns[m].who == who && turns[m].attempt.Succeeded()
  }

  /** The fleet converges: when every registry has succeeded at least once, in whatever order
      and among however many failed attempts, the cluster holds for each of them exactly the
      planned Secrets with the planned contents. */
  lemma FleetConverges(fleet: seq<Member>, states: seq<Store>, turns: seq<Turn>)
    requires IsFleetRun(fleet, states, turns) && Peaceful(fleet, states[0])
    requires forall i :: 0 <= i < |fleet| ==> HasSucceeded(turns, i)
    ensures
      var t := states[|turns|];
      forall i :: 0 <= i < |fleet| ==>
        && fleet[i].Ready(t)
        && var want := Want(fleet[i].inputs, fleet[i].credentials);
           Owned(t, fleet[i].Name()) == want.Keys && forall k :: k in want ==> t[k].content == want[k]
  {
    var t := states[|turns|];
    forall i | 0 <= i < |fleet|
      ensures fleet[i].Ready(t)
      ensures
        var want := Want(fleet[i].inputs, fleet[i].credentials);
        Owned(t, fleet[i].Name()) == want.Keys && forall k :: k in want ==> k in t && t[k].content == want[k]
    {
      assert HasSucceeded(turns, i);
      var m :| 0 <= m < |turns| && turns[m].who == i && turns[m].attempt.Succeeded();
      SuccessLasts(fleet, states, turns, m, |turns|, i);
      InSyncMeans(t, Want(fleet[i].inputs, fleet[i].credentials), fleet[i].Name());
    }
  }

  lemma InSyncMeans(t: Store, want: map<Key, Content>, name: string)
    requires Claims(want, name) && Stale(t, want) == {} && Obsolete(t, want, name) == {}
    ensures Owned(t, name) == want.Keys
    ensures forall k :: k in want ==> k in t && t[k].content == want[k]
  {
    forall k | k in want
      ensures k in t && t[k].content == want[k]
    {
      assert k !in Stale(t, want);
    }
    forall k
      ensures k in Owned(t, name) <==> k in want
    {
      assert k !in Obsolete(t, want, name);
    }
  }
}
