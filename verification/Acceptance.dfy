/**
 * Which configurations src/config_parser.cpp gets past the server: the entries of every store, in their order, are a
 * list of registrations that the range of the store has to accept.
 */
module Acceptance {
  import opened AddressRange
  import opened Modbus
  import opened Dispatch
  import opened Config
  import opened Registrations

  /** The registrations made for the placements in a store; the observers are numbered in order. */
  function RegistrationsIn(ps: seq<Placement>, store: StoreType): seq<Registration<ObserverId>> {
    if ps == [] then []
    else
      var n := |ps| - 1;
      RegistrationsIn(ps[..n], store) + if ps[n].slot.store == store then [RegistrationOf(ps[n], n)] else []
  }

  function RegistrationOf(p: Placement, o: ObserverId): Registration<ObserverId> {
    Registration(Start(p), p.width, o)
  }

  /** The ranges of the server, empty at first, accept all placements. */
  ghost predicate AllAccepted(ps: seq<Placement>) {
    forall store :: Possible(RegistrationsIn(ps, store))
  }

  lemma NextRegistration(ps: seq<Placement>, p: Placement, store: StoreType)
    ensures var rs := RegistrationsIn(ps, store);
      RegistrationsIn(ps + [p], store) == if p.slot.store == store then rs + [RegistrationOf(p, |ps|)] else rs
  {
    assert (ps + [p])[..|ps|] == ps;
    assert RegistrationsIn(ps, store) + [] == RegistrationsIn(ps, store);
  }

  lemma {:induction false} RegistrationsGrow(ps: seq<Placement>, n: nat, store: StoreType)
    requires n <= |ps|
    ensures RegistrationsIn(ps[..n], store) <= RegistrationsIn(ps, store)
    decreases |ps|
  {
    if n < |ps| {
      RegistrationsGrow(ps[..|ps| - 1], n, store);
      assert ps[..|ps| - 1][..n] == ps[..n];
    } else {
      assert ps[..n] == ps;
    }
  }

  /** An accepted list is accepted as far as it goes. */
  lemma PrefixAccepted(ps: seq<Placement>, all: seq<Placement>)
    requires ps <= all && AllAccepted(all)
    ensures AllAccepted(ps)
  {
    forall store
      ensures Possible(RegistrationsIn(ps, store))
    {
      assert ps == all[..|ps|];
      RegistrationsGrow(all, |ps|, store);
      var rs, n := RegistrationsIn(all, store), |RegistrationsIn(ps, store)|;
      assert Possible(rs) && rs[..n] == RegistrationsIn(ps, store);
      AcceptedPrefix(map[], rs, n);
    }
  }

  lemma {:induction false} IsRegistration(ps: seq<Placement>, store: StoreType, r: Registration<ObserverId>)
    ensures r in RegistrationsIn(ps, store) <==>
      r.obs < |ps| && ps[r.obs].slot.store == store && r == RegistrationOf(ps[r.obs], r.obs)
    decreases |ps|
  {
    if ps != [] {
      IsRegistration(ps[..|ps| - 1], store, r);
    }
  }

  /** Main result: with possible windows, a configuration is accepted exactly if no two of them overlap. */
  lemma AcceptedIsDisjoint(ps: seq<Placement>)
    requires AllPlaceable(ps)
    ensures AllAccepted(ps) <==> Disjoint(ps)
  {
    forall store
      ensures Possible(RegistrationsIn(ps, store)) <==> NoClash(imap[], RegistrationsIn(ps, store))
    {
      PossibleIsNoClash(ps, store);
    }
    if Disjoint(ps) {
      forall store
        ensures NoClash(imap[], RegistrationsIn(ps, store))
      {
        DisjointIsNoClash(ps, store);
      }
    } else {
      var i, j :| 0 <= i < j < |ps| && Overlap(ps[i], ps[j]);
      OverlapClashes(ps, i, j);
    }
  }

  lemma PossibleIsNoClash(ps: seq<Placement>, store: StoreType)
    requires AllPlaceable(ps)
    ensures Possible(RegistrationsIn(ps, store)) <==> NoClash(imap[], RegistrationsIn(ps, store))
  {
    var rs := RegistrationsIn(ps, store);
    forall r | r in rs
      ensures r.count > 0
    {
      IsRegistration(ps, store, r);
    }
    AcceptedIsFit(map[], imap[], rs);
    AllFitIsNoClash(imap[], rs);
  }

  lemma DisjointIsNoClash(ps: seq<Placement>, store: StoreType)
    requires AllPlaceable(ps) && Disjoint(ps)
    ensures NoClash(imap[], RegistrationsIn(ps, store))
  {
    var rs := RegistrationsIn(ps, store);
    forall r, q, a: int | r in rs && q in rs && Claims(r, a) && Claims(q, a)
      ensures r.obs == q.obs
    {
      OneClaim(ps, store, r, q, a);
    }
    assert forall r | r in rs :: Registrations.Fits(imap[], r);
  }

  lemma OneClaim(ps: seq<Placement>, store: StoreType, r: Registration<ObserverId>, q: Registration<ObserverId>, a: int)
    requires AllPlaceable(ps) && Disjoint(ps) && r in RegistrationsIn(ps, store) && q in RegistrationsIn(ps, store)
    requires Claims(r, a) && Claims(q, a)
    ensures r.obs == q.obs
  {
    IsRegistration(ps, store, r);
    IsRegistration(ps, store, q);
    var p, s := ps[r.obs], ps[q.obs];
    assert Occupies(p, store, a) && Occupies(s, store, a);
    OverlapIsSharedAddress(p, s);
    assert r.obs < q.obs ==> !Overlap(p, s);
    assert q.obs < r.obs ==> !Overlap(s, p);
  }

  lemma OverlapClashes(ps: seq<Placement>, i: nat, j: nat)
    requires AllPlaceable(ps) && i < j < |ps| && Overlap(ps[i], ps[j])
    ensures !NoClash(imap[], RegistrationsIn(ps, ps[j].slot.store))
  {
    var store := ps[j].slot.store;
    OverlapIsSharedAddress(ps[i], ps[j]);
    var a :| Occupies(ps[i], store, a) && Occupies(ps[j], store, a);
    var r, q := RegistrationOf(ps[i], i), RegistrationOf(ps[j], j);
    IsRegistration(ps, store, r);
    IsRegistration(ps, store, q);
    assert Claims(r, a) && Claims(q, a);
  }
}
