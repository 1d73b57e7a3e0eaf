/**
 * Whole sequences of insertions into one range, as the configuration performs them: which lists of registrations are
 * accepted, and what the order of a list has to do with it. Without registrations of zero addresses it has nothing to.
 */
module Registrations {
  import opened AddressRange

  datatype Registration<+T> = Registration(start: int, count: nat, obs: T)

  ghost predicate Fits<T>(labels: imap<int, T>, r: Registration<T>) {
    Agrees(labels, r.start, r.start + r.count, r.obs)
  }

  ghost function Written<T>(labels: imap<int, T>, r: Registration<T>): imap<int, T> {
    labels + Span(r.start, r.start + r.count, r.obs)
  }

  /** Every registration of the list fits when it comes to it. */
  ghost predicate AllFit<T>(labels: imap<int, T>, rs: seq<Registration<T>>) {
    rs == [] || (Fits(labels, rs[0]) && AllFit(Written(labels, rs[0]), rs[1..]))
  }

  ghost function AllWritten<T>(labels: imap<int, T>, rs: seq<Registration<T>>): imap<int, T> {
    if rs == [] then labels else AllWritten(Written(labels, rs[0]), rs[1..])
  }

  predicate Claims<T>(r: Registration<T>, a: int) {
    Within(r.start, r.start + r.count, a)
  }

  /** No address is claimed for two observers, neither by two registrations nor by one and the map. */
  ghost predicate NoClash<T(!new)>(labels: imap<int, T>, rs: seq<Registration<T>>) {
    && (forall r | r in rs :: Fits(labels, r))
    && (forall r, q, a | r in rs && q in rs && Claims(r, a) && Claims(q, a) :: r.obs == q.obs)
  }

  lemma {:induction false} AllFitIsNoClash<T(!new)>(labels: imap<int, T>, rs: seq<Registration<T>>)
    ensures AllFit(labels, rs) <==> NoClash(labels, rs)
    decreases |rs|
  {
    if rs != [] {
      AllFitIsNoClash(Written(labels, rs[0]), rs[1..]);
      NoClashSplits(labels, rs);
    }
  }

  lemma NoClashSplits<T(!new)>(labels: imap<int, T>, rs: seq<Registration<T>>)
    requires rs != []
    ensures NoClash(labels, rs) <==> Fits(labels, rs[0]) && NoClash(Written(labels, rs[0]), rs[1..])
  {
    var first, rest := rs[0], rs[1..];
    assert forall r | r in rs :: r == first || r in rest;
    if NoClash(labels, rs) {
      forall r | r in rest
        ensures Fits(Written(labels, first), r)
      {
        assert r in rs && first in rs && Fits(labels, r);
        forall a | Within(r.start, r.start + r.count, a) && a in Written(labels, first)
          ensures Written(labels, first)[a] == r.obs
        {
          if Claims(first, a) { assert Claims(r, a); }
        }
      }
    }
    if Fits(labels, first) && NoClash(Written(labels, first), rest) {
      forall r | r in rest
        ensures Fits(labels, r)
      {
        assert Fits(Written(labels, first), r);
      }
      forall r, a | r in rest && Claims(r, a) && Claims(first, a)
        ensures r.obs == first.obs
      {
        assert Fits(Written(labels, first), r) && a in Written(labels, first);
      }
    }
  }

  /** The map after an accepted list, address by address: the claim of any registration, or what was there. */
  lemma {:induction false} AllWrittenAt<T(!new)>(labels: imap<int, T>, rs: seq<Registration<T>>, a: int)
    requires NoClash(labels, rs)
    ensures a in AllWritten(labels, rs) <==> a in labels || exists r :: r in rs && Claims(r, a)
    ensures forall r | r in rs && Claims(r, a) :: AllWritten(labels, rs)[a] == r.obs
    ensures a in labels ==> AllWritten(labels, rs)[a] == labels[a]
    decreases |rs|
  {
    if rs != [] {
      var first, rest := rs[0], rs[1..];
      assert forall r | r in rs :: r == first || r in rest;
      NoClashSplits(labels, rs);
      AllWrittenAt(Written(labels, first), rest, a);
      assert first in rs && Fits(labels, first);
      assert forall r | r in rest :: r in rs;
    }
  }

  /** A list of registrations fits in one order iff it fits in every order, and every order gives the same map. */
  lemma OrderIrrelevant<T(!new)>(labels: imap<int, T>, rs: seq<Registration<T>>, rs': seq<Registration<T>>)
    requires multiset(rs) == multiset(rs')
    ensures AllFit(labels, rs) <==> AllFit(labels, rs')
    ensures AllFit(labels, rs) ==> AllWritten(labels, rs) == AllWritten(labels, rs')
  {
    forall r
      ensures r in rs <==> r in rs'
    {
      assert r in multiset(rs) <==> r in multiset(rs');
    }
    AllFitIsNoClash(labels, rs);
    AllFitIsNoClash(labels, rs');
    if AllFit(labels, rs) {
      var w, w' := AllWritten(labels, rs), AllWritten(labels, rs');
      forall a
        ensures a in w <==> a in w'
        ensures a in w ==> w[a] == w'[a]
      {
        AllWrittenAt(labels, rs, a);
        AllWrittenAt(labels, rs', a);
      }
    }
  }

  // ---------- registrations of zero addresses ----------

  ghost predicate Takes<T>(m: Segments<T>, r: Registration<T>) {
    Accepts(m, r.start, r.count, r.obs)
  }

  ghost predicate Leads<T>(m: Segments<T>, r: Registration<T>, m': Segments<T>) {
    IsOutcome(m, m', r.start, r.count, r.obs)
  }

  /** Inserting the list one by one into the segments m never throws. */
  ghost predicate Accepted<T(!new)>(m: Segments<T>, rs: seq<Registration<T>>)
    decreases |rs|
  {
    rs == [] || (Takes(m, rs[0]) && exists m' :: Leads(m, rs[0], m') && Accepted(m', rs[1..]))
  }

  lemma AcceptedNext<T(!new)>(m: Segments<T>, rs: seq<Registration<T>>, m': Segments<T>)
    requires rs != [] && WellFormed(m) && Takes(m, rs[0]) && Leads(m, rs[0], m')
    ensures Accepted(m, rs) <==> Accepted(m', rs[1..])
  {
    if Accepted(m, rs) {
      var other :| Leads(m, rs[0], other) && Accepted(other, rs[1..]);
      OutcomeUnique(m, m', other, rs[0].start, rs[0].count, rs[0].obs);
    }
  }

  /** Inserting the list one by one makes m of m0. */
  ghost predicate LeadsTo<T(!new)>(m0: Segments<T>, rs: seq<Registration<T>>, m: Segments<T>)
    decreases |rs|
  {
    if rs == [] then m == m0
    else Takes(m0, rs[0]) && exists m1 :: Leads(m0, rs[0], m1) && LeadsTo(m1, rs[1..], m)
  }

  lemma {:induction false} LeadsToAccepted<T(!new)>(m0: Segments<T>, rs: seq<Registration<T>>, m: Segments<T>)
    requires LeadsTo(m0, rs, m)
    ensures Accepted(m0, rs)
    decreases |rs|
  {
    if rs != [] {
      var m1 :| Leads(m0, rs[0], m1) && LeadsTo(m1, rs[1..], m);
      LeadsToAccepted(m1, rs[1..], m);
    }
  }

  lemma StepWellFormed<T>(m: Segments<T>, r: Registration<T>, m': Segments<T>)
    requires WellFormed(m) && Takes(m, r) && Leads(m, r, m')
    ensures WellFormed(m')
  {
    var labels := Meaning(m);
    OutcomeLabels(m, labels, m', r.start, r.count, r.obs);
  }

  lemma AloneAccepted<T(!new)>(m: Segments<T>, r: Registration<T>)
    requires WellFormed(m)
    ensures Accepted(m, [r]) <==> Takes(m, r)
  {
    var m' := OutcomeExists(m, r.start, r.count, r.obs);
    assert Leads(m, r, m') && Accepted(m', [r][1..]);
  }

  /** One more registration is accepted exactly if the segments there are take it. */
  lemma {:induction false} Appended<T(!new)>(m0: Segments<T>, rs: seq<Registration<T>>, m: Segments<T>,
                                             r: Registration<T>)
    requires WellFormed(m0) && LeadsTo(m0, rs, m)
    ensures WellFormed(m) && (Accepted(m0, rs + [r]) <==> Takes(m, r))
    decreases |rs|
  {
    if rs == [] {
      AloneAccepted(m, r);
      assert rs + [r] == [r];
    } else {
      var m1 :| Leads(m0, rs[0], m1) && LeadsTo(m1, rs[1..], m);
      StepWellFormed(m0, rs[0], m1);
      Appended(m1, rs[1..], m, r);
      var rs' := rs + [r];
      assert rs'[0] == rs[0] && rs'[1..] == rs[1..] + [r];
      AcceptedNext(m0, rs', m1);
    }
  }

  lemma {:induction false} LeadsFurther<T(!new)>(m0: Segments<T>, rs: seq<Registration<T>>, m: Segments<T>,
                                                 r: Registration<T>, m': Segments<T>)
    requires LeadsTo(m0, rs, m) && Takes(m, r) && Leads(m, r, m')
    ensures LeadsTo(m0, rs + [r], m')
    decreases |rs|
  {
    var rs' := rs + [r];
    if rs == [] {
      assert rs'[0] == r && LeadsTo(m', rs'[1..], m');
    } else {
      var m1 :| Leads(m0, rs[0], m1) && LeadsTo(m1, rs[1..], m);
      LeadsFurther(m1, rs[1..], m, r, m');
      assert rs'[0] == rs[0] && rs'[1..] == rs[1..] + [r];
    }
  }

  lemma {:induction false} AcceptedPrefix<T(!new)>(m: Segments<T>, rs: seq<Registration<T>>, n: nat)
    requires Accepted(m, rs) && n <= |rs|
    ensures Accepted(m, rs[..n])
    decreases |rs|
  {
    if n > 0 {
      var m' :| Leads(m, rs[0], m') && Accepted(m', rs[1..]);
      AcceptedPrefix(m', rs[1..], n - 1);
      var rs' := rs[..n];
      assert rs'[0] == rs[0] && rs'[1..] == rs[1..][..n - 1];
    }
  }

  lemma StepLabels<T>(m: Segments<T>, labels: imap<int, T>, r: Registration<T>) returns (m': Segments<T>)
    requires Represents(m, labels) && Takes(m, r)
    ensures Leads(m, r, m') && Represents(m', Written(labels, r)) && Fits(labels, r)
  {
    m' := OutcomeExists(m, r.start, r.count, r.obs);
    LabelsAfter(m, labels, r, m');
  }

  lemma LabelsAfter<T>(m: Segments<T>, labels: imap<int, T>, r: Registration<T>, m': Segments<T>)
    requires Represents(m, labels) && Takes(m, r) && Leads(m, r, m')
    ensures Represents(m', Written(labels, r)) && Fits(labels, r)
  {
    assert Written(labels, r) == labels + Span(r.start, r.start + r.count, r.obs);
    OutcomeLabels(m, labels, m', r.start, r.count, r.obs);
    AcceptsAgrees(m, labels, r.start, r.count, r.obs);
  }

  /** Whatever is accepted fits, empty or not. */
  lemma {:induction false} AcceptedFits<T(!new)>(m: Segments<T>, labels: imap<int, T>, rs: seq<Registration<T>>)
    requires Represents(m, labels) && Accepted(m, rs)
    ensures AllFit(labels, rs)
    decreases |rs|
  {
    if rs != [] {
      var m' := StepLabels(m, labels, rs[0]);
      AcceptedNext(m, rs, m');
      AcceptedFits(m', Written(labels, rs[0]), rs[1..]);
    }
  }

  /** Without empty segments and empty registrations a list is accepted exactly if it fits. */
  lemma {:induction false} AcceptedIsFit<T(!new)>(m: Segments<T>, labels: imap<int, T>, rs: seq<Registration<T>>)
    requires Represents(m, labels) && Solid(m) && forall r | r in rs :: r.count > 0
    ensures Accepted(m, rs) <==> AllFit(labels, rs)
    decreases |rs|
  {
    if rs != [] {
      var r := rs[0];
      AcceptsIsAgreement(m, labels, r.start, r.count, r.obs);
      if Takes(m, r) {
        var m' := StepLabels(m, labels, r);
        OutcomeKeys(m, m', r.start, r.count, r.obs);
        AcceptedNext(m, rs, m');
        AcceptedIsFit(m', Written(labels, r), rs[1..]);
      }
    }
  }

  /**
   * Main result: on a range without empty segments, nonempty registrations are accepted in one order iff they are
   * accepted in every order, and every order gives the same labels.
   */
  lemma NonemptyInAnyOrder<T(!new)>(m: Segments<T>, labels: imap<int, T>, rs: seq<Registration<T>>,
                                    rs': seq<Registration<T>>)
    requires Represents(m, labels) && Solid(m) && (forall r | r in rs :: r.count > 0) && Reorders(rs, rs')
    ensures Accepted(m, rs) <==> Accepted(m, rs')
    ensures Accepted(m, rs) ==> AllWritten(labels, rs) == AllWritten(labels, rs')
  {
    SameElements(rs, rs');
    AcceptedIsFit(m, labels, rs);
    AcceptedIsFit(m, labels, rs');
    OrderIrrelevant(labels, rs, rs');
  }

  /** e is empty and q, of another observer, claims the address it stands at. */
  ghost predicate Exposed<T>(all: seq<Registration<T>>, e: Registration<T>, q: Registration<T>) {
    e in all && q in all && e.count == 0 && Claims(q, e.start) && e.obs != q.obs
  }

  ghost predicate NoneExposed<T(!new)>(all: seq<Registration<T>>) {
    forall e, q :: !Exposed(all, e, q)
  }

  /** The labels and the empty segments are due to registrations of the list. */
  ghost predicate Explained<T(!new)>(m: Segments<T>, labels: imap<int, T>, all: seq<Registration<T>>) {
    && Represents(m, labels)
    && (forall a | a in labels :: exists q :: q in all && Claims(q, a) && q.obs == labels[a])
    && (forall k | k in m && m[k].hi == k ::
          exists e :: e in all && e.start == k && e.count == 0 && e.obs == m[k].param)
  }

  lemma NoneExposedTakes<T(!new)>(m: Segments<T>, labels: imap<int, T>, all: seq<Registration<T>>, r: Registration<T>)
    requires Explained(m, labels, all) && r in all && NoClash(imap[], all) && NoneExposed(all)
    ensures Takes(m, r)
  {
    forall k | k in m
      ensures !Conflicts(m, k, r.start, r.count, r.obs)
    {
      if m[k].hi == k {
        var e :| e in all && e.start == k && e.count == 0 && e.obs == m[k].param;
        assert !Exposed(all, e, r);
      } else {
        var a := if k < r.start then r.start else k;
        if Covers(m, k, a) {
          var q :| q in all && Claims(q, a) && q.obs == labels[a];
          assert !Exposed(all, r, q);
        }
      }
    }
  }

  lemma ExplainedStep<T(!new)>(m: Segments<T>, labels: imap<int, T>, all: seq<Registration<T>>, r: Registration<T>,
                               m': Segments<T>)
    requires Explained(m, labels, all) && r in all && Takes(m, r) && Leads(m, r, m')
    ensures Explained(m', Written(labels, r), all)
  {
    LabelsAfter(m, labels, r, m');
    forall k | k in m' && m'[k].hi == k
      ensures exists e :: e in all && e.start == k && e.count == 0 && e.obs == m'[k].param
    {
      EmptyExplained(m, labels, all, r, m', k);
    }
    forall a | a in Written(labels, r)
      ensures exists q :: q in all && Claims(q, a) && q.obs == Written(labels, r)[a]
    {
      if Claims(r, a) {
        assert r in all && r.obs == Written(labels, r)[a];
      }
    }
  }

  lemma EmptyExplained<T(!new)>(m: Segments<T>, labels: imap<int, T>, all: seq<Registration<T>>, r: Registration<T>,
                                m': Segments<T>, k: int)
    requires Explained(m, labels, all) && r in all && Takes(m, r) && Leads(m, r, m') && k in m' && m'[k].hi == k
    ensures exists e :: e in all && e.start == k && e.count == 0 && e.obs == m'[k].param
  {
    OutcomeKeys(m, m', r.start, r.count, r.obs);
    if !(k in m && m'[k] == m[k]) {
      assert r in all && r.start == k && r.count == 0 && r.obs == m'[k].param;
    }
  }

  lemma {:induction false} NoneExposedAccepted<T(!new)>(m: Segments<T>, labels: imap<int, T>, all: seq<Registration<T>>,
                                                        rs: seq<Registration<T>>)
    requires Explained(m, labels, all) && (forall r | r in rs :: r in all) && NoClash(imap[], all) && NoneExposed(all)
    ensures Accepted(m, rs)
    decreases |rs|
  {
    if rs != [] {
      NoneExposedTakes(m, labels, all, rs[0]);
      var m' := StepLabels(m, labels, rs[0]);
      ExplainedStep(m, labels, all, rs[0], m');
      NoneExposedAccepted(m', Written(labels, rs[0]), all, rs[1..]);
    }
  }

  /** An exposed registration that comes first is in the way. */
  lemma ExposedFirst<T(!new)>(e: Registration<T>, q: Registration<T>, rest: seq<Registration<T>>)
    requires e.count == 0 && Claims(q, e.start) && e.obs != q.obs
    ensures !Accepted(map[], [e, q] + rest)
  {
    var rs := [e, q] + rest;
    var m' := StepLabels(map[], imap[], e);
    OutcomeKeys(map[], m', e.start, e.count, e.obs);
    AcceptedNext(map[], rs, m');
    assert rs[1..][0] == q && Conflicts(m', e.start, q.start, q.count, q.obs);
  }

  lemma ToFront<T>(rs: seq<T>, e: T) returns (rest: seq<T>)
    requires e in rs
    ensures multiset([e] + rest) == multiset(rs)
  {
    var i :| 0 <= i < |rs| && rs[i] == e;
    rest := rs[..i] + rs[i + 1..];
    assert rs == rs[..i] + [e] + rs[i + 1..];
  }

  lemma BothToFront<T>(rs: seq<T>, e: T, q: T) returns (rest: seq<T>)
    requires e in rs && q in rs && e != q
    ensures multiset([e, q] + rest) == multiset(rs)
  {
    var others := ToFront(rs, e);
    assert q in multiset([e] + others);
    rest := ToFront(others, q);
    assert [e, q] + rest == [e] + ([q] + rest);
  }

  /** rs' is the list rs in another order. */
  ghost predicate Reorders<T>(rs: seq<T>, rs': seq<T>) {
    multiset(rs') == multiset(rs)
  }

  lemma SameElements<T>(rs: seq<T>, rs': seq<T>)
    requires Reorders(rs, rs')
    ensures forall r | r in rs' :: r in rs
    ensures forall r | r in rs :: r in rs'
  {
    assert forall r | r in rs' :: r in multiset(rs');
    assert forall r | r in rs :: r in multiset(rs);
  }

  /** The empty range accepts the list. */
  ghost predicate Possible<T(!new)>(rs: seq<Registration<T>>) {
    Accepted(map[], rs)
  }

  lemma PossibleFits<T(!new)>(rs: seq<Registration<T>>)
    requires Possible(rs)
    ensures NoClash(imap[], rs)
  {
    AcceptedFits(map[], imap[], rs);
    AllFitIsNoClash(imap[], rs);
  }

  /**
   * Main result: a list is accepted by the empty range in every order exactly if no address is claimed for two
   * observers and no empty registration stands at an address claimed for another observer.
   */
  lemma AcceptedInEveryOrder<T(!new)>(rs: seq<Registration<T>>)
    ensures (forall rs' | Reorders(rs, rs') :: Possible(rs')) <==> NoClash(imap[], rs) && NoneExposed(rs)
  {
    if NoClash(imap[], rs) && NoneExposed(rs) {
      forall rs' | Reorders(rs, rs')
        ensures Possible(rs')
      {
        SameElements(rs, rs');
        NoneExposedAccepted(map[], imap[], rs, rs');
      }
    } else if NoClash(imap[], rs) {
      var e, q :| Exposed(rs, e, q);
      var rest := BothToFront(rs, e, q);
      ExposedFirst(e, q, rest);
      assert Reorders(rs, [e, q] + rest) && !Possible([e, q] + rest);
    } else {
      assert Reorders(rs, rs);
      if Possible(rs) {
        PossibleFits(rs);
      }
    }
  }

  // ---------- when one order will do ----------

  /** No segment of obs begins at k. */
  ghost predicate NotBegun<T>(m: Segments<T>, k: int, obs: T) {
    k in m ==> m[k].param != obs
  }

  /** Another observer has k, the address in front of it, or an empty segment at k. */
  ghost predicate Blocked<T>(m: Segments<T>, labels: imap<int, T>, k: int, obs: T) {
    || (k in m && m[k].param != obs)
    || (k in labels && labels[k] != obs)
    || (k - 1 in labels && labels[k - 1] != obs)
  }

  /** obs has k and the address in front of it. */
  ghost predicate Taken<T>(labels: imap<int, T>, k: int, obs: T) {
    k in labels && labels[k] == obs && k - 1 in labels && labels[k - 1] == obs
  }

  lemma NotBoth<T>(m: Segments<T>, labels: imap<int, T>, k: int, obs: T)
    requires Represents(m, labels) && NotBegun(m, k, obs) && Taken(labels, k, obs)
    ensures !Blocked(m, labels, k, obs)
  {
    var x :| Covers(m, x, k);
    assert k in m && x < k ==> Apart(m, x, k);
  }

  lemma BlockedStays<T>(m: Segments<T>, labels: imap<int, T>, r: Registration<T>, m': Segments<T>, k: int, obs: T)
    requires Represents(m, labels) && Takes(m, r) && Leads(m, r, m')
    requires Represents(m', Written(labels, r)) && Fits(labels, r)
    requires Blocked(m, labels, k, obs)
    ensures Blocked(m', Written(labels, r), k, obs)
  {
    OutcomeKeys(m, m', r.start, r.count, r.obs);
  }

  lemma NotBegunStays<T>(m: Segments<T>, r: Registration<T>, m': Segments<T>, k: int, obs: T)
    requires WellFormed(m) && Takes(m, r) && Leads(m, r, m')
    requires NotBegun(m, k, obs) && (r.obs == obs ==> r.start != k)
    ensures NotBegun(m', k, obs)
  {
    OutcomeKeys(m, m', r.start, r.count, r.obs);
  }

  /** A registration of another observer that starts at k blocks it. */
  lemma NowBlocked<T>(m: Segments<T>, labels: imap<int, T>, r: Registration<T>, m': Segments<T>, k: int, obs: T)
    requires Represents(m, labels) && Takes(m, r) && Leads(m, r, m') && Represents(m', Written(labels, r))
    requires NotBegun(m, k, obs) && r.start == k && r.obs != obs
    ensures Blocked(m', Written(labels, r), k, obs)
  {
    OutcomeKeys(m, m', r.start, r.count, r.obs);
    if k in m' {
      assert m'[k].param != obs;
    } else {
      var x :| Covers(m', x, k - 1) && m'[x].param == r.obs;
      assert Written(labels, r)[k - 1] == r.obs;
    }
  }

  /**
   * If e starts at k, q of observer obs claims k and begins before it, and no registration of obs starts at k, then the
   * list cannot be accepted once both have come or are still to come.
   */
  lemma {:induction false} NeverBoth<T(!new)>(m: Segments<T>, labels: imap<int, T>, rs: seq<Registration<T>>,
                                              e: Registration<T>, q: Registration<T>)
    requires Represents(m, labels) && NotBegun(m, e.start, q.obs)
    requires e.obs != q.obs && Claims(q, e.start) && forall r | r in rs && r.obs == q.obs :: r.start != e.start
    requires e in rs || Blocked(m, labels, e.start, q.obs)
    requires (q in rs && q.start < e.start) || Taken(labels, e.start, q.obs)
    ensures !Accepted(m, rs)
    decreases |rs|
  {
    var k, obs := e.start, q.obs;
    if rs == [] {
      NotBoth(m, labels, k, obs);
    } else if Takes(m, rs[0]) {
      var r := rs[0];
      var m' := StepLabels(m, labels, r);
      AcceptedNext(m, rs, m');
      NotBegunStays(m, r, m', k, obs);
      if Blocked(m, labels, k, obs) {
        BlockedStays(m, labels, r, m', k, obs);
      } else if r == e {
        NowBlocked(m, labels, r, m', k, obs);
      }
      assert rs == [r] + rs[1..];
      NeverBoth(m', Written(labels, r), rs[1..], e, q);
    }
  }

  /** Some registration of the observer of q starts where e stands. */
  ghost predicate Screened<T>(all: seq<Registration<T>>, e: Registration<T>, q: Registration<T>) {
    exists g :: g in all && g.obs == q.obs && g.start == e.start
  }

  ghost predicate AllScreened<T(!new)>(all: seq<Registration<T>>) {
    forall e, q | Exposed(all, e, q) :: Screened(all, e, q)
  }

  /** The observer of p is the one whose address it starts at. */
  ghost predicate IsOwner<T(!new)>(all: seq<Registration<T>>, p: Registration<T>) {
    exists q :: q in all && Claims(q, p.start) && q.obs == p.obs
  }

  /** The order that works: from the last address to the first, owners first. */
  ghost predicate Before<T(!new)>(all: seq<Registration<T>>, p: Registration<T>, r: Registration<T>) {
    p.start > r.start || (p.start == r.start && (IsOwner(all, p) || !IsOwner(all, r)))
  }

  ghost predicate Ordered<T(!new)>(all: seq<Registration<T>>, rs: seq<Registration<T>>) {
    forall i, j | 0 <= i < j < |rs| :: Before(all, rs[i], rs[j])
  }

  lemma {:induction false} Insertion<T(!new)>(all: seq<Registration<T>>, p: Registration<T>, rs: seq<Registration<T>>)
    returns (rs': seq<Registration<T>>)
    requires Ordered(all, rs)
    ensures Ordered(all, rs') && multiset(rs') == multiset([p] + rs)
    decreases |rs|
  {
    if rs == [] || Before(all, p, rs[0]) {
      rs' := [p] + rs;
    } else {
      var rest := Insertion(all, p, rs[1..]);
      rs' := [rs[0]] + rest;
      SameElements([p] + rs[1..], rest);
      assert forall r | r in rest :: r == p || r in rs[1..];
      assert forall r | r in rest :: Before(all, rs[0], r);
      SwapFirst(p, rs, rest);
    }
  }

  lemma SwapFirst<T>(p: T, rs: seq<T>, rest: seq<T>)
    requires rs != [] && multiset(rest) == multiset([p] + rs[1..])
    ensures multiset([rs[0]] + rest) == multiset([p] + rs)
  {
    assert rs == [rs[0]] + rs[1..] && [p] + rs == [p] + [rs[0]] + rs[1..];
  }

  lemma {:induction false} Sorted<T(!new)>(all: seq<Registration<T>>, rs: seq<Registration<T>>)
    returns (rs': seq<Registration<T>>)
    ensures Ordered(all, rs') && Reorders(rs, rs')
    decreases |rs|
  {
    if rs == [] {
      rs' := [];
    } else {
      var rest := Sorted(all, rs[1..]);
      rs' := Insertion(all, rs[0], rest);
      assert rs == [rs[0]] + rs[1..];
    }
  }

  /** The registrations done, of all, have left no segment in the way of those to come. */
  ghost predicate Clear<T(!new)>(m: Segments<T>, done: seq<Registration<T>>, rs: seq<Registration<T>>) {
    && WellFormed(m)
    && (forall k, q | k in m && q in done + rs && Claims(q, k) :: m[k].param == q.obs)
    && (forall k, r | k in m && r in rs :: r.start <= k)
    && (forall p, r | p in done && r in rs && p.start == r.start :: r.start in m)
  }

  lemma ClearTakes<T(!new)>(m: Segments<T>, done: seq<Registration<T>>, rs: seq<Registration<T>>)
    requires Clear(m, done, rs) && rs != []
    ensures Takes(m, rs[0])
  {
    var r := rs[0];
    forall k | k in m
      ensures !Conflicts(m, k, r.start, r.count, r.obs)
    {
      assert r in rs && r in done + rs;
    }
  }

  /**
   * An empty registration that stands at an address claimed for another observer comes when that one has begun there.
   */
  lemma ScreenComes<T(!new)>(all: seq<Registration<T>>, done: seq<Registration<T>>, rs: seq<Registration<T>>,
                             q: Registration<T>) returns (g: Registration<T>)
    requires all == done + rs && rs != [] && Ordered(all, all) && NoClash(imap[], all) && AllScreened(all)
    requires Exposed(all, rs[0], q)
    ensures g in done && g.start == rs[0].start
  {
    var r := rs[0];
    assert Screened(all, r, q);
    g :| g in all && g.obs == q.obs && g.start == r.start;
    assert IsOwner(all, g);
    assert !IsOwner(all, r);
    var i :| 0 <= i < |all| && all[i] == g;
    assert all[|done|] == r;
    assert i > |done| ==> Before(all, all[|done|], all[i]);
    assert i < |done| ==> done[i] == g;
  }

  /** A segment begins at an address claimed for its own observer, if for any. */
  lemma NewKeyIsOwn<T(!new)>(m: Segments<T>, done: seq<Registration<T>>, rs: seq<Registration<T>>, q: Registration<T>)
    requires Clear(m, done, rs) && rs != [] && rs[0].start !in m && q in done + rs && Claims(q, rs[0].start)
    requires Ordered(done + rs, done + rs) && NoClash(imap[], done + rs) && AllScreened(done + rs)
    ensures q.obs == rs[0].obs
  {
    var r, all := rs[0], done + rs;
    assert r in rs && r in all;
    if r.count > 0 {
      assert Claims(r, r.start);
    } else if Exposed(all, r, q) {
      var g := ScreenComes(all, done, rs, q);
    }
  }

  lemma ClearStep<T(!new)>(m: Segments<T>, done: seq<Registration<T>>, rs: seq<Registration<T>>, m': Segments<T>)
    requires Clear(m, done, rs) && rs != [] && WellFormed(m') && Takes(m, rs[0]) && Leads(m, rs[0], m')
    requires Ordered(done + rs, done + rs) && NoClash(imap[], done + rs) && AllScreened(done + rs)
    ensures Clear(m', done + [rs[0]], rs[1..])
  {
    var r, all := rs[0], done + rs;
    OutcomeKeys(m, m', r.start, r.count, r.obs);
    assert done + [r] + rs[1..] == all && r in rs && r in all;
    forall k, q | k in m' && q in all && Claims(q, k)
      ensures m'[k].param == q.obs
    {
      if k !in m {
        NewKeyIsOwn(m, done, rs, q);
      }
    }
    forall p | p in rs[1..]
      ensures p.start <= r.start
    {
      var i :| 0 <= i < |rs[1..]| && rs[1..][i] == p;
      assert all[|done|] == r && all[|done| + 1 + i] == p && Before(all, r, p);
    }
    forall p | p in done
      ensures p.start >= r.start
    {
      var i :| 0 <= i < |done| && done[i] == p;
      assert all[i] == p && all[|done|] == r && Before(all, p, r);
    }
  }

  lemma {:induction false} OrderedAccepted<T(!new)>(m: Segments<T>, labels: imap<int, T>, done: seq<Registration<T>>,
                                                    rs: seq<Registration<T>>)
    requires Represents(m, labels) && Clear(m, done, rs)
    requires Ordered(done + rs, done + rs) && NoClash(imap[], done + rs) && AllScreened(done + rs)
    ensures Accepted(m, rs)
    decreases |rs|
  {
    if rs != [] {
      ClearTakes(m, done, rs);
      var m' := StepLabels(m, labels, rs[0]);
      ClearStep(m, done, rs, m');
      assert done + [rs[0]] + rs[1..] == done + rs;
      OrderedAccepted(m', Written(labels, rs[0]), done + [rs[0]], rs[1..]);
    }
  }

  /** What these conditions say does not depend on the order. */
  lemma OrderFree<T(!new)>(rs: seq<Registration<T>>, rs': seq<Registration<T>>)
    requires Reorders(rs, rs')
    ensures NoClash(imap[], rs) ==> NoClash(imap[], rs')
    ensures AllScreened(rs) ==> AllScreened(rs')
  {
    SameElements(rs, rs');
    if AllScreened(rs) {
      forall e, q | Exposed(rs', e, q)
        ensures Screened(rs', e, q)
      {
        assert Exposed(rs, e, q) && Screened(rs, e, q);
      }
    }
  }

  lemma OrderedByRank<T(!new)>(rs: seq<Registration<T>>, rs': seq<Registration<T>>)
    requires Reorders(rs, rs') && Ordered(rs, rs')
    ensures Ordered(rs', rs')
  {
    SameElements(rs, rs');
    forall p
      ensures IsOwner(rs, p) <==> IsOwner(rs', p)
    {
    }
  }

  /**
   * Main result: a list is accepted by the empty range in some order exactly if no address is claimed for two
   * observers, and wherever an empty registration stands at an address claimed for another observer, some registration
   * of that observer starts.
   */
  lemma AcceptedInSomeOrder<T(!new)>(rs: seq<Registration<T>>)
    ensures (exists rs' | Reorders(rs, rs') :: Possible(rs')) <==> NoClash(imap[], rs) && AllScreened(rs)
  {
    if NoClash(imap[], rs) && AllScreened(rs) {
      var rs' := Sorted(rs, rs);
      OrderFree(rs, rs');
      OrderedByRank(rs, rs');
      assert [] + rs' == rs';
      OrderedAccepted(map[], imap[], [], rs');
      assert Reorders(rs, rs') && Possible(rs');
    } else if rs' :| Reorders(rs, rs') && Possible(rs') {
      ConditionNeeded(rs, rs');
    }
  }

  lemma ConditionNeeded<T(!new)>(rs: seq<Registration<T>>, rs': seq<Registration<T>>)
    requires Reorders(rs, rs') && Possible(rs')
    ensures NoClash(imap[], rs) && AllScreened(rs)
  {
    PossibleFits(rs');
    OrderFree(rs', rs);
    SameElements(rs, rs');
    forall e, q | Exposed(rs, e, q)
      ensures Screened(rs, e, q)
    {
      if !Screened(rs, e, q) {
        assert forall r | r in rs' && r.obs == q.obs :: r.start != e.start;
        NeverBoth(map[], imap[], rs', e, q);
      }
    }
  }

  /**
   * So the order matters exactly if some empty registration stands at such an address, and all that do are screened.
   */
  lemma OrderMatters<T(!new)>(rs: seq<Registration<T>>)
    ensures (exists rs' | Reorders(rs, rs') :: Possible(rs')) && (exists rs' | Reorders(rs, rs') :: !Possible(rs'))
      <==> NoClash(imap[], rs) && !NoneExposed(rs) && AllScreened(rs)
  {
    AcceptedInSomeOrder(rs);
    AcceptedInEveryOrder(rs);
  }

  /** The least example: the empty registration is accepted after the other, which it starts with, but not before it. */
  lemma EmptyBesideNonempty()
    ensures var rs := [Registration(5, 0, 7), Registration(5, 3, 8)];
      (exists rs' | Reorders(rs, rs') :: Possible(rs')) && (exists rs' | Reorders(rs, rs') :: !Possible(rs'))
  {
    var e, q := Registration(5, 0, 7), Registration(5, 3, 8);
    var rs := [e, q];
    assert e in rs && q in rs && Exposed(rs, e, q);
    OrderMatters(rs);
  }

  /**
   * The order can matter although no nonempty registration starts where the empty one stands: another empty one does.
   */
  lemma EmptyBesideEmpty()
    ensures var rs := [Registration(5, 0, 7), Registration(5, 0, 8), Registration(3, 5, 8)];
      (exists rs' | Reorders(rs, rs') :: Possible(rs')) && (exists rs' | Reorders(rs, rs') :: !Possible(rs'))
  {
    var e, g, q := Registration(5, 0, 7), Registration(5, 0, 8), Registration(3, 5, 8);
    var rs := [e, g, q];
    assert e in rs && g in rs && q in rs && Exposed(rs, e, q);
    OrderMatters(rs);
  }

  /**
   * Registering a list with insert(), stopping at the first exception. On a range without empty segments and for
   * nonempty registrations AcceptedIsFit says which lists are accepted.
   */
  method RegisterAll<T(==, !new)>(range: TAddressRange<T>, rs: seq<Registration<T>>) returns (ok: bool)
    requires range.Valid()
    modifies range
    ensures range.Valid()
    ensures ok <==> Accepted(old(range.m), rs)
    ensures ok ==> range.labels == AllWritten(old(range.labels), rs)
  {
    var todo := rs;
    while todo != []
      invariant range.Valid()
      invariant Accepted(old(range.m), rs) <==> Accepted(range.m, todo)
      invariant AllWritten(old(range.labels), rs) == AllWritten(range.labels, todo)
      decreases |todo|
    {
      ok := RegisterNext(range, todo);
      if !ok {
        return;
      }
      todo := todo[1..];
    }
    ok := true;
  }

  /** One pass of that loop. */
  method RegisterNext<T(==, !new)>(range: TAddressRange<T>, todo: seq<Registration<T>>) returns (ok: bool)
    requires range.Valid() && todo != []
    modifies range
    ensures range.Valid()
    ensures if ok then Accepted(old(range.m), todo) <==> Accepted(range.m, todo[1..]) else !Accepted(old(range.m), todo)
    ensures ok ==> range.labels == Written(old(range.labels), todo[0])
  {
    var r := todo[0];
    ghost var m := range.m;
    ok := range.Insert(r.start, r.count, r.obs);
    if ok {
      AcceptedNext(m, todo, range.m);
    }
  }
}
