/**
 * The interval map of src/address_range.h: an ordered map of half-open segments
 * [key, hi), each carrying a parameter (the observer, or a cache pointer), with merging
 * insertion, shifting, point lookup and a query that cuts a request into pieces.
 *
 * The meaning of a range is a plain partial map from address to parameter: its labels.
 */
module AddressRange {

  /** The value half of a std::map entry; the key is the first address of the segment. */
  datatype Entry<+T> = Entry(hi: int, param: T)

  type Segments<T> = map<int, Entry<T>>

  /** A single-segment range, as handed out by getSegments(). */
  datatype Piece<+T> = Piece(lo: int, hi: int, param: T)

  /** WrongSegment stands for the WrongSegmentException the source throws. */
  datatype Result<+T> = Ok(value: T) | WrongSegment

  /** A std::map iterator. */
  datatype Iterator = At(key: int) | End

  predicate Covers<T>(m: Segments<T>, k: int, a: int) {
    k in m && k <= a < m[k].hi
  }

  /** What insert() maintains: segments do not overlap. */
  ghost predicate WellFormed<T>(m: Segments<T>) {
    && (forall k | k in m :: k <= m[k].hi)
    && (forall k, l {:trigger Apart(m, k, l)} | k in m && l in m && k < l :: Apart(m, k, l))
  }

  ghost predicate Apart<T>(m: Segments<T>, k: int, l: int)
    requires k in m
  {
    m[k].hi <= l
  }

  /** No segment is empty; only an insertion of zero addresses can make one. */
  ghost predicate Solid<T>(m: Segments<T>) {
    forall k | k in m :: k < m[k].hi
  }

  /** labels is the meaning of m: it gives every covered address the parameter of its segment. */
  ghost predicate Represents<T>(m: Segments<T>, labels: imap<int, T>) {
    && WellFormed(m)
    && (forall k, a | Covers(m, k, a) :: a in labels && labels[a] == m[k].param)
    && (forall a | a in labels :: exists k :: Covers(m, k, a))
  }

  lemma UniqueMeaning<T>(m: Segments<T>, labels: imap<int, T>, labels': imap<int, T>)
    requires Represents(m, labels) && Represents(m, labels')
    ensures labels == labels'
  {
    forall a
      ensures a in labels <==> a in labels'
      ensures a in labels ==> labels[a] == labels'[a]
    {
      if a in labels { var k :| Covers(m, k, a); }
      if a in labels' { var k :| Covers(m, k, a); }
    }
  }

  ghost predicate Covered<T>(m: Segments<T>, a: int) {
    exists k :: Covers(m, k, a)
  }

  ghost function KeyOf<T>(m: Segments<T>, a: int): (k: int)
    requires Covered(m, a)
    ensures Covers(m, k, a)
  {
    var k :| Covers(m, k, a); k
  }

  /** Every well-formed range has a meaning. */
  lemma Meaning<T>(m: Segments<T>) returns (labels: imap<int, T>)
    requires WellFormed(m)
    ensures Represents(m, labels)
  {
    labels := imap a | Covered(m, a) :: m[KeyOf(m, a)].param;
    forall k, a | Covers(m, k, a)
      ensures a in labels && labels[a] == m[k].param
    {
      assert Covered(m, a);
      assert forall l | l in m :: (l < k ==> Apart(m, l, k)) && (k < l ==> Apart(m, k, l));
    }
  }

  predicate Within(start: int, end: int, a: int) {
    start <= a < end
  }

  ghost function Span<T>(start: int, end: int, param: T): imap<int, T> {
    imap a | Within(start, end, a) :: param
  }

  function Min(a: int, b: int): int {
    if a < b then a else b
  }

  lemma {:induction false} ExtremeKeys(s: set<int>, x: int) returns (first: int, last: int)
    requires x in s
    ensures first in s && last in s && forall y | y in s :: first <= y <= last
    decreases |s|
  {
    first, last := x, x;
    var rest := s - {x};
    if z :| z in rest {
      first, last := ExtremeKeys(rest, z);
      first, last := if x < first then x else first, if x > last then x else last;
    }
    assert forall y | y in s :: y == x || y in rest;
  }

  lemma KeyBound<T>(m: Segments<T>) returns (top: int)
    ensures forall k | k in m :: k < top
  {
    top := 0;
    if exists z :: z in m {
      var z :| z in m;
      var _, last := ExtremeKeys(m.Keys, z);
      top := last + 1;
    }
  }

  lemma {:induction false} LeastFrom(s: set<int>, k: int, x: int) returns (first: int)
    requires x in s && k <= x
    ensures first in s && k <= first && forall y | y in s && k <= y :: first <= y
    decreases |s|
  {
    first := x;
    var rest := s - {x};
    if z :| z in rest && k <= z < x {
      first := LeastFrom(rest, k, z);
    }
    assert forall y | y in s :: y == x || y in rest;
  }

  lemma {:induction false} GreatestBelow(s: set<int>, k: int, x: int) returns (last: int)
    requires x in s && x < k
    ensures last in s && last < k && forall y | y in s && y < k :: y <= last
    decreases |s|
  {
    last := x;
    var rest := s - {x};
    if z :| z in rest && x < z < k {
      last := GreatestBelow(rest, k, z);
    }
    assert forall y | y in s :: y == x || y in rest;
  }

  lemma LeastKey<T>(m: Segments<T>, k: int)
    requires exists x :: x in m && k <= x
    ensures exists x :: x in m && k <= x && forall y | y in m && k <= y :: x <= y
  {
    var x :| x in m && k <= x;
    var first := LeastFrom(m.Keys, k, x);
    assert first in m && forall y | y in m && k <= y :: y in m.Keys && first <= y;
  }

  lemma GreatestKey<T>(m: Segments<T>, k: int)
    requires exists x :: x in m && x < k
    ensures exists x :: x in m && x < k && forall y | y in m && y < k :: y <= x
  {
    var x :| x in m && x < k;
    var last := GreatestBelow(m.Keys, k, x);
    assert last in m && forall y | y in m && y < k :: y in m.Keys && y <= last;
  }

  /** it is the first entry of m with a key of at least c. */
  ghost predicate StandsAt<T>(m: Segments<T>, c: int, it: Iterator) {
    match it
    case End => forall k | k in m :: k < c
    case At(x) => x in m && c <= x && forall k | k in m && c <= k :: x <= k
  }

  /** it is the last entry of m with a key below c. */
  ghost predicate StandsBelow<T>(m: Segments<T>, c: int, it: Iterator) {
    match it
    case End => forall k | k in m :: c <= k
    case At(x) => x in m && x < c && forall k | k in m && k < c :: k <= x
  }

  /** std::map::lower_bound. */
  method LowerBound<T>(m: Segments<T>, k: int) returns (it: Iterator)
    ensures StandsAt(m, k, it)
  {
    if exists x :: x in m && k <= x {
      LeastKey(m, k);
      var x :| x in m && k <= x && forall y | y in m && k <= y :: x <= y;
      return At(x);
    }
    return End;
  }

  /** The entry in front of lower_bound(k), if there is one: what "if (it != begin()) --it" reaches. */
  method LastBelow<T>(m: Segments<T>, k: int) returns (it: Iterator)
    ensures StandsBelow(m, k, it)
  {
    if exists x :: x in m && x < k {
      GreatestKey(m, k);
      var x :| x in m && x < k && forall y | y in m && y < k :: y <= x;
      return At(x);
    }
    return End;
  }

  /**
   * Why insert() throws: segment k has another parameter and overlaps the new one, or is empty and starts inside it.
   */
  ghost predicate Conflicts<T>(m: Segments<T>, k: int, start: int, count: nat, obs: T) {
    k in m && m[k].param != obs && k < start + count && (start < m[k].hi || start <= k)
  }

  ghost predicate Accepts<T>(m: Segments<T>, start: int, count: nat, obs: T) {
    forall k | k in m :: !Conflicts(m, k, start, count, obs)
  }

  /** No address of [start, end) carries a parameter other than obs. */
  ghost predicate Agrees<T>(labels: imap<int, T>, start: int, end: int, obs: T) {
    forall a | Within(start, end, a) && a in labels :: labels[a] == obs
  }

  /** An accepted insertion agrees with all labels there are. */
  lemma AcceptsAgrees<T>(m: Segments<T>, labels: imap<int, T>, start: int, count: nat, obs: T)
    requires Represents(m, labels) && Accepts(m, start, count, obs)
    ensures Agrees(labels, start, start + count, obs)
  {
    forall a | Within(start, start + count, a) && a in labels
      ensures labels[a] == obs
    {
      var k :| Covers(m, k, a);
      assert !Conflicts(m, k, start, count, obs);
    }
  }

  /** The guards insert() evaluates on segments amount to the plain statement about addresses. */
  lemma AcceptsIsAgreement<T>(m: Segments<T>, labels: imap<int, T>, start: int, count: nat, obs: T)
    requires Represents(m, labels) && Solid(m) && count > 0
    ensures Accepts(m, start, count, obs) <==> Agrees(labels, start, start + count, obs)
  {
    if Accepts(m, start, count, obs) {
      AcceptsAgrees(m, labels, start, count, obs);
    } else {
      var k :| k in m && Conflicts(m, k, start, count, obs);
      var a := if k < start then start else k;
      assert Covers(m, k, a) && Within(start, start + count, a);
    }
  }

  /**
   * A rejected insertion is not atomic: it has dropped exactly the segments with the inserted parameter
   * that reach start and lie before the first conflicting segment c.
   */
  ghost predicate Rejected<T>(m: Segments<T>, m': Segments<T>, start: int, count: nat, obs: T, c: int) {
    && Conflicts(m, c, start, count, obs)
    && (forall k | k in m && k < c :: !Conflicts(m, k, start, count, obs))
    && m' == map k | k in m && !(k < c && m[k].param == obs && start <= m[k].hi) :: m[k]
  }

  /** labels cut down to what m' still covers. */
  ghost function Remaining<T>(labels: imap<int, T>, m': Segments<T>): imap<int, T> {
    imap a | a in labels && exists k :: Covers(m', k, a) :: labels[a]
  }

  /** On rejection nothing is gained, and nothing but addresses labelled with the inserted parameter is lost. */
  lemma RejectedLosesOnlyOwn<T>(m: Segments<T>, labels: imap<int, T>, m': Segments<T>, start: int, count: nat, obs: T,
                                c: int)
    requires Represents(m, labels) && Rejected(m, m', start, count, obs, c)
    ensures Represents(m', Remaining(labels, m'))
    ensures forall a | a in labels && a !in Remaining(labels, m') :: labels[a] == obs
  {
    forall k, l | k in m' && l in m' && k < l
      ensures Apart(m', k, l)
    {
      assert Apart(m, k, l);
    }
    forall a, k | Covers(m', k, a)
      ensures Covers(m, k, a)
    {
    }
    forall a | a in labels && a !in Remaining(labels, m')
      ensures labels[a] == obs
    {
      var k :| Covers(m, k, a);
      assert !Covers(m', k, a);
    }
  }

  /** insert() throws before changing anything when the segment reaching over start has another parameter. */
  lemma RejectsAtOnce<T>(m: Segments<T>, labels: imap<int, T>, x: int, start: int, count: nat, obs: T)
    requires Represents(m, labels) && StandsBelow(m, start, At(x)) && m[x].param != obs && m[x].hi > start
    ensures Rejected(m, m, start, count, obs, x) && labels == Remaining(labels, m)
    ensures !Accepts(m, start, count, obs)
  {
    assert forall k | k in m && k < x :: Apart(m, k, x);
    assert m == map k | k in m && !(k < x && m[k].param == obs && start <= m[k].hi) :: m[k];
    assert Conflicts(m, x, start, count, obs);
    forall a
      ensures a in labels <==> a in Remaining(labels, m)
    {
    }
  }

  /** m without the keys in [s, c): what the erasing loop of insert() has left when it stands at c. */
  function Without<T>(m: Segments<T>, s: int, c: int): Segments<T> {
    map k | k in m && !(s <= k < c) :: m[k]
  }

  /**
   * The loop of insert(): all segments with keys in [s, c) have been absorbed into the growing segment [s, end).
   */
  ghost predicate Absorbing<T>(m: Segments<T>, s: int, c: int, end: int, start: int, count: nat, obs: T) {
    && s <= start && s <= c
    && (forall k | k in m && k < s :: m[k].hi <= s && (m[k].param == obs ==> m[k].hi < start))
    && (forall k | k in m && s <= k < c ::
          k < start + count && m[k].param == obs && m[k].hi <= end && start <= m[k].hi)
    && (s == start || (s in m && m[s].param == obs && start <= m[s].hi))
    && (end == start + count || exists k :: k in m && s <= k < c && m[k].hi == end && k < start + count < end)
  }

  /** What the last statement of insert(), std::map::insert, makes of rest: an existing key is left alone. */
  function Emplaced<T>(rest: Segments<T>, s: int, e: Entry<T>): Segments<T> {
    if s in rest then rest else rest[s := e]
  }

  lemma FinishedWellFormed<T>(m: Segments<T>, s: int, c: int, end: int, start: int, count: nat, obs: T)
    requires WellFormed(m) && Absorbing(m, s, c, end, start, count, obs)
    requires forall k | k in m && c <= k :: end <= k
    ensures var m' := Emplaced(Without(m, s, c), s, Entry(end, obs));
            WellFormed(m') && (Solid(m) && count > 0 ==> Solid(m'))
    ensures Accepts(m, start, count, obs)
  {
    var m' := Emplaced(Without(m, s, c), s, Entry(end, obs));
    forall k, l | k in m' && l in m' && k < l
      ensures Apart(m', k, l)
    {
      if k in m && l in m { assert Apart(m, k, l); }
    }
    if s in m && s < start {
      assert forall k | k in m && k < s :: Apart(m, k, s);
    }
  }

  lemma FinishedAt<T>(m: Segments<T>, labels: imap<int, T>, s: int, c: int, end: int, start: int, count: nat, obs: T,
                      a: int)
    requires Represents(m, labels) && Absorbing(m, s, c, end, start, count, obs)
    requires forall k | k in m && c <= k :: end <= k
    ensures var m' := Emplaced(Without(m, s, c), s, Entry(end, obs));
            && (forall k | Covers(m', k, a) ::
                  if Within(start, start + count, a) then m'[k].param == obs
                  else a in labels && labels[a] == m'[k].param)
            && (a in labels || Within(start, start + count, a) ==> exists k :: Covers(m', k, a))
  {
    var m' := Emplaced(Without(m, s, c), s, Entry(end, obs));
    if s in Without(m, s, c) {
      assert m' == m;
    } else {
      forall k | Covers(m', k, a)
        ensures if Within(start, start + count, a) then m'[k].param == obs else a in labels && labels[a] == m'[k].param
      {
        if k != s {
          assert Covers(m, k, a);
        } else if a < start {
          assert Covers(m, s, a);
        } else if start + count <= a {
          var l :| l in m && s <= l < c && m[l].hi == end && l < start + count < end;
          assert Covers(m, l, a);
        }
      }
      if a in labels {
        var k :| Covers(m, k, a);
        assert Covers(m', if s <= k < c then s else k, a);
      } else if Within(start, start + count, a) {
        assert Covers(m', s, a);
      }
    }
  }

  lemma FinishedLabels<T>(m: Segments<T>, labels: imap<int, T>, m': Segments<T>, s: int, c: int, end: int,
                          start: int, count: nat, obs: T)
    requires Represents(m, labels) && Absorbing(m, s, c, end, start, count, obs)
    requires forall k | k in m && c <= k :: end <= k
    requires m' == Emplaced(Without(m, s, c), s, Entry(end, obs))
    ensures Represents(m', labels + Span(start, start + count, obs))
  {
    FinishedWellFormed(m, s, c, end, start, count, obs);
    forall a {
      FinishedAt(m, labels, s, c, end, start, count, obs, a);
    }
  }

  /** The state of that loop: rest is what the map holds and inner is the iterator. */
  ghost predicate AbsorbLoop<T>(m: Segments<T>, rest: Segments<T>, inner: Iterator, s: int, c: int, end: int,
                                start: int, count: nat, obs: T) {
    rest == Without(m, s, c) && Absorbing(m, s, c, end, start, count, obs) && StandsAt(m, c, inner)
  }

  /**
   * s is where the new segment will begin: at a same-parameter segment that reaches start from the left, or at start.
   */
  ghost predicate Extends<T>(m: Segments<T>, back: Iterator, s: int, start: int, obs: T) {
    && StandsBelow(m, start, back)
    && if back.At? && m[back.key].hi >= start && m[back.key].param == obs then s == back.key
       else s == start && (back.At? ==> m[back.key].hi <= start)
  }

  lemma LoopStarts<T>(m: Segments<T>, back: Iterator, inner: Iterator, s: int, start: int, count: nat, obs: T)
    requires WellFormed(m) && Extends(m, back, s, start, obs) && StandsAt(m, s, inner)
    ensures AbsorbLoop(m, m, inner, s, s, start + count, start, count, obs)
  {
    if back.At? {
      assert forall k | k in m && k < back.key :: Apart(m, k, back.key);
    }
  }

  lemma LoopSteps<T>(m: Segments<T>, rest: Segments<T>, inner: Iterator, s: int, c: int, end: int,
                     start: int, count: nat, obs: T, next: Iterator)
    requires WellFormed(m) && AbsorbLoop(m, rest, inner, s, c, end, start, count, obs)
    requires inner.At? && inner.key < end && m[inner.key].param == obs
    requires StandsAt(rest, inner.key + 1, next)
    ensures var end' := if m[inner.key].hi > end then m[inner.key].hi else end;
            AbsorbLoop(m, rest - {inner.key}, next, s, inner.key + 1, end', start, count, obs)
    ensures |rest - {inner.key}| < |rest|
  {
    var x := inner.key;
    assert forall k | k in m && k < x :: Apart(m, k, x);
    assert rest == (rest - {x})[x := m[x]];
    assert forall k | k in m && x + 1 <= k :: k in rest;
  }

  /** The new segment begins at a segment under obs that reaches start from the left, or else at start. */
  ghost predicate Begins<T>(m: Segments<T>, s: int, start: int, obs: T) {
    if s < start then s in m && m[s].param == obs && start <= m[s].hi
    else s == start && forall k | k in m && k < start && m[k].param == obs :: m[k].hi < start
  }

  /** It ends with the last of the inserted addresses and of the segments it absorbs. */
  ghost predicate Reaches<T>(m: Segments<T>, s: int, end: int, start: int, count: nat) {
    && start + count <= end
    && (forall k | k in m && s <= k < start + count :: m[k].hi <= end)
    && (end == start + count || exists k :: k in m && s <= k < start + count && m[k].hi == end)
  }

  ghost predicate MadeFrom<T>(m: Segments<T>, m': Segments<T>, s: int, end: int, start: int, count: nat, obs: T) {
    && Begins(m, s, start, obs) && Reaches(m, s, end, start, count)
    && m' == Emplaced(Without(m, s, start + count), s, Entry(end, obs))
  }

  /** The segments after an accepted insertion. */
  ghost predicate IsOutcome<T>(m: Segments<T>, m': Segments<T>, start: int, count: nat, obs: T) {
    exists s, end :: MadeFrom(m, m', s, end, start, count, obs)
  }

  lemma BeginsOnce<T>(m: Segments<T>, s: int, s': int, start: int, obs: T)
    requires WellFormed(m) && Begins(m, s, start, obs) && Begins(m, s', start, obs)
    ensures s == s'
  {
    assert s in m && s' in m && s < s' ==> Apart(m, s, s');
    assert s in m && s' in m && s' < s ==> Apart(m, s', s);
  }

  lemma OutcomeUnique<T>(m: Segments<T>, m1: Segments<T>, m2: Segments<T>, start: int, count: nat, obs: T)
    requires WellFormed(m) && IsOutcome(m, m1, start, count, obs) && IsOutcome(m, m2, start, count, obs)
    ensures m1 == m2
  {
    var s1, end1 :| MadeFrom(m, m1, s1, end1, start, count, obs);
    var s2, end2 :| MadeFrom(m, m2, s2, end2, start, count, obs);
    BeginsOnce(m, s1, s2, start, obs);
  }

  /** The greatest end of the segments of m with keys in s, or n. */
  lemma {:induction false} GreatestEnd<T>(m: Segments<T>, s: set<int>, n: int) returns (end: int)
    requires forall k | k in s :: k in m
    ensures n <= end && (forall k | k in s :: m[k].hi <= end) && (end == n || exists k :: k in s && m[k].hi == end)
    decreases |s|
  {
    end := n;
    if x :| x in s {
      var rest := s - {x};
      end := GreatestEnd(m, rest, n);
      assert forall k | k in s :: k == x || k in rest;
      end := if m[x].hi > end then m[x].hi else end;
    }
  }

  lemma OutcomeExists<T>(m: Segments<T>, start: int, count: nat, obs: T) returns (m': Segments<T>)
    requires WellFormed(m)
    ensures IsOutcome(m, m', start, count, obs)
  {
    var s := start;
    if k :| k in m && k < start && m[k].param == obs && start <= m[k].hi {
      s := k;
    }
    var keys := set k | k in m && s <= k < start + count;
    var end := GreatestEnd(m, keys, start + count);
    m' := Emplaced(Without(m, s, start + count), s, Entry(end, obs));
    assert MadeFrom(m, m', s, end, start, count, obs);
  }

  /** An outcome is what the loop ends with when it stands at start + count. */
  lemma OutcomeAbsorbs<T>(m: Segments<T>, s: int, end: int, start: int, count: nat, obs: T)
    requires WellFormed(m) && Accepts(m, start, count, obs)
    requires Begins(m, s, start, obs) && Reaches(m, s, end, start, count)
    ensures Absorbing(m, s, start + count, end, start, count, obs)
    ensures forall k | k in m && start + count <= k :: end <= k
  {
    assert s in m ==> forall k | k in m :: (k < s ==> Apart(m, k, s)) && (s < k ==> Apart(m, s, k));
    assert forall k | k in m :: !Conflicts(m, k, start, count, obs);
    if end != start + count {
      var l :| l in m && s <= l < start + count && m[l].hi == end;
      assert forall k | k in m && start + count <= k :: Apart(m, l, k);
    }
  }

  lemma OutcomeLabels<T>(m: Segments<T>, labels: imap<int, T>, m': Segments<T>, start: int, count: nat, obs: T)
    requires Represents(m, labels) && Accepts(m, start, count, obs) && IsOutcome(m, m', start, count, obs)
    ensures Represents(m', labels + Span(start, start + count, obs))
  {
    var s, end :| MadeFrom(m, m', s, end, start, count, obs);
    OutcomeAbsorbs(m, s, end, start, count, obs);
    FinishedLabels(m, labels, m', s, start + count, end, start, count, obs);
  }

  ghost predicate CoveredBy<T>(m: Segments<T>, a: int, obs: T) {
    exists k :: Covers(m, k, a) && m[k].param == obs
  }

  /**
   * Keys and parameters after an insertion: a segment that disappears has been absorbed where it was, and the new one
   * begins at start unless it has been absorbed from the left.
   */
  lemma OutcomeKeys<T>(m: Segments<T>, m': Segments<T>, start: int, count: nat, obs: T)
    requires WellFormed(m) && Accepts(m, start, count, obs) && IsOutcome(m, m', start, count, obs)
    ensures forall k | k in m' :: if k in m then m'[k].param == m[k].param else k == start && m'[k].param == obs
    ensures forall k | k in m && k !in m' :: m[k].param == obs && CoveredBy(m', k, obs)
    ensures start in m' || CoveredBy(m', start - 1, obs)
    ensures start in m' || exists k :: k in m && k < start
    ensures forall k | k in m' && m'[k].hi == k ::
      (k in m && m'[k] == m[k]) || (k == start && count == 0 && m'[k].param == obs)
  {
    var s, end :| MadeFrom(m, m', s, end, start, count, obs);
    OutcomeAbsorbs(m, s, end, start, count, obs);
    forall k | k in m && k !in m'
      ensures CoveredBy(m', k, obs)
    {
      assert Covers(m', s, k);
    }
    assert start !in m' ==> Covers(m', s, start - 1);
  }

  /** What insert() makes of m and its meaning. */
  ghost predicate Inserted<T>(m: Segments<T>, labels: imap<int, T>, m': Segments<T>, labels': imap<int, T>,
                              start: int, count: nat, obs: T, ok: bool) {
    && Represents(m', labels')
    && (ok <==> Accepts(m, start, count, obs))
    && (ok ==> IsOutcome(m, m', start, count, obs) && labels' == labels + Span(start, start + count, obs))
    && (!ok ==> labels' == Remaining(labels, m') && exists c :: Rejected(m, m', start, count, obs, c))
    && (Solid(m) && (count > 0 || !ok) ==> Solid(m'))
    && (ok && (count > 0 || start !in m) && (forall k | k in m :: m[k].param != obs) ==>
          m' == m[start := Entry(start + count, obs)])
  }

  /** What inserting addresses under a new parameter makes of a range. */
  ghost predicate InsertedNew<T>(m: Segments<T>, labels: imap<int, T>, m': Segments<T>, labels': imap<int, T>,
                                 start: int, end: int, obs: T, ok: bool) {
    && (ok <==> Compatible(labels, Span(start, end, obs)))
    && (ok ==> Solid(m') && m' == m[start := Entry(end, obs)] && labels' == labels + Span(start, end, obs))
  }

  lemma NewInserted<T>(m: Segments<T>, labels: imap<int, T>, m': Segments<T>, labels': imap<int, T>,
                       start: int, count: nat, obs: T, ok: bool)
    requires Represents(m, labels) && Inserted(m, labels, m', labels', start, count, obs, ok)
    requires Solid(m) && count > 0 && forall k | k in m :: m[k].param != obs
    ensures InsertedNew(m, labels, m', labels', start, start + count, obs, ok)
  {
    AcceptsIsAgreement(m, labels, start, count, obs);
  }

  lemma LoopRejects<T>(m: Segments<T>, labels: imap<int, T>, rest: Segments<T>, inner: Iterator, s: int, c: int,
                       end: int, start: int, count: nat, obs: T)
    requires Represents(m, labels) && AbsorbLoop(m, rest, inner, s, c, end, start, count, obs)
    requires inner.At? && inner.key < end && m[inner.key].param != obs
    ensures Inserted(m, labels, rest, Remaining(labels, rest), start, count, obs, false)
  {
    var x := inner.key;
    assert forall k | k in m && k < x :: Apart(m, k, x);
    assert Rejected(m, rest, start, count, obs, x);
    RejectedLosesOnlyOwn(m, labels, rest, start, count, obs, x);
    assert Conflicts(m, x, start, count, obs);
  }

  lemma LoopFinishes<T>(m: Segments<T>, labels: imap<int, T>, rest: Segments<T>, inner: Iterator, s: int, c: int,
                        end: int, start: int, count: nat, obs: T)
    requires Represents(m, labels) && AbsorbLoop(m, rest, inner, s, c, end, start, count, obs)
    requires inner.At? ==> end <= inner.key
    ensures Inserted(m, labels, Emplaced(rest, s, Entry(end, obs)), labels + Span(start, start + count, obs),
                     start, count, obs, true)
  {
    FinishedWellFormed(m, s, c, end, start, count, obs);
    FinishedLabels(m, labels, Emplaced(rest, s, Entry(end, obs)), s, c, end, start, count, obs);
    FinishedOutcome(m, s, c, end, start, count, obs);
  }

  lemma FinishedOutcome<T>(m: Segments<T>, s: int, c: int, end: int, start: int, count: nat, obs: T)
    requires WellFormed(m) && Absorbing(m, s, c, end, start, count, obs)
    requires forall k | k in m && c <= k :: end <= k
    ensures IsOutcome(m, Emplaced(Without(m, s, c), s, Entry(end, obs)), start, count, obs)
  {
    assert Without(m, s, c) == Without(m, s, start + count);
    assert MadeFrom(m, Emplaced(Without(m, s, c), s, Entry(end, obs)), s, end, start, count, obs);
  }

  /** One segment contains all of [start, start + count). */
  ghost predicate OneSegment<T>(m: Segments<T>, k: int, start: int, count: nat) {
    k in m && k <= start && start + count <= m[k].hi
  }

  /** The pieces cut [start, end) at the segment borders of m: contiguous, nonempty, each from one segment. */
  ghost predicate Tiles<T>(m: Segments<T>, pieces: seq<Piece<T>>, start: int, end: int) {
    && (if pieces == [] then start == end else pieces[0].lo == start && pieces[|pieces| - 1].hi == end)
    && (forall i | 0 < i < |pieces| :: pieces[i - 1].hi == pieces[i].lo && pieces[i].lo in m)
    && (forall i | 0 <= i < |pieces| :: pieces[i].lo < pieces[i].hi && FromSegment(m, pieces[i]))
  }

  ghost predicate FromSegment<T>(m: Segments<T>, p: Piece<T>) {
    p.lo <= p.hi && exists k :: OneSegment(m, k, p.lo, p.hi - p.lo) && m[k].param == p.param
  }

  lemma TilesStep<T>(m: Segments<T>, pieces: seq<Piece<T>>, start: int, cur: int, k: int, end: int)
    requires Tiles(m, pieces, start, cur)
    requires k in m && k <= cur < end <= m[k].hi && (pieces != [] ==> k == cur)
    ensures Tiles(m, pieces + [Piece(cur, end, m[k].param)], start, end)
  {
  }

  /** An address behind segment x and in front of the next one has no label. */
  lemma Gap<T>(m: Segments<T>, labels: imap<int, T>, x: int, next: Iterator, a: int)
    requires Represents(m, labels) && x in m && StandsAt(m, x + 1, next)
    requires m[x].hi <= a && (next.At? ==> a < next.key)
    ensures a !in labels
  {
    assert forall k | k in m && k < x :: Apart(m, k, x);
  }

  /** Every tiled address carries the label of its piece. */
  lemma {:induction false} TilesLabels<T>(m: Segments<T>, labels: imap<int, T>, pieces: seq<Piece<T>>, start: int,
                                          end: int, a: int)
    returns (i: nat)
    requires Represents(m, labels) && Tiles(m, pieces, start, end) && start <= a < end
    ensures i < |pieces| && pieces[i].lo <= a < pieces[i].hi
    ensures a in labels && labels[a] == pieces[i].param
  {
    var last := |pieces| - 1;
    if pieces[last].lo <= a {
      i := last;
      var k :| OneSegment(m, k, pieces[i].lo, pieces[i].hi - pieces[i].lo) && m[k].param == pieces[i].param;
      assert Covers(m, k, a);
    } else {
      i := TilesLabels(m, labels, pieces[..last], start, pieces[last].lo, a);
    }
  }

  /** getSegments() answers with a single piece exactly when getParam() finds one segment for the whole request. */
  lemma SinglePiece<T>(m: Segments<T>, pieces: seq<Piece<T>>, start: int, count: nat)
    requires WellFormed(m) && count > 0 && Tiles(m, pieces, start, start + count)
    ensures |pieces| == 1 <==> exists k :: OneSegment(m, k, start, count)
  {
    var k0 :| OneSegment(m, k0, pieces[0].lo, pieces[0].hi - pieces[0].lo) && m[k0].param == pieces[0].param;
    if |pieces| > 1 && exists k :: OneSegment(m, k, start, count) {
      var k :| OneSegment(m, k, start, count);
      assert pieces[1].lo in m && start < pieces[1].lo < pieces[1].hi;
      assert Apart(m, k, pieces[1].lo);
      TilesEnd(m, pieces, start, start + count, 1);
    }
  }

  lemma {:induction false} TilesEnd<T>(m: Segments<T>, pieces: seq<Piece<T>>, start: int, end: int, i: nat)
    requires Tiles(m, pieces, start, end) && i < |pieces|
    ensures pieces[i].hi <= end
    decreases |pieces| - i
  {
    if i + 1 < |pieces| {
      TilesEnd(m, pieces, start, end, i + 1);
    }
  }

  ghost predicate Complete<T>(labels: imap<int, T>, start: int, count: int) {
    forall a | Within(start, start + count, a) :: a in labels
  }

  /** The loop of getSegments(): [start, cur) is cut and left addresses remain. */
  ghost predicate Cutting<T>(m: Segments<T>, labels: imap<int, T>, reply: seq<Piece<T>>, prev: Iterator,
                             start: int, count: int, cur: int, left: int) {
    && cur + left == start + count
    && (prev.At? ==> prev.key in m)
    && (left > 0 ==> start <= cur && Tiles(m, reply, start, cur))
    && (left > 0 && prev.At? ==>
          prev.key <= cur && (prev.key < cur ==> reply == [] && cur !in m && StandsBelow(m, cur, prev)))
    && (left > 0 && prev.End? ==> cur !in labels)
    && (left <= 0 && count > 0 ==> Tiles(m, reply, start, start + count))
    && (count <= 0 ==> reply == [] && left == count && prev.At? && prev.key <= start)
  }

  lemma CuttingSteps<T>(m: Segments<T>, labels: imap<int, T>, reply: seq<Piece<T>>, x: int, next: Iterator,
                        start: int, count: int, cur: int, left: int, reply': seq<Piece<T>>, cur': int, left': int)
    requires Represents(m, labels) && Cutting(m, labels, reply, At(x), start, count, cur, left) && left > 0
    requires StandsAt(m, x + 1, next)
    requires cur' - cur == left - left' == m[x].hi - cur
    requires reply' == reply + [Piece(cur, cur + Min(m[x].hi - cur, left), m[x].param)]
    ensures left' > 0 && !(next.At? && next.key == cur') ==> !Complete(labels, start, count)
    ensures left' <= 0 || next == At(cur') ==> Cutting(m, labels, reply', next, start, count, cur', left')
  {
    var size := m[x].hi - cur;
    if size > 0 {
      TilesStep(m, reply, start, cur, x, cur + Min(size, left));
    }
    assert cur' == m[x].hi && left' == left - size;
    if left' > 0 && !(next.At? && next.key == cur') {
      CuttingStops(m, labels, reply, x, next, start, count, cur, left);
    }
  }

  lemma CuttingStops<T>(m: Segments<T>, labels: imap<int, T>, reply: seq<Piece<T>>, x: int, next: Iterator,
                        start: int, count: int, cur: int, left: int)
    requires Represents(m, labels) && Cutting(m, labels, reply, At(x), start, count, cur, left) && left > 0
    requires StandsAt(m, x + 1, next) && left > m[x].hi - cur && next != At(m[x].hi)
    ensures !Complete(labels, start, count)
  {
    var a := if m[x].hi > cur then m[x].hi else cur;
    assert next.At? ==> Apart(m, x, next.key);
    Gap(m, labels, x, next, a);
    assert Within(start, start + count, a);
  }

  lemma CuttingEnds<T>(m: Segments<T>, labels: imap<int, T>, reply: seq<Piece<T>>, prev: Iterator,
                       start: int, count: int, cur: int, left: int)
    requires Represents(m, labels) && Cutting(m, labels, reply, prev, start, count, cur, left)
    requires left <= 0 || prev.End?
    ensures count > 0 ==> (left <= 0 <==> Complete(labels, start, count))
  {
    if left > 0 {
      assert Within(start, start + count, cur);
    } else {
      forall a | count > 0 && Within(start, start + count, a)
        ensures a in labels
      {
        var _ := TilesLabels(m, labels, reply, start, start + count, a);
      }
    }
  }

  /** The first segments of a range, those a walk in key order has passed when it stands at c. */
  ghost function Below<T>(m: Segments<T>, c: int): Segments<T> {
    map k | k in m && k < c :: m[k]
  }

  lemma NothingBelow<T>(m: Segments<T>, c: int)
    requires forall k | k in m :: c <= k
    ensures Below(m, c) == map[]
  {
  }

  lemma AllBelow<T>(m: Segments<T>, c: int)
    requires StandsAt(m, c, End)
    ensures Below(m, c) == m
  {
  }

  lemma BelowStep<T>(m: Segments<T>, c: int, x: int)
    requires WellFormed(m) && StandsAt(m, c, At(x))
    ensures Below(m, x + 1) == Below(m, c)[x := m[x]]
    ensures forall k | k in Below(m, c) :: k < x && m[k].hi <= x
  {
    assert forall k | k in m && k < x :: Apart(m, k, x);
  }

  /** Appending a segment behind all others adds its addresses. */
  lemma AppendedLabels<T>(m: Segments<T>, labels: imap<int, T>, x: int, e: Entry<T>)
    requires Represents(m, labels) && x <= e.hi && forall k | k in m :: k < x && m[k].hi <= x
    ensures Represents(m[x := e], labels + Span(x, e.hi, e.param))
  {
    var m' := m[x := e];
    forall k, l | k in m' && l in m' && k < l
      ensures Apart(m', k, l)
    {
      if l != x { assert Apart(m, k, l); }
    }
    forall k, a | Covers(m', k, a)
      ensures k != x ==> Covers(m, k, a)
    {
    }
    forall a | a in labels || Within(x, e.hi, a)
      ensures exists k :: Covers(m', k, a)
    {
      if Within(x, e.hi, a) {
        assert Covers(m', x, a);
      } else {
        var k :| Covers(m, k, a);
        assert Covers(m', k, a);
      }
    }
  }

  /** m' is m with all addresses moved by offset. */
  ghost predicate IsShift<T>(m: Segments<T>, m': Segments<T>, offset: int) {
    forall k, l | l == k + offset ::
      (k in m <==> l in m') && (k in m ==> m'[l] == Entry(m[k].hi + offset, m[k].param))
  }

  /** labels' is labels with all addresses moved by offset. */
  ghost predicate IsShiftedLabels<T>(labels: imap<int, T>, labels': imap<int, T>, offset: int) {
    forall a, b | b == a + offset :: (a in labels <==> b in labels') && (a in labels ==> labels'[b] == labels[a])
  }

  lemma ShiftSteps<T>(m: Segments<T>, m': Segments<T>, offset: int, x: int, e: Entry<T>)
    requires IsShift(m, m', offset)
    ensures IsShift(m[x := e], m'[x + offset := Entry(e.hi + offset, e.param)], offset)
  {
  }

  ghost function Moved<T>(labels: imap<int, T>, offset: int): imap<int, T> {
    imap a | InMoved(labels, offset, a) :: labels[a - offset]
  }

  predicate InMoved<T>(labels: imap<int, T>, offset: int, a: int) {
    a - offset in labels
  }

  lemma ShiftWellFormed<T>(m: Segments<T>, m': Segments<T>, offset: int)
    requires WellFormed(m) && IsShift(m, m', offset)
    ensures WellFormed(m') && (Solid(m) ==> Solid(m'))
  {
    forall k | k in m'
      ensures k <= m'[k].hi && (Solid(m) ==> k < m'[k].hi)
    {
      assert k - offset in m;
    }
    forall k, l | k in m' && l in m' && k < l
      ensures Apart(m', k, l)
    {
      assert k - offset in m && l - offset in m;
      assert Apart(m, k - offset, l - offset);
    }
  }

  /** Shifting commutes with lookup. */
  lemma ShiftLabels<T>(m: Segments<T>, labels: imap<int, T>, m': Segments<T>, offset: int)
    requires Represents(m, labels) && IsShift(m, m', offset)
    ensures Represents(m', Moved(labels, offset)) && (Solid(m) ==> Solid(m'))
    ensures IsShiftedLabels(labels, Moved(labels, offset), offset)
  {
    ShiftWellFormed(m, m', offset);
    forall k, a | Covers(m', k, a)
      ensures InMoved(labels, offset, a) && labels[a - offset] == m'[k].param
    {
      assert Covers(m, k - offset, a - offset);
    }
    forall a | InMoved(labels, offset, a)
      ensures exists k :: Covers(m', k, a)
    {
      var k :| Covers(m, k, a - offset);
      assert Covers(m', k + offset, a);
    }
  }

  ghost function Painted<T>(labels: imap<int, T>, obs: T): imap<int, T> {
    imap a | a in labels :: obs
  }

  /** Whether k is a key is the same in both, and its segment in q is that of r under obs. */
  ghost predicate SameAt<T>(r: Segments<T>, q: Segments<T>, obs: T, k: int) {
    (k in q <==> k in r) && (k in r ==> q[k] == Entry(r[k].hi, obs))
  }

  ghost predicate IsRelabelled<T>(r: Segments<T>, q: Segments<T>, obs: T) {
    forall k :: SameAt(r, q, obs, k)
  }

  /** m with every segment's parameter replaced by obs: what insert(range, obs) inserts. */
  lemma Relabelled<T>(m: Segments<T>, labels: imap<int, T>, obs: T) returns (m': Segments<T>)
    requires Represents(m, labels)
    ensures IsRelabelled(m, m', obs) && Represents(m', Painted(labels, obs))
  {
    m' := map k | k in m :: Entry(m[k].hi, obs);
    assert forall k, l | k in m' && l in m' && k < l :: Apart(m, k, l) && Apart(m', k, l);
    forall k, a
      ensures Covers(m', k, a) <==> Covers(m, k, a)
    {
    }
    forall a | a in labels
      ensures exists k :: Covers(m', k, a)
    {
      var k :| Covers(m, k, a);
      assert Covers(m', k, a);
    }
  }

  lemma SameKeys<T>(m: Segments<T>, m': Segments<T>, obs: T, c: int, it: Iterator)
    requires StandsAt(m, c, it) && forall k :: SameAt(m, m', obs, k)
    ensures StandsAt(m', c, it)
  {
    forall k
      ensures k in m' <==> k in m
    {
      assert SameAt(m, m', obs, k);
    }
  }

  lemma SameNext<T>(m: Segments<T>, m': Segments<T>, obs: T, k: int, next: Iterator)
    requires k in m' && StandsAt(m, k + 1, next) && forall l :: SameAt(m, m', obs, l)
    ensures k in m && m'[k] == Entry(m[k].hi, obs) && StandsAt(m', k + 1, next)
  {
    assert SameAt(m, m', obs, k);
    SameKeys(m, m', obs, k + 1, next);
  }

  lemma KeysFrom<T>(m: Segments<T>, m': Segments<T>, obs: T, c: int)
    requires (forall k | k in m :: c <= k) && forall k :: SameAt(m, m', obs, k)
    ensures forall k | k in m' :: c <= k
  {
    forall k
      ensures k in m' <==> k in m
    {
      assert SameAt(m, m', obs, k);
    }
  }

  /** The two maps agree wherever both have a label. */
  ghost predicate Compatible<T>(labels: imap<int, T>, labels': imap<int, T>) {
    forall a | a in labels && a in labels' :: labels[a] == labels'[a]
  }

  lemma CompatibleStep<T>(labels: imap<int, T>, done: imap<int, T>, start: int, end: int, param: T)
    requires Compatible(labels, done) && Agrees(labels + done, start, end, param)
    ensures Compatible(labels, done + Span(start, end, param))
  {
  }

  lemma SumAssociates<T>(a: imap<int, T>, b: imap<int, T>, c: imap<int, T>)
    ensures (a + b) + c == a + (b + c)
  {
  }

  /**
   * Inserting the segments of r in key order: those below c, whose meaning is done, have been added to a range
   * that meant labels0.
   */
  ghost predicate InsertingRange<T>(labels0: imap<int, T>, solid: bool, m: Segments<T>, labels: imap<int, T>,
                                    r: Segments<T>, done: imap<int, T>, c: int) {
    && WellFormed(r) && Represents(Below(r, c), done)
    && labels == labels0 + done && Compatible(labels0, done)
    && (solid ==> Solid(m) && Solid(r))
  }

  lemma InsertingRangeStarts<T>(m: Segments<T>, labels: imap<int, T>, r: Segments<T>, c: int, solid: bool)
    requires WellFormed(r) && forall k | k in r :: c <= k
    requires solid ==> Solid(m) && Solid(r)
    ensures InsertingRange(labels, solid, m, labels, r, imap[], c)
  {
  }

  lemma InsertingRangeSteps<T>(labels0: imap<int, T>, solid: bool, m: Segments<T>, labels: imap<int, T>, r: Segments<T>,
                               done: imap<int, T>, c: int, x: int, m': Segments<T>, labels': imap<int, T>)
    requires InsertingRange(labels0, solid, m, labels, r, done, c) && StandsAt(r, c, At(x))
    requires Represents(m, labels) && Accepts(m, x, r[x].hi - x, r[x].param)
    requires labels' == labels + Span(x, r[x].hi, r[x].param)
    requires Solid(m) && x < r[x].hi ==> Solid(m')
    ensures InsertingRange(labels0, solid, m', labels', r, done + Span(x, r[x].hi, r[x].param), x + 1)
  {
    BelowStep(r, c, x);
    AppendedLabels(Below(r, c), done, x, r[x]);
    SumAssociates(labels0, done, Span(x, r[x].hi, r[x].param));
    AcceptsAgrees(m, labels, x, r[x].hi - x, r[x].param);
    CompatibleStep(labels0, done, x, r[x].hi, r[x].param);
  }

  /** An address that is labelled differently, and not by the segments inserted so far, was labelled before. */
  lemma ClashBefore<T>(labels0: imap<int, T>, labels: imap<int, T>, below: Segments<T>, done: imap<int, T>,
                       x: int, end: int, param: T, all: imap<int, T>)
    requires Represents(below, done) && labels == labels0 + done && !Agrees(labels, x, end, param)
    requires forall k | k in below :: below[k].hi <= x
    requires forall a | Within(x, end, a) :: a in all && all[a] == param
    ensures !Compatible(labels0, all)
  {
  }

  lemma InsertingRangeRejects<T>(labels0: imap<int, T>, m: Segments<T>, labels: imap<int, T>, r: Segments<T>,
                                 all: imap<int, T>, done: imap<int, T>, c: int, x: int)
    requires InsertingRange(labels0, true, m, labels, r, done, c) && StandsAt(r, c, At(x))
    requires Represents(m, labels) && Represents(r, all) && !Accepts(m, x, r[x].hi - x, r[x].param)
    ensures !Compatible(labels0, all)
  {
    AcceptsIsAgreement(m, labels, x, r[x].hi - x, r[x].param);
    BelowStep(r, c, x);
    assert forall a | Within(x, r[x].hi, a) :: Covers(r, x, a);
    ClashBefore(labels0, labels, Below(r, c), done, x, r[x].hi, r[x].param, all);
  }

  /**
   * What a rejected insertion of the segments of r, meaning all, leaves: only labels of r are gained, and only
   * labels that are parameters of segments of r are lost.
   */
  ghost predicate Damaged<T>(labels: imap<int, T>, labels': imap<int, T>, r: Segments<T>, all: imap<int, T>) {
    && (forall a | a in labels' :: (a in labels && labels'[a] == labels[a]) || (a in all && labels'[a] == all[a]))
    && (forall a | a in labels && !(a in labels' && labels'[a] == labels[a]) ::
          exists k :: k in r && r[k].param == labels[a])
  }

  /** The same when all segments of r, labelling the addresses of all, are inserted under obs. */
  ghost predicate DamagedBy<T>(labels: imap<int, T>, labels': imap<int, T>, all: imap<int, T>, obs: T) {
    && (forall a | a in labels' :: (a in labels && labels'[a] == labels[a]) || (a in all && labels'[a] == obs))
    && (forall a | a in labels && !(a in labels' && labels'[a] == labels[a]) :: labels[a] == obs)
  }

  lemma RejectionDamages<T>(labels0: imap<int, T>, solid: bool, m: Segments<T>, labels: imap<int, T>, r: Segments<T>,
                            all: imap<int, T>, done: imap<int, T>, c: int, x: int, m': Segments<T>, d: int)
    requires InsertingRange(labels0, solid, m, labels, r, done, c) && StandsAt(r, c, At(x))
    requires Represents(m, labels) && Represents(r, all) && Rejected(m, m', x, r[x].hi - x, r[x].param, d)
    ensures Damaged(labels0, Remaining(labels, m'), r, all)
  {
    RejectedLosesOnlyOwn(m, labels, m', x, r[x].hi - x, r[x].param, d);
    forall a | a in done
      ensures a in all && all[a] == done[a]
    {
      var k :| Covers(Below(r, c), k, a);
      assert Covers(r, k, a);
    }
  }

  /** r consists of one segment. */
  ghost predicate IsAlone<T>(r: Segments<T>, k: int) {
    k in r && forall l | l in r :: l == k
  }

  ghost predicate IsLast<T>(r: Segments<T>, k: int) {
    k in r && forall l | l in r :: l <= k
  }

  /** Inserting the segments of r one by one, in the order of their keys, is never refused and makes m of m0. */
  ghost predicate Enters<T(!new)>(m0: Segments<T>, r: Segments<T>, m: Segments<T>)
    decreases |r|
  {
    if r == map[] then m == m0
    else exists k, m1 :: IsLast(r, k) && Enters(m0, r - {k}, m1) && EntersOne(m1, k, r[k], m)
  }

  ghost predicate EntersOne<T>(m: Segments<T>, k: int, e: Entry<T>, m': Segments<T>) {
    k <= e.hi && Accepts(m, k, e.hi - k, e.param) && IsOutcome(m, m', k, e.hi - k, e.param)
  }

  ghost predicate CanEnter<T(!new)>(m0: Segments<T>, r: Segments<T>) {
    exists m :: Enters(m0, r, m)
  }

  lemma EntersNext<T(!new)>(m0: Segments<T>, r: Segments<T>, c: int, x: int, m: Segments<T>, m': Segments<T>)
    requires Enters(m0, Below(r, c), m) && StandsAt(r, c, At(x)) && EntersOne(m, x, r[x], m')
    ensures Enters(m0, Below(r, x + 1), m')
  {
    PassedLast(r, c, x);
  }

  lemma PassedLast<T>(r: Segments<T>, c: int, x: int)
    requires StandsAt(r, c, At(x))
    ensures var s := Below(r, x + 1); s != map[] && IsLast(s, x) && s - {x} == Below(r, c) && s[x] == r[x]
  {
    assert x in Below(r, x + 1);
  }

  lemma EntersOneUnique<T>(m: Segments<T>, k: int, e: Entry<T>, m1: Segments<T>, m2: Segments<T>)
    requires WellFormed(m) && EntersOne(m, k, e, m1) && EntersOne(m, k, e, m2)
    ensures m1 == m2 && WellFormed(m1)
  {
    OutcomeUnique(m, m1, m2, k, e.hi - k, e.param);
    var labels := Meaning(m);
    OutcomeLabels(m, labels, m1, k, e.hi - k, e.param);
  }

  /** The result is determined. */
  lemma {:induction false} EntersUnique<T(!new)>(m0: Segments<T>, r: Segments<T>, m1: Segments<T>, m2: Segments<T>)
    requires WellFormed(m0) && Enters(m0, r, m1) && Enters(m0, r, m2)
    ensures m1 == m2 && WellFormed(m1)
    decreases |r|
  {
    if r != map[] {
      var k1, n1 :| IsLast(r, k1) && Enters(m0, r - {k1}, n1) && EntersOne(n1, k1, r[k1], m1);
      var k2, n2 :| IsLast(r, k2) && Enters(m0, r - {k2}, n2) && EntersOne(n2, k2, r[k2], m2);
      EntersUnique(m0, r - {k1}, n1, n2);
      EntersOneUnique(n1, k1, r[k1], m1, m2);
    }
  }

  /** Every segment is accepted where those before it have led. */
  lemma {:induction false} EntersEach<T(!new)>(m0: Segments<T>, r: Segments<T>, m: Segments<T>, x: int)
    returns (m1: Segments<T>)
    requires Enters(m0, r, m) && x in r
    ensures Enters(m0, Below(r, x), m1) && x <= r[x].hi && Accepts(m1, x, r[x].hi - x, r[x].param)
    decreases |r|
  {
    var k, before :| IsLast(r, k) && Enters(m0, r - {k}, before) && EntersOne(before, k, r[k], m);
    BelowLast(r, k, x);
    if k == x {
      m1 := before;
    } else {
      m1 := EntersEach(m0, r - {k}, before, x);
    }
  }

  lemma BelowLast<T>(r: Segments<T>, k: int, x: int)
    requires IsLast(r, k) && x in r
    ensures x <= k && Below(r, x) == if x == k then r - {k} else Below(r - {k}, x)
  {
  }

  /** Behind the segments of a copy there is nothing for the next one to conflict with. */
  lemma NextIsFree<T>(r: Segments<T>, m: Segments<T>, labels: imap<int, T>, x: int, count: nat, obs: T)
    requires Represents(r, labels) && Represents(m, labels) && forall k | k in m :: k in r
    requires forall k | k in r :: k < x && r[k].hi <= x
    ensures Accepts(m, x, count, obs)
  {
    forall k | k in m
      ensures m[k].hi <= x
    {
      if k < m[k].hi {
        assert Covers(m, k, m[k].hi - 1);
        var l :| Covers(r, l, m[k].hi - 1);
      }
    }
  }

  lemma LastApart<T>(r: Segments<T>, x: int)
    requires WellFormed(r) && IsLast(r, x)
    ensures var rest := r - {x};
      r != map[] && WellFormed(rest) && rest[x := r[x]] == r && forall k | k in rest :: k < x && rest[k].hi <= x
  {
    var rest := r - {x};
    assert forall k | k in rest :: Apart(r, k, x);
    assert forall k, l | k in rest && l in rest && k < l :: Apart(r, k, l) && Apart(rest, k, l);
    assert forall k | k in r :: k in rest[x := r[x]];
  }

  lemma HasLast<T>(r: Segments<T>)
    ensures r == map[] || exists x :: IsLast(r, x)
  {
    if k :| k in r {
      var _, last := ExtremeKeys(r.Keys, k);
      assert IsLast(r, last);
    } else {
      assert forall k :: k !in r;
    }
  }

  lemma EnteredLabels<T>(m: Segments<T>, labels: imap<int, T>, k: int, e: Entry<T>, m': Segments<T>)
    requires Represents(m, labels) && EntersOne(m, k, e, m')
    ensures Represents(m', labels + Span(k, e.hi, e.param))
  {
    var count, all := e.hi - k, labels + Span(k, e.hi, e.param);
    OutcomeLabels(m, labels, m', k, count, e.param);
    assert labels + Span(k, k + count, e.param) == all;
    assert Represents(m', all);
  }

  lemma EnteredKeys<T>(m: Segments<T>, k: int, e: Entry<T>, m': Segments<T>)
    requires WellFormed(m) && EntersOne(m, k, e, m')
    ensures forall l | l in m' :: l in m || l == k
  {
    OutcomeKeys(m, m', k, e.hi - k, e.param);
  }

  lemma EnteredOne<T>(m: Segments<T>, labels: imap<int, T>, k: int, e: Entry<T>) returns (m': Segments<T>)
    requires Represents(m, labels) && k <= e.hi && Accepts(m, k, e.hi - k, e.param)
    ensures EntersOne(m, k, e, m') && Represents(m', labels + Span(k, e.hi, e.param))
    ensures forall l | l in m' :: l in m || l == k
  {
    m' := OutcomeExists(m, k, e.hi - k, e.param);
    EnteredLabels(m, labels, k, e, m');
    EnteredKeys(m, k, e, m');
  }

  lemma CopyNext<T>(r: Segments<T>, labels: imap<int, T>, m: Segments<T>, x: int, e: Entry<T>) returns (m': Segments<T>)
    requires Represents(r, labels) && Represents(m, labels) && x <= e.hi
    requires (forall k | k in m :: k in r) && forall k | k in r :: k < x && r[k].hi <= x
    ensures EntersOne(m, x, e, m') && Represents(r[x := e], labels + Span(x, e.hi, e.param))
    ensures Represents(m', labels + Span(x, e.hi, e.param)) && forall k | k in m' :: k in r || k == x
  {
    NextIsFree(r, m, labels, x, e.hi - x, e.param);
    m' := EnteredOne(m, labels, x, e);
    AppendedLabels(r, labels, x, e);
  }

  /** Main result: the segments of a range can always be inserted into an empty one; that keeps their meaning. */
  lemma {:induction false} CopyEnters<T(!new)>(r: Segments<T>, labels: imap<int, T>) returns (m: Segments<T>)
    requires Represents(r, labels)
    ensures Enters(map[], r, m) && Represents(m, labels) && forall k | k in m :: k in r
    decreases |r|
  {
    HasLast(r);
    if r == map[] {
      m := map[];
    } else {
      var x :| IsLast(r, x);
      LastApart(r, x);
      var rest := r - {x};
      var labels1 := Meaning(rest);
      var m1 := CopyEnters(rest, labels1);
      m := CopyNext(rest, labels1, m1, x, r[x]);
      UniqueMeaning(r, labels, labels1 + Span(x, r[x].hi, r[x].param));
    }
  }

  /** The segments of r can be inserted into an empty range, and m is what that makes, moved by offset. */
  ghost predicate EntersMoved<T(!new)>(r: Segments<T>, m: Segments<T>, offset: int) {
    exists mid :: Enters(map[], r, mid) && IsShift(mid, m, offset)
  }

  lemma ShiftedOnce<T>(m: Segments<T>, m1: Segments<T>, m2: Segments<T>, offset: int)
    requires IsShift(m, m1, offset) && IsShift(m, m2, offset)
    ensures m1 == m2
  {
    forall l
      ensures (l in m1 <==> l in m2) && (l in m1 ==> m1[l] == m2[l])
    {
      var k := l - offset;
      assert (k in m <==> l in m1) && (k in m <==> l in m2);
    }
  }

  lemma EntersMovedUnique<T(!new)>(r: Segments<T>, m1: Segments<T>, m2: Segments<T>, offset: int)
    requires EntersMoved(r, m1, offset) && EntersMoved(r, m2, offset)
    ensures m1 == m2
  {
    var mid1 :| Enters(map[], r, mid1) && IsShift(mid1, m1, offset);
    var mid2 :| Enters(map[], r, mid2) && IsShift(mid2, m2, offset);
    EntersUnique(map[], r, mid1, mid2);
    ShiftedOnce(mid1, m1, m2, offset);
  }

  /** Once a segment is refused, there is no way for the segments to enter. */
  lemma RefusedCannotEnter<T(!new)>(m0: Segments<T>, r: Segments<T>, c: int, x: int, m: Segments<T>)
    requires WellFormed(m0) && Enters(m0, Below(r, c), m) && StandsAt(r, c, At(x))
    requires x <= r[x].hi && !Accepts(m, x, r[x].hi - x, r[x].param)
    ensures !CanEnter(m0, r)
  {
    assert Below(r, x) == Below(r, c);
    if CanEnter(m0, r) {
      var m' :| Enters(m0, r, m');
      var m1 := EntersEach(m0, r, m', x);
      EntersUnique(m0, Below(r, x), m, m1);
    }
  }

  /** What inserting all segments of r, meaning all, makes of a range. */
  ghost predicate RangeInserted<T(!new)>(m0: Segments<T>, labels0: imap<int, T>, m: Segments<T>, labels: imap<int, T>,
                                         r: Segments<T>, all: imap<int, T>, ok: bool)
    requires WellFormed(r)
  {
    && Represents(m, labels) && (ok <==> CanEnter(m0, r)) && (ok ==> Enters(m0, r, m))
    && (if ok then labels == labels0 + all else Damaged(labels0, labels, r, all))
    && (Solid(m0) && Solid(r) ==> (ok <==> Compatible(labels0, all)) && (ok ==> Solid(m)))
    && (forall k | IsAlone(r, k) :: Inserted(m0, labels0, m, labels, k, r[k].hi - k, r[k].param, ok))
  }

  /** The same under one parameter. */
  ghost predicate RangeInsertedAs<T(!new)>(m0: Segments<T>, labels0: imap<int, T>, m: Segments<T>, labels: imap<int, T>,
                                           r: Segments<T>, all: imap<int, T>, obs: T, ok: bool)
    requires WellFormed(r)
  {
    && Represents(m, labels)
    && (forall q | IsRelabelled(r, q, obs) :: (ok <==> CanEnter(m0, q)) && (ok ==> Enters(m0, q, m)))
    && (if ok then labels == labels0 + Painted(all, obs) else DamagedBy(labels0, labels, all, obs))
    && (Solid(m0) && Solid(r) ==> (ok <==> Compatible(labels0, Painted(all, obs))) && (ok ==> Solid(m)))
    && (forall k | IsAlone(r, k) :: Inserted(m0, labels0, m, labels, k, r[k].hi - k, obs, ok))
  }

  lemma RelabelledOnce<T>(r: Segments<T>, q: Segments<T>, q': Segments<T>, obs: T)
    requires IsRelabelled(r, q, obs) && IsRelabelled(r, q', obs)
    ensures q' == q
  {
    forall k
      ensures (k in q' <==> k in q) && (k in q ==> q'[k] == q[k])
    {
      assert SameAt(r, q, obs, k) && SameAt(r, q', obs, k);
    }
  }

  lemma InsertedAs<T(!new)>(m0: Segments<T>, labels0: imap<int, T>, m: Segments<T>, labels: imap<int, T>,
                            r: Segments<T>, q: Segments<T>, all: imap<int, T>, obs: T, ok: bool)
    requires forall k :: SameAt(r, q, obs, k)
    requires WellFormed(r) && WellFormed(q) && RangeInserted(m0, labels0, m, labels, q, Painted(all, obs), ok)
    ensures RangeInsertedAs(m0, labels0, m, labels, r, all, obs, ok)
  {
    forall k
      ensures (k in q <==> k in r) && (k in r ==> q[k] == Entry(r[k].hi, obs))
    {
      assert SameAt(r, q, obs, k);
    }
    forall k | IsAlone(r, k)
      ensures IsAlone(q, k)
    {
    }
    forall q' | IsRelabelled(r, q', obs)
      ensures q' == q
    {
      RelabelledOnce(r, q, q', obs);
    }
  }

  /** The loop over the segments of r. */
  ghost predicate RangeLoop<T(!new)>(m0: Segments<T>, labels0: imap<int, T>, m: Segments<T>, labels: imap<int, T>,
                                     r: Segments<T>, done: imap<int, T>, c: int, it: Iterator) {
    && Represents(m, labels) && StandsAt(r, c, it)
    && InsertingRange(labels0, Solid(m0) && Solid(r), m, labels, r, done, c)
    && WellFormed(m0) && Enters(m0, Below(r, c), m)
    && (forall k | IsAlone(r, k) ::
          if it.At? then m == m0 && labels == labels0
          else Inserted(m0, labels0, m, labels, k, r[k].hi - k, r[k].param, true))
  }

  lemma RangeLoopStarts<T(!new)>(m: Segments<T>, labels: imap<int, T>, r: Segments<T>, c: int, it: Iterator)
    requires Represents(m, labels) && WellFormed(r) && StandsAt(r, c, it)
    requires forall k | k in r :: c <= k
    ensures RangeLoop(m, labels, m, labels, r, imap[], c, it)
  {
    InsertingRangeStarts(m, labels, r, c, Solid(m) && Solid(r));
    NothingBelow(r, c);
  }

  lemma RangeLoopSteps<T(!new)>(m0: Segments<T>, labels0: imap<int, T>, m: Segments<T>, labels: imap<int, T>,
                                r: Segments<T>, done: imap<int, T>, c: int, x: int, m': Segments<T>,
                                labels': imap<int, T>, next: Iterator)
    requires RangeLoop(m0, labels0, m, labels, r, done, c, At(x)) && StandsAt(r, x + 1, next)
    requires Inserted(m, labels, m', labels', x, r[x].hi - x, r[x].param, true)
    ensures RangeLoop(m0, labels0, m', labels', r, done + Span(x, r[x].hi, r[x].param), x + 1, next)
  {
    InsertingRangeSteps(labels0, Solid(m0) && Solid(r), m, labels, r, done, c, x, m', labels');
    EntersNext(m0, r, c, x, m, m');
  }

  lemma RangeLoopRejects<T(!new)>(m0: Segments<T>, labels0: imap<int, T>, m: Segments<T>, labels: imap<int, T>,
                                  r: Segments<T>, all: imap<int, T>, done: imap<int, T>, c: int, x: int,
                                  m': Segments<T>, labels': imap<int, T>)
    requires RangeLoop(m0, labels0, m, labels, r, done, c, At(x)) && Represents(r, all)
    requires Inserted(m, labels, m', labels', x, r[x].hi - x, r[x].param, false)
    ensures RangeInserted(m0, labels0, m', labels', r, all, false)
  {
    var solid := Solid(m0) && Solid(r);
    var d :| Rejected(m, m', x, r[x].hi - x, r[x].param, d);
    RejectionDamages(labels0, solid, m, labels, r, all, done, c, x, m', d);
    if solid {
      InsertingRangeRejects(labels0, m, labels, r, all, done, c, x);
    }
    assert forall k | IsAlone(r, k) :: k == x;
    RefusedCannotEnter(m0, r, c, x, m);
  }

  lemma RangeLoopEnds<T(!new)>(m0: Segments<T>, labels0: imap<int, T>, m: Segments<T>, labels: imap<int, T>,
                               r: Segments<T>, all: imap<int, T>, done: imap<int, T>, c: int)
    requires RangeLoop(m0, labels0, m, labels, r, done, c, End) && Represents(r, all)
    ensures RangeInserted(m0, labels0, m, labels, r, all, true)
  {
    InsertingRangeEnds(labels0, Solid(m0) && Solid(r), m, labels, r, all, done, c);
    AllBelow(r, c);
  }

  lemma InsertingRangeEnds<T>(labels0: imap<int, T>, solid: bool, m: Segments<T>, labels: imap<int, T>, r: Segments<T>,
                              all: imap<int, T>, done: imap<int, T>, c: int)
    requires InsertingRange(labels0, solid, m, labels, r, done, c) && StandsAt(r, c, End) && Represents(r, all)
    ensures labels == labels0 + all && (solid ==> Solid(m) && Compatible(labels0, all))
  {
    AllBelow(r, c);
    UniqueMeaning(r, done, all);
  }

  lemma AloneIsOne<T>(r: Segments<T>, k: int)
    requires IsAlone(r, k)
    ensures r == map[][k := r[k]]
  {
    forall l
      ensures l in r <==> l in map[][k := r[k]]
    {
    }
  }

  ghost predicate Included<T>(m: Segments<T>, m': Segments<T>) {
    forall k | k in m :: k in m' && m'[k] == m[k]
  }

  /** What operator== tests is equality exactly if the two ranges have the same number of segments. */
  lemma InclusionIsEquality<T>(m: Segments<T>, m': Segments<T>)
    requires Included(m, m')
    ensures m == m' <==> |m| == |m'|
  {
    forall k | k in m
      ensures k in m' && m'[k] == m[k]
    {
    }
    LargestSubmap(m, m');
  }

  /** The empty range counts as equal to any other, which does not count as equal to it. */
  lemma EqualOneWay<T>(param: T)
    ensures var m: Segments<T> := map[]; var m': Segments<T> := map[0 := Entry(1, param)];
      Included(m, m') && !Included(m', m) && m != m'
  {
    var m': Segments<T> := map[0 := Entry(1, param)];
    assert 0 in m';
  }

  lemma LargestSubmap<K, V>(m: map<K, V>, m': map<K, V>)
    requires forall k | k in m :: k in m' && m'[k] == m[k]
    ensures m == m' <==> |m| == |m'|
  {
    if |m| == |m'| {
      SameSize(m.Keys, m'.Keys);
    }
  }

  lemma {:induction false} SameSize<K>(s: set<K>, t: set<K>)
    requires s <= t && |s| == |t|
    ensures s == t
    decreases |s|
  {
    if x :| x in s {
      SameSize(s - {x}, t - {x});
      assert s == (s - {x}) + {x} && t == (t - {x}) + {x};
    }
  }

  class TAddressRange<T(==, !new)> {
    var m: Segments<T>

    /** The meaning of m. */
    ghost var labels: imap<int, T>

    ghost predicate Valid()
      reads this
    {
      Represents(m, labels)
    }

    constructor ()
      ensures Valid() && m == map[] && labels == imap[]
    {
      m := map[];
      labels := imap[];
    }

    /** A copy of a stored range. */
    constructor Copy(segments: Segments<T>)
      requires WellFormed(segments)
      ensures Valid() && m == segments
    {
      ghost var meaning := Meaning(segments);
      m, labels := segments, meaning;
    }

    /** TAddressRange(start, count, obs): a range of one segment. */
    constructor Single(start: int, count: nat, obs: T)
      ensures Valid() && m == map[start := Entry(start + count, obs)]
      ensures labels == Span(start, start + count, obs)
      ensures count > 0 ==> Solid(m)
    {
      m := map[];
      labels := imap[];
      new;
      var _ := Insert(start, count, obs);
      assert labels == imap[] + Span(start, start + count, obs);
    }

    /** Adds [start, start + count) under obs, absorbing same-parameter segments it reaches. */
    method Insert(start: int, count: nat, obs: T) returns (ok: bool)
      requires Valid()
      modifies this
      ensures Valid() && Inserted(old(m), old(labels), m, labels, start, count, obs, ok)
    {
      var s := start;
      var prev := LowerBound(m, start);
      var back := LastBelow(m, start);
      if back.At? {
        prev := back;
      }
      if prev.At? && m[prev.key].hi >= start && prev.key < start {
        if m[prev.key].param != obs {
          if m[prev.key].hi > start {
            RejectsAtOnce(m, labels, back.key, start, count, obs);
            return false;
          }
        } else {
          s := prev.key;
        }
      }
      ok := MergeInner(back, s, start, count, obs);
    }

    /** The loop of insert(): erases the segments it absorbs, up to the first one with another parameter. */
    method Absorb(ghost back: Iterator, s: int, start: int, count: nat, obs: T)
      returns (inner: Iterator, end: int, ghost c: int)
      requires WellFormed(m) && Extends(m, back, s, start, obs)
      modifies this`m
      ensures AbsorbLoop(old(m), m, inner, s, c, end, start, count, obs)
      ensures inner.At? && inner.key < end ==> inner.key in m && m[inner.key].param != obs
    {
      end := start + count;
      inner := LowerBound(m, s);
      c := s;
      ghost var m0 := m;
      LoopStarts(m, back, inner, s, start, count, obs);
      while inner.At? && inner.key < end
        invariant AbsorbLoop(m0, m, inner, s, c, end, start, count, obs)
        decreases |m|
      {
        if m[inner.key].param != obs {
          return;
        }
        var next := LowerBound(m, inner.key + 1);
        LoopSteps(m0, m, inner, s, c, end, start, count, obs, next);
        if m[inner.key].hi > end {
          end := m[inner.key].hi;
        }
        m := m - {inner.key};
        c, inner := inner.key + 1, next;
      }
    }

    /** The second half of insert(): erases the inner segments and creates the new large one. */
    method MergeInner(ghost back: Iterator, s: int, start: int, count: nat, obs: T) returns (ok: bool)
      requires Valid() && Extends(m, back, s, start, obs)
      modifies this
      ensures Inserted(old(m), old(labels), m, labels, start, count, obs, ok)
    {
      ghost var m0 := m;
      var inner, end, c := Absorb(back, s, start, count, obs);
      if inner.At? && inner.key < end {
        LoopRejects(m0, labels, m, inner, s, c, end, start, count, obs);
        labels := Remaining(labels, m);
        return false;
      }
      LoopFinishes(m0, labels, m, inner, s, c, end, start, count, obs);
      m := Emplaced(m, s, Entry(end, obs));
      labels := labels + Span(start, start + count, obs);
      return true;
    }

    /** m.begin() */
    method First() returns (it: Iterator)
      ensures it.End? ==> forall k :: k !in m
      ensures it.At? ==> StandsAt(m, it.key, it) && forall k | k in m :: it.key <= k
    {
      if exists z :: z in m {
        var z :| z in m;
        ghost var first, _ := ExtremeKeys(m.Keys, z);
        assert first in m && forall y | y in m :: first <= y;
        var x :| x in m && forall y | y in m :: x <= y;
        return At(x);
      }
      return End;
    }

    /** One pass of the loops of insert(range) and insert(range, obs). */
    method InsertSegment(k: int, hi: int, param: T, ghost m0: Segments<T>, ghost labels0: imap<int, T>,
                         ghost r: Segments<T>, ghost all: imap<int, T>, ghost done: imap<int, T>, ghost c: int,
                         ghost next: Iterator)
      returns (ok: bool, ghost done': imap<int, T>)
      requires RangeLoop(m0, labels0, m, labels, r, done, c, At(k)) && r[k] == Entry(hi, param)
      requires Represents(r, all) && StandsAt(r, k + 1, next)
      modifies this
      ensures if ok then RangeLoop(m0, labels0, m, labels, r, done', k + 1, next)
              else RangeInserted(m0, labels0, m, labels, r, all, false)
    {
      ghost var m1, labels1 := m, labels;
      ok := Insert(k, hi - k, param);
      done' := done + Span(k, hi, param);
      if ok {
        RangeLoopSteps(m0, labels0, m1, labels1, r, done, c, k, m, labels, next);
      } else {
        RangeLoopRejects(m0, labels0, m1, labels1, r, all, done, c, k, m, labels);
      }
    }

    /** One pass of the loop of insert(range). */
    method InsertNext(r: Segments<T>, k: int, ghost m0: Segments<T>, ghost labels0: imap<int, T>,
                      ghost all: imap<int, T>, ghost done: imap<int, T>, ghost c: int)
      returns (ok: bool, next: Iterator, ghost done': imap<int, T>, ghost c': int)
      requires RangeLoop(m0, labels0, m, labels, r, done, c, At(k)) && Represents(r, all)
      modifies this
      ensures if ok then RangeLoop(m0, labels0, m, labels, r, done', c', next)
              else RangeInserted(m0, labels0, m, labels, r, all, false)
      ensures c <= k < c' && k in r
    {
      next := LowerBound(r, k + 1);
      c' := k + 1;
      ok, done' := InsertSegment(k, r[k].hi, r[k].param, m0, labels0, r, all, done, c, next);
    }

    /** insert(const TAddressRange&): adds every segment of range under its own parameter. */
    method InsertRange(range: TAddressRange<T>) returns (ok: bool)
      requires Valid() && range.Valid() && range != this
      modifies this
      ensures Valid() && RangeInserted(old(m), old(labels), m, labels, range.m, range.labels, ok)
    {
      var r := range.m;
      var it := range.First();
      ghost var c, done := if it.At? then it.key else 0, imap[];
      ghost var m0, labels0, all := m, labels, range.labels;
      ghost var top := KeyBound(r);
      RangeLoopStarts(m, labels, r, c, it);
      while it.At?
        invariant RangeLoop(m0, labels0, m, labels, r, done, c, it)
        decreases top - c
      {
        ok, it, done, c := InsertNext(r, it.key, m0, labels0, all, done, c);
        if !ok {
          return;
        }
      }
      RangeLoopEnds(m0, labels0, m, labels, r, all, done, c);
      ok := true;
    }

    /** insert(range, obs): adds every segment of range under obs. */
    method InsertRangeAs(range: TAddressRange<T>, obs: T) returns (ok: bool)
      requires Valid() && range.Valid() && range != this
      modifies this
      ensures Valid() && RangeInsertedAs(old(m), old(labels), m, labels, range.m, range.labels, obs, ok)
    {
      ghost var m0, labels0 := m, labels;
      ghost var q := Relabelled(range.m, range.labels, obs);
      ok := InsertAllAs(range, obs, q, Painted(range.labels, obs));
      InsertedAs(m0, labels0, m, labels, range.m, q, range.labels, obs, ok);
    }

    /** Where that loop begins. */
    method FirstAs(range: TAddressRange<T>, obs: T, ghost q: Segments<T>) returns (it: Iterator, ghost c: int)
      requires Valid() && WellFormed(q) && forall k :: SameAt(range.m, q, obs, k)
      ensures RangeLoop(m, labels, m, labels, q, imap[], c, it) && (it.At? ==> it.key in range.m)
    {
      it := range.First();
      c := if it.At? then it.key else 0;
      SameKeys(range.m, q, obs, c, it);
      KeysFrom(range.m, q, obs, c);
      RangeLoopStarts(m, labels, q, c, it);
    }

    /** One pass of the loop of insert(range, obs). */
    method InsertNextAs(r: Segments<T>, k: int, obs: T, ghost q: Segments<T>, ghost m0: Segments<T>,
                        ghost labels0: imap<int, T>, ghost all: imap<int, T>, ghost done: imap<int, T>, ghost c: int)
      returns (ok: bool, next: Iterator, ghost done': imap<int, T>, ghost c': int)
      requires RangeLoop(m0, labels0, m, labels, q, done, c, At(k)) && k in r && Represents(q, all)
      requires forall l :: SameAt(r, q, obs, l)
      modifies this
      ensures if ok then RangeLoop(m0, labels0, m, labels, q, done', c', next)
              else RangeInserted(m0, labels0, m, labels, q, all, false)
      ensures c <= k < c' && k in q && (next.At? ==> next.key in r)
    {
      next := LowerBound(r, k + 1);
      c' := k + 1;
      SameNext(r, q, obs, k, next);
      ok, done' := InsertSegment(k, r[k].hi, obs, m0, labels0, q, all, done, c, next);
    }

    /** The loop of insert(range, obs), in terms of the relabelled range q. */
    method InsertAllAs(range: TAddressRange<T>, obs: T, ghost q: Segments<T>, ghost all: imap<int, T>)
      returns (ok: bool)
      requires Valid() && range != this && Represents(q, all)
      requires forall k :: SameAt(range.m, q, obs, k)
      modifies this
      ensures RangeInserted(old(m), old(labels), m, labels, q, all, ok)
    {
      var r := range.m;
      var it, c := FirstAs(range, obs, q);
      ghost var m0, labels0, done := m, labels, imap[];
      ghost var top := KeyBound(q);
      while it.At?
        invariant RangeLoop(m0, labels0, m, labels, q, done, c, it) && (it.At? ==> it.key in r)
        decreases top - c
      {
        ok, it, done, c := InsertNextAs(r, it.key, obs, q, m0, labels0, all, done, c);
        if !ok {
          return;
        }
      }
      RangeLoopEnds(m0, labels0, m, labels, q, all, done, c);
      ok := true;
    }

    /** shift(): moves every address by offset. */
    method Shift(offset: int)
      requires Valid()
      modifies this
      ensures Valid() && IsShift(old(m), m, offset) && labels == Moved(old(labels), offset)
      ensures Solid(old(m)) ==> Solid(m)
    {
      var segments, nmap: Segments<T> := m, map[];
      ghost var labels0 := labels;
      var it := First();
      ghost var c := if it.At? then it.key else 0;
      ghost var top := KeyBound(m);
      NothingBelow(m, c);
      while it.At?
        invariant unchanged(this)
        invariant StandsAt(segments, c, it) && IsShift(Below(segments, c), nmap, offset)
        decreases top - c
      {
        var k, e := it.key, segments[it.key];
        it := LowerBound(segments, k + 1);
        BelowStep(segments, c, k);
        ShiftSteps(Below(segments, c), nmap, offset, k, e);
        nmap := nmap[k + offset := Entry(e.hi + offset, e.param)];
        c := k + 1;
      }
      AllBelow(segments, c);
      ShiftLabels(segments, labels0, nmap, offset);
      m, labels := nmap, Moved(labels, offset);
    }

    /** operator+(int): a shifted copy; the copy re-inserts the segments and so may merge some, but none is refused. */
    method Plus(offset: int) returns (ret: TAddressRange<T>)
      requires Valid()
      ensures fresh(ret) && ret.Valid()
      ensures ret.labels == Moved(labels, offset) && EntersMoved(m, ret.m, offset)
      ensures Solid(m) ==> Solid(ret.m)
      ensures forall k | IsAlone(m, k) :: IsShift(m, ret.m, offset)
    {
      ret := new TAddressRange();
      var ok := ret.InsertRange(this);
      var _ := CopyEnters(m, labels);
      assert ok && ret.labels == imap[] + labels == labels;
      forall k | IsAlone(m, k)
        ensures ret.m == m
      {
        AloneIsOne(m, k);
      }
      ret.Shift(offset);
    }

    /** getEnd(): one behind the last address; "empty range" is thrown when there is none. */
    method GetEnd() returns (r: Result<int>)
      requires Valid()
      ensures r.Ok? <==> exists k :: k in m
      ensures r.Ok? ==> forall k | IsLast(m, k) :: r.value == m[k].hi
      ensures r.Ok? ==> forall a | a in labels :: a < r.value
      ensures r.Ok? && Solid(m) ==> r.value - 1 in labels
    {
      if exists z :: z in m {
        var z :| z in m;
        ghost var _, last := ExtremeKeys(m.Keys, z);
        assert last in m && forall y | y in m :: y <= last;
        var x :| x in m && forall y | y in m :: y <= x;
        assert forall k | k in m && k < x :: Apart(m, k, x);
        assert Solid(m) ==> Covers(m, x, m[x].hi - 1);
        return Ok(m[x].hi);
      }
      return WrongSegment;
    }

    /** getParam(start, count): the parameter of the one segment that contains the whole request. */
    method GetParam(start: int, count: nat) returns (r: Result<T>)
      requires Valid()
      ensures r.Ok? <==> exists k :: OneSegment(m, k, start, count)
      ensures r.Ok? ==> forall a | Within(start, start + count, a) :: a in labels && labels[a] == r.value
    {
      var prev := LowerBound(m, start);
      if !(prev.At? && prev.key == start) {
        prev := LastBelow(m, start);
        if prev.End? {
          return WrongSegment;
        }
      }
      ghost var x := prev.key;
      assert forall k | k in m && k < x :: Apart(m, k, x);
      if m[prev.key].hi >= start + count {
        assert OneSegment(m, x, start, count);
        assert forall a | Within(start, start + count, a) :: Covers(m, x, a);
        return Ok(m[prev.key].param);
      }
      return WrongSegment;
    }

    /** inRange() */
    method InRange(start: int, count: nat) returns (within: bool)
      requires Valid()
      ensures within <==> exists k :: OneSegment(m, k, start, count)
    {
      var param := GetParam(start, count);
      within := param.Ok?;
    }

    /** operator==: looks for every segment of this range among those of r, but not the other way round. */
    method EqualTo(r: TAddressRange<T>) returns (equal: bool)
      ensures equal <==> Included(m, r.m)
    {
      var it := First();
      ghost var c := if it.At? then it.key else 0;
      ghost var top := KeyBound(m);
      while it.At?
        invariant StandsAt(m, c, it) && forall k | k in m && k < c :: k in r.m && r.m[k] == m[k]
        decreases top - c
      {
        var k := it.key;
        if k !in r.m || r.m[k] != m[k] {
          return false;
        }
        it := LowerBound(m, k + 1);
        c := k + 1;
      }
      return true;
    }

    /** getSegments(): cuts [start, start + count) into pieces of the segments that cover it. */
    method GetSegments(start: int, count: int) returns (r: Result<seq<Piece<T>>>)
      requires Valid()
      ensures count > 0 ==> (r.Ok? <==> Complete(labels, start, count))
      ensures count > 0 && r.Ok? ==> Tiles(m, r.value, start, start + count)
      ensures count <= 0 ==> r == if exists k :: k in m && k <= start then Ok([]) else WrongSegment
    {
      var reply: seq<Piece<T>> := [];
      var cur, left := start, count;
      var prev := LowerBound(m, start);
      if !(prev.At? && prev.key == start) {
        prev := LastBelow(m, start);
        if prev.End? {
          assert count > 0 ==> Within(start, start + count, start) && start !in labels;
          return WrongSegment;
        }
      }
      ghost var top := KeyBound(m);
      while left > 0 && prev.At?
        invariant Cutting(m, labels, reply, prev, start, count, cur, left)
        decreases left > 0, if prev.At? then top - prev.key else 0
      {
        var x := prev.key;
        var size := m[x].hi - cur;
        prev := LowerBound(m, x + 1);
        ghost var reply0, cur0, left0 := reply, cur, left;
        reply := reply + [Piece(cur, cur + Min(size, left), m[x].param)];
        cur, left := cur + size, left - size;
        CuttingSteps(m, labels, reply0, x, prev, start, count, cur0, left0, reply, cur, left);
        if left > 0 && !(prev.At? && prev.key == cur) {
          return WrongSegment;
        }
      }
      CuttingEnds(m, labels, reply, prev, start, count, cur, left);
      return if left > 0 then WrongSegment else Ok(reply);
    }
  }
}
