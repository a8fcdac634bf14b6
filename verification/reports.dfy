/**
 * What the meeting page and the meeting report select and in what order:
 * the live page lists all statements newest first; the report lists the
 * "general" motions and statements (those linked to no agenda item), the
 * statements oldest first.
 */
module Reports {
  import opened Outcomes
  import opened Tables
  import opened Records
  import opened Quorum

  /** `a` may be listed before `b`: oldest first, or newest first. */
  predicate InOrder(a: Statement, b: Statement, newestFirst: bool) {
    if newestFirst then a.timestamp >= b.timestamp else a.timestamp <= b.timestamp
  }

  predicate Ordered(xs: seq<Statement>, newestFirst: bool) {
    forall i, j :: 0 <= i < j < |xs| ==> InOrder(xs[i], xs[j], newestFirst)
  }

  /** No two different statements share a timestamp. */
  predicate DistinctTimes(xs: seq<Statement>) {
    forall x, y :: x in xs && y in xs && x.timestamp == y.timestamp ==> x == y
  }

  /** `x` placed into an ordered list, ahead of the entries with the same timestamp. */
  function Insert(x: Statement, xs: seq<Statement>, newestFirst: bool): seq<Statement> {
    if |xs| == 0 then [x]
    else if InOrder(x, xs[0], newestFirst) then [x] + xs
    else [xs[0]] + Insert(x, xs[1..], newestFirst)
  }

  lemma {:induction false} InsertMultiset(x: Statement, xs: seq<Statement>, newestFirst: bool)
    ensures multiset(Insert(x, xs, newestFirst)) == multiset(xs) + multiset{x}
  {
    if |xs| > 0 && !InOrder(x, xs[0], newestFirst) {
      InsertMultiset(x, xs[1..], newestFirst);
      assert xs == [xs[0]] + xs[1..];
    }
  }

  /** A list is ordered when its head may precede everything after it and its tail is ordered. */
  lemma OrderedCons(y: Statement, rest: seq<Statement>, newestFirst: bool)
    requires Ordered(rest, newestFirst)
    requires forall z :: z in rest ==> InOrder(y, z, newestFirst)
    ensures Ordered([y] + rest, newestFirst)
  {
    var r := [y] + rest;
    assert forall j :: 0 < j < |r| ==> r[j] == rest[j - 1];
  }

  lemma {:induction false} InsertOrdered(x: Statement, xs: seq<Statement>, newestFirst: bool)
    requires Ordered(xs, newestFirst)
    ensures Ordered(Insert(x, xs, newestFirst), newestFirst)
  {
    if |xs| > 0 {
      if InOrder(x, xs[0], newestFirst) {
        OrderedCons(x, xs, newestFirst);
      } else {
        var rest := Insert(x, xs[1..], newestFirst);
        assert Ordered(xs[1..], newestFirst);
        InsertOrdered(x, xs[1..], newestFirst);
        InsertMultiset(x, xs[1..], newestFirst);
        forall z | z in rest ensures InOrder(xs[0], z, newestFirst) {
          assert z in multiset(rest);
          if z != x {
            var j :| 0 <= j < |xs[1..]| && xs[1..][j] == z;
            assert xs[j + 1] == z;
          }
        }
        OrderedCons(xs[0], rest, newestFirst);
      }
    }
  }

  /** A non-empty list's multiset is its tail's plus its head. */
  lemma MultisetSplitHead(xs: seq<Statement>)
    requires |xs| > 0
    ensures multiset(xs) == multiset(xs[1..]) + multiset{xs[0]}
  {
    assert xs == [xs[0]] + xs[1..];
  }

  /**
   * `ORDER BY timestamp` (or `timestamp DESC`): the statements in time order;
   * statements with the same timestamp keep their table order.
   */
  function SortByTime(xs: seq<Statement>, newestFirst: bool): (r: seq<Statement>)
    ensures Ordered(r, newestFirst)
    ensures multiset(r) == multiset(xs)
  {
    if |xs| == 0 then []
    else
      var rest := SortByTime(xs[1..], newestFirst);
      InsertOrdered(xs[0], rest, newestFirst);
      InsertMultiset(xs[0], rest, newestFirst);
      MultisetSplitHead(xs);
      Insert(xs[0], rest, newestFirst)
  }

  function Reverse(xs: seq<Statement>): (r: seq<Statement>)
    ensures |r| == |xs|
    ensures forall i :: 0 <= i < |xs| ==> r[i] == xs[|xs| - 1 - i]
  {
    if |xs| == 0 then [] else Reverse(xs[1..]) + [xs[0]]
  }

  lemma {:induction false} ReverseMultiset(xs: seq<Statement>)
    ensures multiset(Reverse(xs)) == multiset(xs)
  {
    if |xs| > 0 {
      ReverseMultiset(xs[1..]);
      assert xs == [xs[0]] + xs[1..];
    }
  }

  /** Two time-ordered non-empty lists of the same statements start with the same statement. */
  lemma SameHead(a: seq<Statement>, b: seq<Statement>, newestFirst: bool)
    requires Ordered(a, newestFirst) && Ordered(b, newestFirst)
    requires DistinctTimes(a) && multiset(a) == multiset(b) && |a| > 0 && |b| > 0
    ensures a[0] == b[0]
  {
    assert a[0] in multiset(b) && b[0] in multiset(a);
    var i :| 0 <= i < |a| && a[i] == b[0];
    var j :| 0 <= j < |b| && b[j] == a[0];
    assert i > 0 ==> InOrder(a[0], a[i], newestFirst);
    assert j > 0 ==> InOrder(b[0], b[j], newestFirst);
  }

  lemma MultisetCancel(h: Statement, x: multiset<Statement>, y: multiset<Statement>)
    requires multiset{h} + x == multiset{h} + y
    ensures x == y
  {
    assert forall z :: x[z] == (multiset{h} + x)[z] - multiset{h}[z];
    assert forall z :: y[z] == (multiset{h} + y)[z] - multiset{h}[z];
  }

  /** Two time-ordered lists of the same statements, no two at the same time, are the same list. */
  lemma {:induction false} OrderedUnique(a: seq<Statement>, b: seq<Statement>, newestFirst: bool)
    requires Ordered(a, newestFirst) && Ordered(b, newestFirst)
    requires DistinctTimes(a) && multiset(a) == multiset(b)
    ensures a == b
    decreases |a|
  {
    assert |a| == |multiset(a)| == |multiset(b)| == |b|;
    if |a| > 0 {
      SameHead(a, b, newestFirst);
      assert a == [a[0]] + a[1..] && b == [b[0]] + b[1..];
      assert multiset(a) == multiset{a[0]} + multiset(a[1..]);
      assert multiset(b) == multiset{a[0]} + multiset(b[1..]);
      MultisetCancel(a[0], multiset(a[1..]), multiset(b[1..]));
      assert Ordered(a[1..], newestFirst) && Ordered(b[1..], newestFirst);
      assert DistinctTimes(a[1..]) by {
        assert forall x :: x in a[1..] ==> x in a;
      }
      OrderedUnique(a[1..], b[1..], newestFirst);
    }
  }

  /**
   * With distinct timestamps, the newest-first list is the oldest-first list
   * reversed, whatever order the rows were stored in.
   */
  lemma NewestFirstIsReverse(xs: seq<Statement>)
    requires DistinctTimes(xs)
    ensures SortByTime(xs, true) == Reverse(SortByTime(xs, false))
  {
    var asc := SortByTime(xs, false);
    var desc := SortByTime(xs, true);
    ReverseMultiset(asc);
    assert DistinctTimes(desc) by {
      assert forall x :: x in desc ==> x in multiset(xs);
    }
    var rev := Reverse(asc);
    assert Ordered(rev, true) by {
      forall i, j | 0 <= i < j < |rev| ensures InOrder(rev[i], rev[j], true) {
        assert InOrder(asc[|asc| - 1 - j], asc[|asc| - 1 - i], false);
      }
    }
    OrderedUnique(desc, rev, true);
  }

  /** Lists with the same multiset have the same members. */
  lemma SameMembers(a: seq<Statement>, b: seq<Statement>)
    requires multiset(a) == multiset(b)
    ensures forall x :: x in a <==> x in b
  {
    assert forall x :: x in a <==> x in multiset(a);
    assert forall x :: x in b <==> x in multiset(b);
  }

  /** `Statement.query.filter_by(meeting_id=mid).order_by(Statement.timestamp.desc())`. */
  function LiveStatements(statements: seq<Statement>, mid: nat): (r: seq<Statement>)
    ensures Ordered(r, true)
    ensures multiset(r) == multiset(StatementsOf(statements, mid))
    ensures forall x :: x in r <==> x in statements && x.meetingId == mid
  {
    var xs := StatementsOf(statements, mid);
    var r := SortByTime(xs, true);
    SameMembers(r, xs);
    r
  }

  /** A motion or statement with no agenda link belongs to the general part of the report. */
  predicate Unlinked(link: Option<nat>) { link.None? }

  /** `Motion.query.filter_by(meeting_id=mid, agenda_item_id=None)`. */
  function GeneralMotions(motions: seq<Motion>, mid: nat): (r: seq<Motion>)
    ensures forall m :: m in r <==> m in motions && m.meetingId == mid && Unlinked(m.agendaItemId)
    ensures |r| <= |motions|
  {
    Filter(motions, (m: Motion) => m.meetingId == mid && Unlinked(m.agendaItemId))
  }

  /** The motions listed under agenda item `aid`: its `motions` relationship. */
  function LinkedMotions(motions: seq<Motion>, aid: nat): seq<Motion> {
    Filter(motions, (m: Motion) => m.agendaItemId == Some(aid))
  }

  /**
   * The general motions are exactly the meeting's motions without an agenda
   * link, in table order; together with the meeting's linked motions they
   * account for all its motions.
   */
  lemma GeneralMotionsSplit(motions: seq<Motion>, mid: nat)
    ensures GeneralMotions(motions, mid) == Filter(MotionsOf(motions, mid), (m: Motion) => Unlinked(m.agendaItemId))
    ensures |GeneralMotions(motions, mid)| + |Filter(MotionsOf(motions, mid), (m: Motion) => !Unlinked(m.agendaItemId))|
              == |MotionsOf(motions, mid)|
  {
    var ms := MotionsOf(motions, mid);
    var general := (m: Motion) => m.meetingId == mid && Unlinked(m.agendaItemId);
    assert forall i :: 0 <= i < |ms| ==> ms[i] in ms;
    FilterCongruent(ms, (m: Motion) => Unlinked(m.agendaItemId), general);
    FilterFilter(motions, (m: Motion) => m.meetingId == mid, general);
    FilterPartition(ms, (m: Motion) => Unlinked(m.agendaItemId), (m: Motion) => !Unlinked(m.agendaItemId));
  }

  /** A motion with a link to `aid` is never a general motion. */
  lemma LinkedNotGeneral(motions: seq<Motion>, mid: nat, aid: nat)
    ensures forall m :: m in LinkedMotions(motions, aid) ==> m !in GeneralMotions(motions, mid)
  {
  }

  /** The statements of meeting `mid` without an agenda link, in table order. */
  function UnlinkedStatements(statements: seq<Statement>, mid: nat): seq<Statement> {
    Filter(statements, (x: Statement) => x.meetingId == mid && Unlinked(x.agendaItemId))
  }

  /**
   * `Statement.query.filter_by(meeting_id=mid, agenda_item_id=None).order_by(Statement.timestamp)`:
   * the meeting's unlinked statements, oldest first.
   */
  function GeneralStatements(statements: seq<Statement>, mid: nat): (r: seq<Statement>)
    ensures Ordered(r, false)
    ensures multiset(r) == multiset(UnlinkedStatements(statements, mid))
    ensures forall x :: x in r <==> x in statements && x.meetingId == mid && Unlinked(x.agendaItemId)
  {
    var xs := UnlinkedStatements(statements, mid);
    assert forall x :: x in xs <==> x in statements && x.meetingId == mid && Unlinked(x.agendaItemId);
    var r := SortByTime(xs, false);
    SameMembers(r, xs);
    r
  }

  /** The figures and lists of the meeting report. */
  datatype Report = Report(
    meeting: Meeting, presentCount: nat, quorumMet: bool, agenda: seq<AgendaItem>,
    generalMotions: seq<Motion>, generalStatements: seq<Statement>)

  /**
   * `generate_report`: NotFound without the meeting; otherwise the quorum
   * figures, the agenda, and the general motions and statements.
   */
  function MeetingReport(s: Store, mid: nat): (r: Result<Report>)
    ensures r.Err? <==> !HasKey(s.meetings, MeetingKey, mid)
    ensures r.Err? ==> r.failure == NotFound
    ensures r.Ok? ==> r.value.meeting in s.meetings && r.value.meeting.id == mid
    ensures r.Ok? ==> r.value.presentCount == PresentCount(s.attendances, mid)
    ensures r.Ok? ==> (r.value.quorumMet <==> r.value.presentCount >= r.value.meeting.quorumRequired)
    ensures r.Ok? ==> r.value.agenda == AgendaOf(s.agendaItems, mid)
    ensures r.Ok? ==> r.value.generalMotions == Filter(MotionsOf(s.motions, mid), (m: Motion) => Unlinked(m.agendaItemId))
    ensures r.Ok? ==> forall m :: m in r.value.generalMotions <==> m in s.motions && m.meetingId == mid && m.agendaItemId.None?
    ensures r.Ok? ==> Ordered(r.value.generalStatements, false)
    ensures r.Ok? ==> multiset(r.value.generalStatements) == multiset(UnlinkedStatements(s.statements, mid))
  {
    match Find(s.meetings, MeetingKey, mid)
    case None => Err(NotFound)
    case Some(i) =>
      var meeting := s.meetings[i];
      GeneralMotionsSplit(s.motions, mid);
      Ok(Report(meeting, PresentCount(s.attendances, mid), QuorumMet(meeting, s.attendances),
                AgendaOf(s.agendaItems, mid), GeneralMotions(s.motions, mid), GeneralStatements(s.statements, mid)))
  }

  /**
   * With one attendance row per (meeting, member) pair, the report's present
   * count is the number of the meeting's rows marked exactly "Present", and
   * the quorum flag compares that number with the meeting's quorum.
   */
  lemma MeetingReportFigures(s: Store, mid: nat)
    requires Valid(s) && MeetingReport(s, mid).Ok?
    ensures var r := MeetingReport(s, mid).value;
      && r.presentCount == |PresentRows(s.attendances, mid)|
      && (r.quorumMet <==> |PresentRows(s.attendances, mid)| >= r.meeting.quorumRequired)
  {
    PresentCountIsRowCount(s.attendances, mid);
  }
}
