/**
 * The delete routes for meetings, motions and statements. Deleting a
 * meeting cascades to its attendance, motions, statements and agenda items;
 * the agenda-item relationships do not cascade, so a surviving motion or
 * statement of another meeting that pointed at one of the removed agenda
 * items loses the link instead.
 */
module Cascade {
  import opened Outcomes
  import opened Tables
  import opened Records

  /** The ids of the agenda items of meeting `mid`. */
  function AgendaIds(items: seq<AgendaItem>, mid: nat): set<nat> {
    set a | a in items && a.meetingId == mid :: a.id
  }

  /** `link` names one of the agenda items in `gone`. */
  predicate LinkedTo(link: Option<nat>, gone: set<nat>) {
    link.Some? && link.value in gone
  }

  /**
   * A motion whose agenda item is being removed keeps existing without the
   * link; every other field, and every motion without such a link, stays.
   */
  function UnlinkMotion(gone: set<nat>, m: Motion): (r: Motion)
    ensures r == m.(agendaItemId := r.agendaItemId)
    ensures !LinkedTo(r.agendaItemId, gone)
    ensures r.agendaItemId == m.agendaItemId || r.agendaItemId.None?
    ensures !LinkedTo(m.agendaItemId, gone) ==> r == m
  {
    if LinkedTo(m.agendaItemId, gone) then m.(agendaItemId := None) else m
  }

  /** The same for a statement. */
  function UnlinkStatement(gone: set<nat>, x: Statement): (r: Statement)
    ensures r == x.(agendaItemId := r.agendaItemId)
    ensures !LinkedTo(r.agendaItemId, gone)
    ensures r.agendaItemId == x.agendaItemId || r.agendaItemId.None?
    ensures !LinkedTo(x.agendaItemId, gone) ==> r == x
  {
    if LinkedTo(x.agendaItemId, gone) then x.(agendaItemId := None) else x
  }

  /**
   * `delete_meeting`: NotFound without the meeting; otherwise the meeting
   * goes, with every row of the child tables that names it, and the links of
   * surviving motions and statements to its agenda items are cleared.
   * Members and roles are untouched.
   */
  function DeleteMeeting(s: Store, id: nat): (r: Result<Store>)
    ensures r.Err? <==> !HasKey(s.meetings, MeetingKey, id)
    ensures r.Err? ==> r.failure == NotFound
    ensures r.Ok? ==> !HasKey(r.value.meetings, MeetingKey, id)
    ensures r.Ok? ==> r.value.members == s.members && r.value.roles == s.roles
  {
    if Find(s.meetings, MeetingKey, id).None? then Err(NotFound)
    else
      var gone := AgendaIds(s.agendaItems, id);
      Ok(Store(
        s.members, s.roles,
        RemoveKey(s.meetings, MeetingKey, id),
        Filter(s.agendaItems, (a: AgendaItem) => a.meetingId != id),
        Filter(s.attendances, (a: Attendance) => a.meetingId != id),
        MapRows(Filter(s.motions, (m: Motion) => m.meetingId != id), m => UnlinkMotion(gone, m)),
        MapRows(Filter(s.statements, (x: Statement) => x.meetingId != id), x => UnlinkStatement(gone, x))))
  }

  /**
   * After deleting meeting `id` no row of any child table names it, and no
   * motion or statement still links to one of its agenda items.
   */
  lemma DeleteMeetingRemovesChildren(s: Store, id: nat)
    requires DeleteMeeting(s, id).Ok?
    ensures var r := DeleteMeeting(s, id).value; var gone := AgendaIds(s.agendaItems, id);
      && (forall a :: a in r.agendaItems ==> a.meetingId != id)
      && (forall a :: a in r.attendances ==> a.meetingId != id)
      && (forall m :: m in r.motions ==> m.meetingId != id && !LinkedTo(m.agendaItemId, gone))
      && (forall x :: x in r.statements ==> x.meetingId != id && !LinkedTo(x.agendaItemId, gone))
  {
    var gone := AgendaIds(s.agendaItems, id);
    var r := DeleteMeeting(s, id).value;
    var ms := Filter(s.motions, (m: Motion) => m.meetingId != id);
    var xs := Filter(s.statements, (x: Statement) => x.meetingId != id);
    forall m | m in r.motions
      ensures m.meetingId != id && !LinkedTo(m.agendaItemId, gone)
    {
      var k :| 0 <= k < |r.motions| && r.motions[k] == m;
      assert ms[k] in ms;
    }
    forall x | x in r.statements
      ensures x.meetingId != id && !LinkedTo(x.agendaItemId, gone)
    {
      var k :| 0 <= k < |r.statements| && r.statements[k] == x;
      assert xs[k] in xs;
    }
  }

  /**
   * Deleting meeting `id` leaves every other meeting and the attendance and
   * agenda of every other meeting as they were; that meeting's motions and
   * statements stay, in order, except that links to the removed agenda
   * items are cleared.
   */
  lemma DeleteMeetingKeepsOthers(s: Store, id: nat, m: nat)
    requires DeleteMeeting(s, id).Ok? && m != id
    ensures var r := DeleteMeeting(s, id).value; var gone := AgendaIds(s.agendaItems, id);
      && (forall x :: x in s.meetings && x.id == m ==> x in r.meetings)
      && AgendaOf(r.agendaItems, m) == AgendaOf(s.agendaItems, m)
      && AttendanceOf(r.attendances, m) == AttendanceOf(s.attendances, m)
      && MotionsOf(r.motions, m) == MapRows(MotionsOf(s.motions, m), x => UnlinkMotion(gone, x))
      && StatementsOf(r.statements, m) == MapRows(StatementsOf(s.statements, m), x => UnlinkStatement(gone, x))
  {
    var gone := AgendaIds(s.agendaItems, id);
    FilterFilter(s.agendaItems, (a: AgendaItem) => a.meetingId != id, (a: AgendaItem) => a.meetingId == m);
    FilterFilter(s.attendances, (a: Attendance) => a.meetingId != id, (a: Attendance) => a.meetingId == m);
    var ms := Filter(s.motions, (x: Motion) => x.meetingId != id);
    FilterMapRows(ms, x => UnlinkMotion(gone, x), (x: Motion) => x.meetingId == m);
    FilterFilter(s.motions, (x: Motion) => x.meetingId != id, (x: Motion) => x.meetingId == m);
    var xs := Filter(s.statements, (x: Statement) => x.meetingId != id);
    FilterMapRows(xs, x => UnlinkStatement(gone, x), (x: Statement) => x.meetingId == m);
    FilterFilter(s.statements, (x: Statement) => x.meetingId != id, (x: Statement) => x.meetingId == m);
  }

  /**
   * When no motion or statement of meeting `m` links to an agenda item of
   * meeting `id`, deleting `id` leaves `m`'s motions and statements exactly
   * as they were.
   */
  lemma DeleteMeetingLocalLinks(s: Store, id: nat, m: nat)
    requires DeleteMeeting(s, id).Ok? && m != id
    requires forall x :: x in MotionsOf(s.motions, m) ==> !LinkedTo(x.agendaItemId, AgendaIds(s.agendaItems, id))
    requires forall x :: x in StatementsOf(s.statements, m) ==> !LinkedTo(x.agendaItemId, AgendaIds(s.agendaItems, id))
    ensures MotionsOf(DeleteMeeting(s, id).value.motions, m) == MotionsOf(s.motions, m)
    ensures StatementsOf(DeleteMeeting(s, id).value.statements, m) == StatementsOf(s.statements, m)
  {
    var gone := AgendaIds(s.agendaItems, id);
    DeleteMeetingKeepsOthers(s, id, m);
    var ms := MotionsOf(s.motions, m);
    assert forall k :: 0 <= k < |ms| ==> ms[k] in ms;
    MapRowsIdentity(ms, x => UnlinkMotion(gone, x));
    var xs := StatementsOf(s.statements, m);
    assert forall k :: 0 <= k < |xs| ==> xs[k] in xs;
    MapRowsIdentity(xs, x => UnlinkStatement(gone, x));
  }

  /** Deleting a meeting keeps the store's invariants and removes exactly one meeting. */
  lemma DeleteMeetingValid(s: Store, id: nat)
    requires Valid(s) && DeleteMeeting(s, id).Ok?
    ensures Valid(DeleteMeeting(s, id).value)
    ensures |DeleteMeeting(s, id).value.meetings| == |s.meetings| - 1
  {
    var gone := AgendaIds(s.agendaItems, id);
    RemoveKeyUnique(s.meetings, MeetingKey, id);
    FilterUniqueKeys(s.agendaItems, (a: AgendaItem) => a.meetingId != id, AgendaKey);
    FilterUniqueKeys(s.attendances, (a: Attendance) => a.meetingId != id, AttendanceKey);
    FilterUniqueKeys(s.attendances, (a: Attendance) => a.meetingId != id, PairKey);
    var ms := Filter(s.motions, (x: Motion) => x.meetingId != id);
    FilterUniqueKeys(s.motions, (x: Motion) => x.meetingId != id, MotionKey);
    MapRowsUniqueKeys(ms, x => UnlinkMotion(gone, x), MotionKey);
    var xs := Filter(s.statements, (x: Statement) => x.meetingId != id);
    FilterUniqueKeys(s.statements, (x: Statement) => x.meetingId != id, StatementKey);
    MapRowsUniqueKeys(xs, x => UnlinkStatement(gone, x), StatementKey);
  }

  /**
   * `delete_motion`: NotFound without the motion; otherwise that motion,
   * and no other row, is removed.
   */
  function DeleteMotion(s: Store, id: nat): (r: Result<Store>)
    ensures r.Err? <==> !HasKey(s.motions, MotionKey, id)
    ensures r.Err? ==> r.failure == NotFound
    ensures r.Ok? ==> r.value == s.(motions := r.value.motions)
    ensures r.Ok? ==> forall m :: m in r.value.motions <==> m in s.motions && m.id != id
  {
    if Find(s.motions, MotionKey, id).None? then Err(NotFound)
    else Ok(s.(motions := RemoveKey(s.motions, MotionKey, id)))
  }

  /**
   * `delete_statement`: NotFound without the statement; otherwise that
   * statement, and no other row, is removed.
   */
  function DeleteStatement(s: Store, id: nat): (r: Result<Store>)
    ensures r.Err? <==> !HasKey(s.statements, StatementKey, id)
    ensures r.Err? ==> r.failure == NotFound
    ensures r.Ok? ==> r.value == s.(statements := r.value.statements)
    ensures r.Ok? ==> forall x :: x in r.value.statements <==> x in s.statements && x.id != id
  {
    if Find(s.statements, StatementKey, id).None? then Err(NotFound)
    else Ok(s.(statements := RemoveKey(s.statements, StatementKey, id)))
  }

  /** Deleting a motion or a statement removes exactly one row and keeps the store's invariants. */
  lemma DeleteMotionStatementValid(s: Store, id: nat)
    requires Valid(s)
    ensures DeleteMotion(s, id).Ok? ==>
              Valid(DeleteMotion(s, id).value) && |DeleteMotion(s, id).value.motions| == |s.motions| - 1
    ensures DeleteStatement(s, id).Ok? ==>
              Valid(DeleteStatement(s, id).value) && |DeleteStatement(s, id).value.statements| == |s.statements| - 1
  {
    RemoveKeyUnique(s.motions, MotionKey, id);
    RemoveKeyUnique(s.statements, StatementKey, id);
  }
}
