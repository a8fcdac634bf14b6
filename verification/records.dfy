/**
 * The record store of the meeting tracker: one table per entity, each a
 * sequence of rows in rowid order, as the relational tables hold them.
 */
module Records {
  import opened Outcomes
  import opened Tables

  /** A point in time (a `DateTime` column), as an opaque ordered count. */
  type Time = int

  const Ongoing: string := "Ongoing"
  const Finished: string := "Finished"
  const Present: string := "Present"
  const Absent: string := "Absent"
  const Pending: string := "Pending"

  /**
   * The range of an SQLite INTEGER, a signed 64-bit value: the driver refuses
   * to bind a Python integer outside it.
   */
  const MinInteger: int := -0x8000_0000_0000_0000
  const MaxInteger: int := 0x7fff_ffff_ffff_ffff

  predicate FitsInteger(n: int) {
    MinInteger <= n <= MaxInteger
  }

  datatype Member = Member(
    id: nat, firstName: string, lastName: string,
    primaryRole: Option<string>, secondaryRole: Option<string>)

  datatype Role = Role(id: nat, name: string)

  /** `status` is free text; the application writes "Ongoing" and "Finished". */
  datatype Meeting = Meeting(
    id: nat, title: string, date: Time, meetingType: string, location: Option<string>,
    quorumRequired: int, status: string, endedAt: Option<Time>)

  datatype AgendaItem = AgendaItem(id: nat, meetingId: nat, title: string, isCompleted: bool)

  /** `status` is nullable free text; only the exact text "Present" counts toward quorum. */
  datatype Attendance = Attendance(id: nat, meetingId: nat, memberId: nat, status: Option<string>)

  datatype Motion = Motion(
    id: nat, meetingId: nat, agendaItemId: Option<nat>,
    proposerId: Option<nat>, seconderId: Option<nat>,
    text: string, status: string, voteResults: Option<string>)

  datatype Statement = Statement(
    id: nat, meetingId: nat, agendaItemId: Option<nat>, speakerId: Option<nat>,
    content: string, timestamp: Time)

  datatype Store = Store(
    members: seq<Member>, roles: seq<Role>, meetings: seq<Meeting>,
    agendaItems: seq<AgendaItem>, attendances: seq<Attendance>,
    motions: seq<Motion>, statements: seq<Statement>)

  const EmptyStore := Store([], [], [], [], [], [], [])

  function MemberKey(m: Member): nat { m.id }
  function RoleKey(r: Role): nat { r.id }
  function RoleName(r: Role): string { r.name }
  function MeetingKey(m: Meeting): nat { m.id }
  function AgendaKey(a: AgendaItem): nat { a.id }
  function AttendanceKey(a: Attendance): nat { a.id }
  function MotionKey(m: Motion): nat { m.id }
  function StatementKey(s: Statement): nat { s.id }

  /** Role names are declared unique. */
  predicate UniqueNames(roles: seq<Role>) {
    UniqueKeys(roles, RoleName)
  }

  /** The attendance row of `uid` at meeting `mid`. */
  predicate IsRow(a: Attendance, mid: nat, uid: nat) {
    a.meetingId == mid && a.memberId == uid
  }

  /** The (meeting, member) pair an attendance row is about. */
  function PairKey(a: Attendance): (nat, nat) { (a.meetingId, a.memberId) }

  /** At most one attendance row per (meeting, member) pair. */
  predicate UniquePairs(rows: seq<Attendance>) {
    UniqueKeys(rows, PairKey)
  }

  /**
   * What every committed state satisfies: primary keys are unique in each
   * table, role names are unique, and attendance is unique per (meeting, member).
   * References between tables are NOT part of it: nothing enforces them.
   */
  predicate Valid(s: Store) {
    && UniqueKeys(s.members, MemberKey)
    && UniqueKeys(s.roles, RoleKey)
    && UniqueKeys(s.meetings, MeetingKey)
    && UniqueKeys(s.agendaItems, AgendaKey)
    && UniqueKeys(s.attendances, AttendanceKey)
    && UniqueKeys(s.motions, MotionKey)
    && UniqueKeys(s.statements, StatementKey)
    && UniqueNames(s.roles)
    && UniquePairs(s.attendances)
  }

  /** The agenda items of meeting `mid`, as `AgendaItem.query.filter_by(meeting_id=mid)` lists them. */
  function AgendaOf(items: seq<AgendaItem>, mid: nat): seq<AgendaItem> {
    Filter(items, (a: AgendaItem) => a.meetingId == mid)
  }

  function AttendanceOf(rows: seq<Attendance>, mid: nat): seq<Attendance> {
    Filter(rows, (a: Attendance) => a.meetingId == mid)
  }

  function MotionsOf(rows: seq<Motion>, mid: nat): seq<Motion> {
    Filter(rows, (m: Motion) => m.meetingId == mid)
  }

  function StatementsOf(rows: seq<Statement>, mid: nat): seq<Statement> {
    Filter(rows, (x: Statement) => x.meetingId == mid)
  }

  /**
   * The position of the first attendance row of `uid` at `mid`:
   * `Attendance.query.filter_by(meeting_id=mid, member_id=uid).first()`.
   */
  function FindRow(rows: seq<Attendance>, mid: nat, uid: nat): (r: Option<nat>)
    ensures r.Some? ==> r.value < |rows| && IsRow(rows[r.value], mid, uid)
    ensures r.Some? ==> forall i :: 0 <= i < r.value ==> !IsRow(rows[i], mid, uid)
    ensures r.None? <==> forall i :: 0 <= i < |rows| ==> !IsRow(rows[i], mid, uid)
  {
    if |rows| == 0 then None
    else if IsRow(rows[0], mid, uid) then Some(0)
    else
      match FindRow(rows[1..], mid, uid)
      case None =>
        assert forall i :: 1 <= i < |rows| ==> rows[i] == rows[1..][i - 1];
        None
      case Some(i) => Some(i + 1)
  }

  /** The first attendance row of `uid` at `mid`, if any. */
  function Lookup(rows: seq<Attendance>, mid: nat, uid: nat): Option<Attendance> {
    match FindRow(rows, mid, uid)
    case Some(i) => Some(rows[i])
    case None => None
  }
}
