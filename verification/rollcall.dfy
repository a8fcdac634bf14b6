/**
 * The roll call of `take_attendance`: every member in turn gets the status
 * the form submitted for them, on their existing attendance row for the
 * meeting or on a new row.
 */
module RollCall {
  import opened Outcomes
  import opened Tables
  import opened Records

  /**
   * The status a member's row holds once marked with `submitted`. An existing
   * row is overwritten with the submitted value, even a missing one, which
   * stores NULL; a new row leaves a missing value out, so the column default
   * "Absent" applies.
   */
  function Marked(existed: bool, submitted: Option<string>): (r: Option<string>)
    ensures submitted.Some? ==> r == submitted
    ensures r.None? <==> existed && submitted.None?
    ensures !existed && submitted.None? ==> r == Some(Absent)
  {
    if existed then submitted else Some(submitted.GetOr(Absent))
  }

  /** The first row of `uid` at `mid` sits at position `i`. */
  lemma FirstRowAt(rows: seq<Attendance>, mid: nat, uid: nat, i: nat)
    requires i < |rows| && IsRow(rows[i], mid, uid)
    requires forall k :: 0 <= k < i ==> !IsRow(rows[k], mid, uid)
    ensures FindRow(rows, mid, uid) == Some(i)
  {
  }

  /**
   * One step of the roll call: mark member `uid` at meeting `mid` with the
   * submitted status. The member's first row is updated in place; without
   * one, a row with the next rowid is appended.
   */
  function Mark(rows: seq<Attendance>, mid: nat, uid: nat, submitted: Option<string>): (r: seq<Attendance>)
    ensures Lookup(r, mid, uid).Some?
    ensures Lookup(r, mid, uid).value.status == Marked(FindRow(rows, mid, uid).Some?, submitted)
    ensures |r| == if FindRow(rows, mid, uid).Some? then |rows| else |rows| + 1
  {
    match FindRow(rows, mid, uid)
    case Some(i) =>
      var r := rows[i := rows[i].(status := submitted)];
      FirstRowAt(r, mid, uid, i);
      r
    case None =>
      var r := rows + [Attendance(NextKey(rows, AttendanceKey), mid, uid, Some(submitted.GetOr(Absent)))];
      FirstRowAt(r, mid, uid, |rows|);
      r
  }

  /** Marking one member leaves every other (meeting, member) pair's row as it was. */
  lemma MarkFrame(rows: seq<Attendance>, mid: nat, uid: nat, submitted: Option<string>, m: nat, u: nat)
    requires (m, u) != (mid, uid)
    ensures Lookup(Mark(rows, mid, uid, submitted), m, u) == Lookup(rows, m, u)
  {
    var r := Mark(rows, mid, uid, submitted);
    assert forall k :: 0 <= k < |rows| ==> (IsRow(r[k], m, u) <==> IsRow(rows[k], m, u));
    assert forall k :: |rows| <= k < |r| ==> !IsRow(r[k], m, u);
    match FindRow(rows, m, u)
    case Some(i) =>
      FirstRowAt(r, m, u, i);
    case None =>
  }

  /** Marking a member at `mid` leaves the attendance list of every other meeting as it was. */
  lemma MarkOtherMeeting(rows: seq<Attendance>, mid: nat, uid: nat, submitted: Option<string>, m: nat)
    requires m != mid
    ensures AttendanceOf(Mark(rows, mid, uid, submitted), m) == AttendanceOf(rows, m)
  {
    var keep := (a: Attendance) => a.meetingId == m;
    match FindRow(rows, mid, uid)
    case Some(i) =>
      FilterUpdateRejected(rows, i, rows[i].(status := submitted), keep);
    case None =>
      var row := Attendance(NextKey(rows, AttendanceKey), mid, uid, Some(submitted.GetOr(Absent)));
      FilterAppend(rows, [row], keep);
      assert Filter([row], keep) == [];
  }

  /** Marking keeps rowids unique and at most one row per (meeting, member) pair. */
  lemma MarkValid(rows: seq<Attendance>, mid: nat, uid: nat, submitted: Option<string>)
    requires UniqueKeys(rows, AttendanceKey) && UniquePairs(rows)
    ensures UniqueKeys(Mark(rows, mid, uid, submitted), AttendanceKey)
    ensures UniquePairs(Mark(rows, mid, uid, submitted))
  {
    var r := Mark(rows, mid, uid, submitted);
    match FindRow(rows, mid, uid)
    case Some(i) =>
      assert forall k :: 0 <= k < |r| ==> AttendanceKey(r[k]) == AttendanceKey(rows[k]);
      assert forall k :: 0 <= k < |r| ==> PairKey(r[k]) == PairKey(rows[k]);
    case None =>
      assert forall k :: 0 <= k < |rows| ==> r[k] == rows[k];
      assert forall k :: 0 <= k < |rows| ==> PairKey(r[k]) != PairKey(r[|rows|]);
  }

  /**
   * `take_attendance` on the rows of the attendance table: every member, in
   * table order, is marked with the value the form holds for them (the form
   * field `status_<id>` is keyed here by the member id).
   */
  function RollCallRows(rows: seq<Attendance>, mid: nat, members: seq<Member>, form: map<nat, string>): seq<Attendance>
    decreases |members|
  {
    if |members| == 0 then rows
    else RollCallRows(Mark(rows, mid, members[0].id, Get(form, members[0].id)), mid, members[1..], form)
  }

  /** No member in `members` has id `u`. */
  predicate NotListed(members: seq<Member>, u: nat) {
    forall k :: 0 <= k < |members| ==> members[k].id != u
  }

  /** The roll call leaves the row of anyone not called, and every row of other meetings, alone. */
  lemma {:induction false} RollCallFrame(rows: seq<Attendance>, mid: nat, members: seq<Member>, form: map<nat, string>, m: nat, u: nat)
    requires m != mid || NotListed(members, u)
    ensures Lookup(RollCallRows(rows, mid, members, form), m, u) == Lookup(rows, m, u)
    decreases |members|
  {
    if |members| > 0 {
      var next := Mark(rows, mid, members[0].id, Get(form, members[0].id));
      MarkFrame(rows, mid, members[0].id, Get(form, members[0].id), m, u);
      assert m != mid || NotListed(members[1..], u) by {
        if m == mid {
          forall k | 0 <= k < |members[1..]| ensures members[1..][k].id != u {
            assert members[1..][k] == members[k + 1];
          }
        }
      }
      RollCallFrame(next, mid, members[1..], form, m, u);
    }
  }

  /**
   * After the roll call every member has a row for the meeting holding the
   * submitted status: the form's value on a row that existed, the form's
   * value or "Absent" on a new one.
   */
  lemma {:induction false} RollCallMarks(rows: seq<Attendance>, mid: nat, members: seq<Member>, form: map<nat, string>, k: nat)
    requires UniqueKeys(members, MemberKey)
    requires k < |members|
    ensures var r := RollCallRows(rows, mid, members, form); var uid := members[k].id;
      && Lookup(r, mid, uid).Some?
      && Lookup(r, mid, uid).value.status == Marked(FindRow(rows, mid, uid).Some?, Get(form, uid))
    decreases |members|
  {
    var uid := members[k].id;
    var next := Mark(rows, mid, members[0].id, Get(form, members[0].id));
    var tail := members[1..];
    assert UniqueKeys(tail, MemberKey) by {
      assert forall a :: 0 <= a < |tail| ==> tail[a] == members[a + 1];
    }
    if k == 0 {
      assert NotListed(tail, uid) by {
        assert forall a :: 0 <= a < |tail| ==> tail[a] == members[a + 1];
      }
      RollCallFrame(next, mid, tail, form, mid, uid);
    } else {
      assert tail[k - 1] == members[k];
      RollCallMarks(next, mid, tail, form, k - 1);
      MarkFrame(rows, mid, members[0].id, Get(form, members[0].id), mid, uid);
    }
  }

  /** The roll call of meeting `mid` leaves the attendance list of every other meeting as it was. */
  lemma {:induction false} RollCallOtherMeeting(rows: seq<Attendance>, mid: nat, members: seq<Member>, form: map<nat, string>, m: nat)
    requires m != mid
    ensures AttendanceOf(RollCallRows(rows, mid, members, form), m) == AttendanceOf(rows, m)
    decreases |members|
  {
    if |members| > 0 {
      var next := Mark(rows, mid, members[0].id, Get(form, members[0].id));
      MarkOtherMeeting(rows, mid, members[0].id, Get(form, members[0].id), m);
      RollCallOtherMeeting(next, mid, members[1..], form, m);
    }
  }

  /** The roll call keeps rowids unique and at most one row per (meeting, member) pair. */
  lemma {:induction false} RollCallValid(rows: seq<Attendance>, mid: nat, members: seq<Member>, form: map<nat, string>)
    requires UniqueKeys(rows, AttendanceKey) && UniquePairs(rows)
    ensures UniqueKeys(RollCallRows(rows, mid, members, form), AttendanceKey)
    ensures UniquePairs(RollCallRows(rows, mid, members, form))
    decreases |members|
  {
    if |members| > 0 {
      var next := Mark(rows, mid, members[0].id, Get(form, members[0].id));
      MarkValid(rows, mid, members[0].id, Get(form, members[0].id));
      RollCallValid(next, mid, members[1..], form);
    }
  }
}
