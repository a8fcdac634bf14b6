/**
 * The quorum figures `meeting_details` and `generate_report` show: the
 * attendance map of a meeting, the number of members in it marked exactly
 * "Present", and whether that number reaches the meeting's required quorum.
 */
module Quorum {
  import opened Outcomes
  import opened Tables
  import opened Records
  import opened RollCall

  /**
   * `{att.member_id: att.status for att in rows}`: one entry per member id,
   * holding the status of the LAST row for that member.
   */
  function StatusMap(rows: seq<Attendance>): map<nat, Option<string>> {
    if |rows| == 0 then map[]
    else
      var later := StatusMap(rows[1..]);
      if rows[0].memberId in later then later else later[rows[0].memberId := rows[0].status]
  }

  /**
   * The map has one entry for each member with a row, holding the status of
   * one of that member's rows.
   */
  lemma {:induction false} StatusMapKeys(rows: seq<Attendance>)
    ensures forall u :: u in StatusMap(rows) <==> exists a :: a in rows && a.memberId == u
    ensures forall u :: u in StatusMap(rows) ==> exists a :: a in rows && a.memberId == u && a.status == StatusMap(rows)[u]
  {
    if |rows| > 0 {
      StatusMapKeys(rows[1..]);
      assert forall a :: a in rows <==> a == rows[0] || a in rows[1..];
    }
  }

  /** The attendance map of meeting `mid`: its attendance rows folded into `StatusMap`. */
  function AttendanceMap(rows: seq<Attendance>, mid: nat): map<nat, Option<string>> {
    StatusMap(AttendanceOf(rows, mid))
  }

  /**
   * The attendance map of `mid` has one entry for each member with a row at
   * the meeting, holding the status of one of that member's rows there.
   */
  lemma AttendanceMapKeys(rows: seq<Attendance>, mid: nat)
    ensures forall u :: u in AttendanceMap(rows, mid) <==> exists a :: a in rows && a.meetingId == mid && a.memberId == u
    ensures forall u :: u in AttendanceMap(rows, mid) ==>
              exists a :: a in rows && a.meetingId == mid && a.memberId == u && a.status == AttendanceMap(rows, mid)[u]
  {
    StatusMapKeys(AttendanceOf(rows, mid));
  }

  /** The members whose entry is exactly "Present"; any other text, or NULL, does not count. */
  function PresentMembers(m: map<nat, Option<string>>): set<nat> {
    set u | u in m && m[u] == Some(Present)
  }

  /** `sum(1 for status in attendance_map.values() if status == 'Present')`. */
  function PresentCount(rows: seq<Attendance>, mid: nat): nat {
    |PresentMembers(AttendanceMap(rows, mid))|
  }

  /** `present_count >= meeting.quorum_required`. */
  function QuorumMet(meeting: Meeting, rows: seq<Attendance>): (met: bool)
    ensures meeting.quorumRequired <= 0 ==> met
  {
    PresentCount(rows, meeting.id) >= meeting.quorumRequired
  }

  /**
   * The quorum panel of meeting `mid`: its present count and whether the
   * quorum is met, or NotFound when there is no such meeting (`get_or_404`).
   */
  function QuorumStatus(s: Store, mid: nat): (r: Result<(nat, bool)>)
    ensures r.Err? <==> !HasKey(s.meetings, MeetingKey, mid)
    ensures r.Err? ==> r.failure == NotFound
    ensures r.Ok? ==> r.value.0 == PresentCount(s.attendances, mid)
    ensures r.Ok? ==> exists i :: 0 <= i < |s.meetings| && s.meetings[i].id == mid
                                 && (r.value.1 <==> PresentCount(s.attendances, mid) >= s.meetings[i].quorumRequired)
  {
    match Find(s.meetings, MeetingKey, mid)
    case None => Err(NotFound)
    case Some(i) => Ok((PresentCount(s.attendances, mid), QuorumMet(s.meetings[i], s.attendances)))
  }

  /** The rows of meeting `mid` marked exactly "Present": the reference count. */
  function PresentRows(rows: seq<Attendance>, mid: nat): seq<Attendance> {
    Filter(rows, (a: Attendance) => a.meetingId == mid && a.status == Some(Present))
  }

  /** Looking a pair up in a non-empty table: the first row, else the rest of the table. */
  lemma LookupCons(rows: seq<Attendance>, mid: nat, uid: nat)
    requires |rows| > 0
    ensures Lookup(rows, mid, uid) == if IsRow(rows[0], mid, uid) then Some(rows[0]) else Lookup(rows[1..], mid, uid)
  {
  }

  /** A table without repeated pairs has none in its tail, and none of the tail shares the head's pair. */
  lemma UniquePairsTail(rows: seq<Attendance>)
    requires |rows| > 0 && UniquePairs(rows)
    ensures UniquePairs(rows[1..])
    ensures Lookup(rows[1..], rows[0].meetingId, rows[0].memberId).None?
  {
    assert forall i :: 0 <= i < |rows[1..]| ==> rows[1..][i] == rows[i + 1];
  }

  /**
   * With one row per (meeting, member) pair, the attendance map of `mid`
   * holds exactly the members with a row at `mid`, each with that row's status.
   */
  lemma {:induction false} AttendanceMapLookup(rows: seq<Attendance>, mid: nat, uid: nat)
    requires UniquePairs(rows)
    ensures uid in AttendanceMap(rows, mid) <==> Lookup(rows, mid, uid).Some?
    ensures uid in AttendanceMap(rows, mid) ==> AttendanceMap(rows, mid)[uid] == Lookup(rows, mid, uid).value.status
  {
    if |rows| > 0 {
      var a := rows[0];
      UniquePairsTail(rows);
      AttendanceMapLookup(rows[1..], mid, uid);
      LookupCons(rows, mid, uid);
      var tail := AttendanceOf(rows[1..], mid);
      if a.meetingId == mid {
        AttendanceMapLookup(rows[1..], mid, a.memberId);
        assert AttendanceOf(rows, mid) == [a] + tail;
        assert ([a] + tail)[1..] == tail;
      } else {
        assert AttendanceOf(rows, mid) == tail;
      }
    }
  }

  /** Adding a member who was not in the map adds them to the present set exactly when their status is "Present". */
  lemma PresentMembersAdd(m: map<nat, Option<string>>, uid: nat, status: Option<string>)
    requires uid !in m
    ensures PresentMembers(m[uid := status]) ==
              if status == Some(Present) then PresentMembers(m) + {uid} else PresentMembers(m)
  {
  }

  /**
   * With one row per (meeting, member) pair, the present count is simply the
   * number of rows of the meeting marked "Present", so it never exceeds the
   * number of attendance rows of the meeting.
   */
  lemma {:induction false} PresentCountIsRowCount(rows: seq<Attendance>, mid: nat)
    requires UniquePairs(rows)
    ensures PresentCount(rows, mid) == |PresentRows(rows, mid)|
    ensures PresentCount(rows, mid) <= |AttendanceOf(rows, mid)|
  {
    if |rows| > 0 {
      var a := rows[0];
      UniquePairsTail(rows);
      PresentCountIsRowCount(rows[1..], mid);
      var tail := AttendanceOf(rows[1..], mid);
      if a.meetingId == mid {
        AttendanceMapLookup(rows[1..], mid, a.memberId);
        assert AttendanceOf(rows, mid) == [a] + tail;
        assert ([a] + tail)[1..] == tail;
        PresentMembersAdd(AttendanceMap(rows[1..], mid), a.memberId, a.status);
      } else {
        assert AttendanceOf(rows, mid) == tail;
      }
    }
  }

  /** With one row per pair, the quorum is met exactly when enough rows of the meeting say "Present". */
  lemma QuorumMetIff(meeting: Meeting, rows: seq<Attendance>)
    requires UniquePairs(rows)
    ensures QuorumMet(meeting, rows) <==> |PresentRows(rows, meeting.id)| >= meeting.quorumRequired
  {
    PresentCountIsRowCount(rows, meeting.id);
  }

  /** Marking one member at `mid` changes the attendance map of `mid` at that member only. */
  lemma MarkAttendanceMap(rows: seq<Attendance>, mid: nat, uid: nat, submitted: Option<string>)
    requires UniqueKeys(rows, AttendanceKey) && UniquePairs(rows)
    ensures AttendanceMap(Mark(rows, mid, uid, submitted), mid) ==
              AttendanceMap(rows, mid)[uid := Marked(FindRow(rows, mid, uid).Some?, submitted)]
  {
    var r := Mark(rows, mid, uid, submitted);
    MarkValid(rows, mid, uid, submitted);
    var before, after := AttendanceMap(rows, mid), AttendanceMap(r, mid);
    var expected := before[uid := Marked(FindRow(rows, mid, uid).Some?, submitted)];
    forall u
      ensures u in after <==> u in expected
      ensures u in after ==> after[u] == expected[u]
    {
      AttendanceMapLookup(r, mid, u);
      AttendanceMapLookup(rows, mid, u);
      if u != uid {
        MarkFrame(rows, mid, uid, submitted, mid, u);
      }
    }
  }

  /** Marking a member "Present" never loses the quorum: the present count can only grow, by at most one. */
  lemma MarkPresentKeepsQuorum(meeting: Meeting, rows: seq<Attendance>, uid: nat)
    requires UniqueKeys(rows, AttendanceKey) && UniquePairs(rows)
    ensures var r := Mark(rows, meeting.id, uid, Some(Present));
      && PresentCount(rows, meeting.id) <= PresentCount(r, meeting.id) <= PresentCount(rows, meeting.id) + 1
      && (QuorumMet(meeting, rows) ==> QuorumMet(meeting, r))
  {
    var mid := meeting.id;
    MarkAttendanceMap(rows, mid, uid, Some(Present));
    var before := PresentMembers(AttendanceMap(rows, mid));
    assert PresentMembers(AttendanceMap(rows, mid)[uid := Some(Present)]) == before + {uid};
    if uid in before {
      assert before + {uid} == before;
    } else {
      assert |before + {uid}| == |before| + 1;
    }
  }

  /** The roll call of one meeting changes neither the count nor the quorum of any other meeting. */
  lemma RollCallOtherQuorum(rows: seq<Attendance>, mid: nat, members: seq<Member>, form: map<nat, string>, meeting: Meeting)
    requires meeting.id != mid
    ensures PresentCount(RollCallRows(rows, mid, members, form), meeting.id) == PresentCount(rows, meeting.id)
    ensures QuorumMet(meeting, RollCallRows(rows, mid, members, form)) == QuorumMet(meeting, rows)
  {
    RollCallOtherMeeting(rows, mid, members, form, meeting.id);
  }
}
