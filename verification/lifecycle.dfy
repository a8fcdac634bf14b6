/**
 * The meeting routes as transitions of the record store: creating a meeting
 * with its initial agenda, adding agenda items, motions and statements,
 * taking the roll call, and adjourning.
 */
module Lifecycle {
  import opened Outcomes
  import opened Tables
  import opened Records
  import opened Text
  import opened RollCall

  /**
   * The `quorum_required` field: empty or missing, an integer text, or text
   * `int()` rejects. `int()` accepts any size; the number must still fit an
   * SQLite INTEGER when the meeting is committed.
   */
  datatype QuorumField = QuorumBlank | QuorumNumber(n: int) | QuorumMalformed

  /**
   * The `date` field: missing (`strptime(None)` raises a TypeError nothing
   * catches), parsed by the `%Y-%m-%dT%H:%M` format, or unparsable (a
   * ValueError, after which the current time is used).
   */
  datatype DateField = DateMissing | DateParsed(at: Time) | DateUnparsable

  /** The form of `add_meeting`. */
  datatype MeetingForm = MeetingForm(
    title: Option<string>, meetingType: Option<string>, location: Option<string>,
    quorum: QuorumField, date: DateField, agenda: Option<string>)

  /**
   * The form of `add_motion`. The member and agenda ids are already converted:
   * an empty field is `None`.
   */
  datatype MotionForm = MotionForm(
    text: Option<string>, proposerId: Option<nat>, seconderId: Option<nat>,
    status: Option<string>, voteResults: Option<string>, agendaItemId: Option<nat>)

  /** Every table but the meetings is the same in both stores. */
  predicate SameExceptMeetings(s: Store, r: Store) {
    && r.members == s.members && r.roles == s.roles && r.agendaItems == s.agendaItems
    && r.attendances == s.attendances && r.motions == s.motions && r.statements == s.statements
  }

  /**
   * The agenda items for `titles`, in order, for meeting `mid`, not
   * completed, numbered from `first` on: each insert takes the next rowid.
   */
  function NewAgenda(first: nat, mid: nat, titles: seq<string>): (r: seq<AgendaItem>)
    ensures Titles(r) == titles
    ensures UniqueKeys(r, AgendaKey)
    ensures forall x :: x in r ==> x.meetingId == mid && !x.isCompleted && first <= x.id < first + |titles|
  {
    var r := seq(|titles|, k requires 0 <= k < |titles| => AgendaItem(first + k, mid, titles[k], false));
    assert forall x :: x in r ==> exists k :: 0 <= k < |r| && x == r[k];
    r
  }

  /**
   * `titles` appended to meeting `mid` as new agenda items: the old items
   * stay in front, and the new ones follow with the titles in order.
   */
  function AppendAgenda(items: seq<AgendaItem>, mid: nat, titles: seq<string>): (r: seq<AgendaItem>)
    ensures |r| == |items| + |titles| && r[..|items|] == items
    ensures Titles(r[|items|..]) == titles
    ensures forall x :: x in r[|items|..] ==> x.meetingId == mid && !x.isCompleted && !HasKey(items, AgendaKey, x.id)
  {
    var added := NewAgenda(NextKey(items, AgendaKey), mid, titles);
    assert (items + added)[..|items|] == items && (items + added)[|items|..] == added;
    items + added
  }

  /** The titles of a list of agenda items, in order. */
  function Titles(items: seq<AgendaItem>): (r: seq<string>)
    ensures |r| == |items|
    ensures forall k :: 0 <= k < |items| ==> r[k] == items[k].title
  {
    if |items| == 0 then [] else [items[0].title] + Titles(items[1..])
  }

  /** Appended agenda items get added rowids, so rowids stay unique. */
  lemma AppendAgendaUnique(items: seq<AgendaItem>, mid: nat, titles: seq<string>)
    requires UniqueKeys(items, AgendaKey)
    ensures UniqueKeys(AppendAgenda(items, mid, titles), AgendaKey)
    ensures forall k :: |items| <= k < |AppendAgenda(items, mid, titles)| ==>
              !HasKey(items, AgendaKey, AppendAgenda(items, mid, titles)[k].id)
  {
    var r := AppendAgenda(items, mid, titles);
    var added := NewAgenda(NextKey(items, AgendaKey), mid, titles);
    assert forall k :: 0 <= k < |items| ==> r[k] == items[k];
    assert forall k :: |items| <= k < |r| ==> r[k] == added[k - |items|];
  }

  /** The agenda of meeting `mid` after appending: what it had, followed by one item per title in order. */
  lemma AppendAgendaOwn(items: seq<AgendaItem>, mid: nat, titles: seq<string>)
    ensures Titles(AgendaOf(AppendAgenda(items, mid, titles), mid)) == Titles(AgendaOf(items, mid)) + titles
  {
    var added := NewAgenda(NextKey(items, AgendaKey), mid, titles);
    var keep := (a: AgendaItem) => a.meetingId == mid;
    FilterAppend(items, added, keep);
    FilterTrivial(added, keep);
    TitlesAppend(AgendaOf(items, mid), added);
    assert Titles(added) == titles;
  }

  /** Appending to meeting `mid` leaves the agenda of every other meeting as it was. */
  lemma AppendAgendaOther(items: seq<AgendaItem>, mid: nat, titles: seq<string>, m: nat)
    requires m != mid
    ensures AgendaOf(AppendAgenda(items, mid, titles), m) == AgendaOf(items, m)
  {
    var added := NewAgenda(NextKey(items, AgendaKey), mid, titles);
    var keep := (a: AgendaItem) => a.meetingId == m;
    FilterAppend(items, added, keep);
    FilterTrivial(added, keep);
  }

  lemma TitlesAppend(a: seq<AgendaItem>, b: seq<AgendaItem>)
    ensures Titles(a + b) == Titles(a) + Titles(b)
  {
  }

  /** The quorum field holds a number `int()` accepts but SQLite cannot store. */
  predicate QuorumTooLarge(q: QuorumField) {
    q.QuorumNumber? && !FitsInteger(q.n)
  }

  /**
   * `add_meeting`. Fails when the date is missing or the quorum is not an
   * integer (uncaught exceptions), when the quorum does not fit an SQLite
   * INTEGER (the driver raises while binding it, before any constraint is
   * checked), or when the title or type is missing (the NOT NULL columns);
   * otherwise adds an "Ongoing" meeting and then one agenda item per
   * stripped non-blank line of the initial agenda.
   */
  function AddMeeting(s: Store, form: MeetingForm, now: Time): (r: Result<Store>)
    ensures r.Ok? <==> !form.date.DateMissing? && !form.quorum.QuorumMalformed? && !QuorumTooLarge(form.quorum)
                       && form.title.Some? && form.meetingType.Some?
    ensures form.date.DateMissing? ==> r == Err(BadInput("date"))
    ensures !form.date.DateMissing? && (form.quorum.QuorumMalformed? || QuorumTooLarge(form.quorum)) ==>
              r == Err(BadInput("quorum_required"))
    ensures r.Ok? ==> |r.value.meetings| == |s.meetings| + 1 && r.value.meetings[..|s.meetings|] == s.meetings
    ensures r.Ok? ==> FitsInteger(r.value.meetings[|s.meetings|].quorumRequired)
  {
    if form.date.DateMissing? then Err(BadInput("date"))
    else if form.quorum.QuorumMalformed? || QuorumTooLarge(form.quorum) then Err(BadInput("quorum_required"))
    else if form.title.None? then Err(MissingValue("title"))
    else if form.meetingType.None? then Err(MissingValue("meeting_type"))
    else
      var id := NextKey(s.meetings, MeetingKey);
      var meeting := Meeting(
        id, form.title.value,
        if form.date.DateParsed? then form.date.at else now,
        form.meetingType.value, form.location,
        if form.quorum.QuorumNumber? then form.quorum.n else 0,
        Ongoing, None);
      var meetings := s.meetings + [meeting];
      assert meetings[..|s.meetings|] == s.meetings;
      Ok(s.(meetings := meetings, agendaItems := AppendAgenda(s.agendaItems, id, AgendaTitles(form.agenda))))
  }

  /**
   * The meeting `add_meeting` creates: an unused id, the submitted title, type
   * and location, the parsed date or else the current time, the submitted
   * quorum or else 0, status "Ongoing" and no end time.
   */
  lemma AddMeetingCreates(s: Store, form: MeetingForm, now: Time)
    requires AddMeeting(s, form, now).Ok?
    ensures var m := AddMeeting(s, form, now).value.meetings[|s.meetings|];
      && !HasKey(s.meetings, MeetingKey, m.id)
      && m.title == form.title.value && m.meetingType == form.meetingType.value && m.location == form.location
      && m.date == (if form.date.DateParsed? then form.date.at else now)
      && m.quorumRequired == (if form.quorum.QuorumNumber? then form.quorum.n else 0)
      && m.status == Ongoing && m.endedAt == None
  {
  }

  /**
   * The agenda `add_meeting` gives the new meeting: whatever rows already
   * named its id, then the stripped non-blank lines of the initial agenda, in
   * order. The members, roles, attendance, motions, statements and the
   * agendas of other meetings are untouched.
   */
  lemma AddMeetingAgenda(s: Store, form: MeetingForm, now: Time, m: nat)
    requires AddMeeting(s, form, now).Ok?
    ensures var r := AddMeeting(s, form, now).value; var id := r.meetings[|s.meetings|].id;
      && (m == id ==> Titles(AgendaOf(r.agendaItems, m)) == Titles(AgendaOf(s.agendaItems, m)) + AgendaTitles(form.agenda))
      && (m != id ==> AgendaOf(r.agendaItems, m) == AgendaOf(s.agendaItems, m))
      && r.members == s.members && r.roles == s.roles && r.attendances == s.attendances
      && r.motions == s.motions && r.statements == s.statements
  {
    var id := NextKey(s.meetings, MeetingKey);
    if m == id {
      AppendAgendaOwn(s.agendaItems, id, AgendaTitles(form.agenda));
    } else {
      AppendAgendaOther(s.agendaItems, id, AgendaTitles(form.agenda), m);
    }
  }

  /** `add_meeting` keeps the store's invariants. */
  lemma AddMeetingValid(s: Store, form: MeetingForm, now: Time)
    requires Valid(s) && AddMeeting(s, form, now).Ok?
    ensures Valid(AddMeeting(s, form, now).value)
  {
    var id := NextKey(s.meetings, MeetingKey);
    AppendAgendaUnique(s.agendaItems, id, AgendaTitles(form.agenda));
    var r := AddMeeting(s, form, now).value;
    assert r.meetings == s.meetings + [r.meetings[|s.meetings|]];
    AppendFresh(s.meetings, MeetingKey, r.meetings[|s.meetings|]);
  }

  /**
   * `add_agenda_item`: a missing or empty title changes nothing; any other
   * title, unstripped, becomes a new item of meeting `mid`. Whether the
   * meeting exists is not checked.
   */
  function AddAgendaItem(s: Store, mid: nat, title: Option<string>): (r: Store)
    ensures title == None || title == Some("") ==> r == s
    ensures title.Some? && title != Some("") ==>
              && |r.agendaItems| == |s.agendaItems| + 1 && r.agendaItems[..|s.agendaItems|] == s.agendaItems
              && r.agendaItems[|s.agendaItems|].meetingId == mid && r.agendaItems[|s.agendaItems|].title == title.value
              && !HasKey(s.agendaItems, AgendaKey, r.agendaItems[|s.agendaItems|].id)
    ensures r.meetings == s.meetings && r.members == s.members && r.roles == s.roles
    ensures r.attendances == s.attendances && r.motions == s.motions && r.statements == s.statements
  {
    if title == None || title == Some("") then s
    else
      var items := AppendAgenda(s.agendaItems, mid, [title.value]);
      assert items[|s.agendaItems|] == AgendaItem(NextKey(s.agendaItems, AgendaKey), mid, title.value, false);
      s.(agendaItems := items)
  }

  /** The agenda of `mid` gains exactly the one title; other agendas are untouched. */
  lemma AddAgendaItemAgenda(s: Store, mid: nat, title: string, m: nat)
    requires title != ""
    ensures m == mid ==> Titles(AgendaOf(AddAgendaItem(s, mid, Some(title)).agendaItems, m)) == Titles(AgendaOf(s.agendaItems, m)) + [title]
    ensures m != mid ==> AgendaOf(AddAgendaItem(s, mid, Some(title)).agendaItems, m) == AgendaOf(s.agendaItems, m)
  {
    if m == mid {
      AppendAgendaOwn(s.agendaItems, mid, [title]);
    } else {
      AppendAgendaOther(s.agendaItems, mid, [title], m);
    }
  }

  /** `add_agenda_item` keeps the store's invariants. */
  lemma AddAgendaItemValid(s: Store, mid: nat, title: Option<string>)
    requires Valid(s)
    ensures Valid(AddAgendaItem(s, mid, title))
  {
    if title.Some? && title != Some("") {
      AppendAgendaUnique(s.agendaItems, mid, [title.value]);
    }
  }

  /**
   * `take_attendance`: NotFound without the meeting; otherwise the roll call
   * over every member, with only the attendance table changing.
   */
  function TakeAttendance(s: Store, mid: nat, form: map<nat, string>): (r: Result<Store>)
    ensures r.Err? <==> !HasKey(s.meetings, MeetingKey, mid)
    ensures r.Err? ==> r.failure == NotFound
    ensures r.Ok? ==> r.value == s.(attendances := r.value.attendances)
  {
    if Find(s.meetings, MeetingKey, mid).None? then Err(NotFound)
    else Ok(s.(attendances := RollCallRows(s.attendances, mid, s.members, form)))
  }

  /**
   * After a successful roll call each current member has exactly one row
   * for the meeting, holding what the form submitted (a missing value
   * overwrites an existing status with NULL and gives a new row "Absent"),
   * and the attendance of every other meeting is unchanged.
   */
  lemma TakeAttendanceSpec(s: Store, mid: nat, form: map<nat, string>, k: nat, m: nat)
    requires Valid(s) && TakeAttendance(s, mid, form).Ok? && k < |s.members|
    ensures var r := TakeAttendance(s, mid, form).value; var uid := s.members[k].id;
      && Valid(r)
      && Lookup(r.attendances, mid, uid).Some?
      && Lookup(r.attendances, mid, uid).value.status == Marked(FindRow(s.attendances, mid, uid).Some?, Get(form, uid))
      && (m != mid ==> AttendanceOf(r.attendances, m) == AttendanceOf(s.attendances, m))
  {
    RollCallMarks(s.attendances, mid, s.members, form, k);
    RollCallValid(s.attendances, mid, s.members, form);
    if m != mid {
      RollCallOtherMeeting(s.attendances, mid, s.members, form, m);
    }
  }

  /**
   * `add_motion`: a missing text violates NOT NULL; otherwise the motion is
   * added to meeting `mid`, with status "Pending" when none was submitted.
   * Whether the meeting or the linked agenda item exists is not checked.
   */
  function AddMotion(s: Store, mid: nat, form: MotionForm): (r: Result<Store>)
    ensures r.Err? <==> form.text.None?
    ensures r.Err? ==> r.failure == MissingValue("text")
    ensures r.Ok? ==> |r.value.motions| == |s.motions| + 1
    ensures r.Ok? ==> var m := r.value.motions[|s.motions|];
      && r.value == s.(motions := s.motions + [m])
      && !HasKey(s.motions, MotionKey, m.id) && m.meetingId == mid && m.text == form.text.value
      && m.agendaItemId == form.agendaItemId && m.proposerId == form.proposerId && m.seconderId == form.seconderId
      && m.status == (if form.status.Some? then form.status.value else Pending) && m.voteResults == form.voteResults
  {
    if form.text.None? then Err(MissingValue("text"))
    else
      var m := Motion(NextKey(s.motions, MotionKey), mid, form.agendaItemId, form.proposerId, form.seconderId,
                      form.text.value, form.status.GetOr(Pending), form.voteResults);
      Ok(s.(motions := s.motions + [m]))
  }

  /**
   * `add_statement`: a missing content violates NOT NULL; otherwise the
   * statement is added to meeting `mid`, stamped with the current time.
   */
  function AddStatement(s: Store, mid: nat, speakerId: Option<nat>, content: Option<string>,
                        agendaItemId: Option<nat>, now: Time): (r: Result<Store>)
    ensures r.Err? <==> content.None?
    ensures r.Err? ==> r.failure == MissingValue("content")
    ensures r.Ok? ==> |r.value.statements| == |s.statements| + 1
    ensures r.Ok? ==> var x := r.value.statements[|s.statements|];
      && r.value == s.(statements := s.statements + [x])
      && !HasKey(s.statements, StatementKey, x.id) && x.meetingId == mid && x.content == content.value
      && x.speakerId == speakerId && x.agendaItemId == agendaItemId && x.timestamp == now
  {
    if content.None? then Err(MissingValue("content"))
    else Ok(s.(statements := s.statements + [Statement(NextKey(s.statements, StatementKey), mid, agendaItemId, speakerId, content.value, now)]))
  }

  /** Appending a row with a new key keeps keys unique. */
  lemma AppendFresh<T>(rows: seq<T>, key: T -> nat, x: T)
    requires UniqueKeys(rows, key) && !HasKey(rows, key, key(x))
    ensures UniqueKeys(rows + [x], key)
  {
    assert forall i :: 0 <= i < |rows| ==> (rows + [x])[i] == rows[i];
  }

  /** Adding a motion or a statement keeps the store's invariants. */
  lemma AddMotionStatementValid(s: Store, mid: nat, form: MotionForm, speakerId: Option<nat>,
                                content: Option<string>, agendaItemId: Option<nat>, now: Time)
    requires Valid(s)
    ensures AddMotion(s, mid, form).Ok? ==> Valid(AddMotion(s, mid, form).value)
    ensures AddStatement(s, mid, speakerId, content, agendaItemId, now).Ok? ==>
              Valid(AddStatement(s, mid, speakerId, content, agendaItemId, now).value)
  {
    if form.text.Some? {
      AppendFresh(s.motions, MotionKey, AddMotion(s, mid, form).value.motions[|s.motions|]);
    }
    if content.Some? {
      var r := AddStatement(s, mid, speakerId, content, agendaItemId, now).value;
      AppendFresh(s.statements, StatementKey, r.statements[|s.statements|]);
    }
  }

  /**
   * `adjourn_meeting`: NotFound without the meeting; otherwise the meeting
   * found becomes "Finished" with the current time as its end, and nothing
   * else changes. Adjourning is not guarded: a finished meeting can be
   * adjourned again.
   */
  function Adjourn(s: Store, id: nat, now: Time): (r: Result<Store>)
    ensures r.Err? <==> !HasKey(s.meetings, MeetingKey, id)
    ensures r.Err? ==> r.failure == NotFound
    ensures r.Ok? ==> SameExceptMeetings(s, r.value) && |r.value.meetings| == |s.meetings|
    ensures r.Ok? ==> forall k :: 0 <= k < |s.meetings| ==>
              var before, after := s.meetings[k], r.value.meetings[k];
              if Find(s.meetings, MeetingKey, id) == Some(k)
              then after == before.(status := Finished, endedAt := Some(now))
              else after == before
  {
    match Find(s.meetings, MeetingKey, id)
    case None => Err(NotFound)
    case Some(i) => Ok(s.(meetings := s.meetings[i := s.meetings[i].(status := Finished, endedAt := Some(now))]))
  }

  /** A second adjourn overwrites the first: only the later end time remains. */
  lemma AdjournTwice(s: Store, id: nat, t1: Time, t2: Time)
    requires Adjourn(s, id, t1).Ok?
    ensures Adjourn(Adjourn(s, id, t1).value, id, t2) == Adjourn(s, id, t2)
  {
    var i := Find(s.meetings, MeetingKey, id).value;
    var once := s.meetings[i := s.meetings[i].(status := Finished, endedAt := Some(t1))];
    assert forall k :: 0 <= k < |s.meetings| ==> MeetingKey(once[k]) == MeetingKey(s.meetings[k]);
    FindAt(once, MeetingKey, id, i);
    var final := s.meetings[i].(status := Finished, endedAt := Some(t2));
    assert once[i].(status := Finished, endedAt := Some(t2)) == final;
    assert once[i := final] == s.meetings[i := final];
  }

  /** Adjourning keeps the store's invariants. */
  lemma AdjournValid(s: Store, id: nat, now: Time)
    requires Valid(s) && Adjourn(s, id, now).Ok?
    ensures Valid(Adjourn(s, id, now).value)
  {
    var r := Adjourn(s, id, now).value;
    assert forall k :: 0 <= k < |s.meetings| ==> MeetingKey(r.meetings[k]) == MeetingKey(s.meetings[k]);
  }
}
