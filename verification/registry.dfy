/**
 * The member list and the role registry: adding and deleting members, and
 * adding and deleting the role names offered on the settings page.
 */
module Registry {
  import opened Outcomes
  import opened Tables
  import opened Records
  import opened Quorum

  /**
   * `add_member`: a missing first or last name violates NOT NULL; otherwise
   * the member is appended with the next rowid. The role fields are free
   * text, not references to the role table.
   */
  function AddMember(s: Store, firstName: Option<string>, lastName: Option<string>,
                     primaryRole: Option<string>, secondaryRole: Option<string>): (r: Result<Store>)
    ensures r.Err? <==> firstName.None? || lastName.None?
    ensures firstName.None? ==> r == Err(MissingValue("first_name"))
    ensures firstName.Some? && lastName.None? ==> r == Err(MissingValue("last_name"))
    ensures r.Ok? ==> |r.value.members| == |s.members| + 1
    ensures r.Ok? ==> var m := r.value.members[|s.members|];
      && r.value == s.(members := s.members + [m])
      && !HasKey(s.members, MemberKey, m.id)
      && m.firstName == firstName.value && m.lastName == lastName.value
      && m.primaryRole == primaryRole && m.secondaryRole == secondaryRole
  {
    if firstName.None? then Err(MissingValue("first_name"))
    else if lastName.None? then Err(MissingValue("last_name"))
    else Ok(s.(members := s.members + [Member(NextKey(s.members, MemberKey), firstName.value, lastName.value,
                                               primaryRole, secondaryRole)]))
  }

  /** Adding a member keeps the store's invariants. */
  lemma AddMemberValid(s: Store, firstName: Option<string>, lastName: Option<string>,
                       primaryRole: Option<string>, secondaryRole: Option<string>)
    requires Valid(s) && AddMember(s, firstName, lastName, primaryRole, secondaryRole).Ok?
    ensures Valid(AddMember(s, firstName, lastName, primaryRole, secondaryRole).value)
  {
    var r := AddMember(s, firstName, lastName, primaryRole, secondaryRole).value;
    assert forall i :: 0 <= i < |s.members| ==> r.members[i] == s.members[i];
  }

  /**
   * `delete_member`: NotFound without the member; otherwise only the member
   * row goes. Nothing cascades: attendance rows, motions and statements
   * naming the member stay.
   */
  function DeleteMember(s: Store, id: nat): (r: Result<Store>)
    ensures r.Err? <==> !HasKey(s.members, MemberKey, id)
    ensures r.Err? ==> r.failure == NotFound
    ensures r.Ok? ==> r.value == s.(members := r.value.members)
    ensures r.Ok? ==> forall m :: m in r.value.members <==> m in s.members && m.id != id
  {
    if Find(s.members, MemberKey, id).None? then Err(NotFound)
    else Ok(s.(members := RemoveKey(s.members, MemberKey, id)))
  }

  /**
   * A deleted member's attendance still counts: after `delete_member` the
   * attendance rows naming them remain, so every meeting's present count
   * and quorum are what they were, while the member list shrinks by one.
   */
  lemma DeleteMemberKeepsQuorum(s: Store, id: nat, meeting: Meeting)
    requires Valid(s) && DeleteMember(s, id).Ok?
    ensures var r := DeleteMember(s, id).value;
      && Valid(r)
      && |r.members| == |s.members| - 1
      && (forall a :: a in s.attendances && a.memberId == id ==> a in r.attendances)
      && PresentCount(r.attendances, meeting.id) == PresentCount(s.attendances, meeting.id)
      && QuorumMet(meeting, r.attendances) == QuorumMet(meeting, s.attendances)
  {
    RemoveKeyUnique(s.members, MemberKey, id);
  }

  /** Some role is named `name`: `Role.query.filter_by(name=name).first()`. */
  predicate HasRoleNamed(roles: seq<Role>, name: string) {
    exists i :: 0 <= i < |roles| && roles[i].name == name
  }

  /**
   * `add_role`: a missing or empty name, or one already in use, changes
   * nothing; any other name is appended with the next rowid.
   */
  function AddRole(s: Store, name: Option<string>): (r: Store)
    ensures name == None || name == Some("") ==> r == s
    ensures name.Some? && HasRoleNamed(s.roles, name.value) ==> r == s
    ensures name.Some? && name != Some("") ==> HasRoleNamed(r.roles, name.value)
    ensures name.Some? && name != Some("") && !HasRoleNamed(s.roles, name.value) ==>
              && |r.roles| == |s.roles| + 1 && r.roles[..|s.roles|] == s.roles
              && r.roles[|s.roles|].name == name.value && !HasKey(s.roles, RoleKey, r.roles[|s.roles|].id)
    ensures r == s.(roles := r.roles)
  {
    if name == None || name == Some("") || HasRoleNamed(s.roles, name.value) then s
    else
      var roles := s.roles + [Role(NextKey(s.roles, RoleKey), name.value)];
      assert roles[..|s.roles|] == s.roles;
      assert roles[|s.roles|].name == name.value;
      s.(roles := roles)
  }

  /** Adding a role keeps role names unique and the store's invariants. */
  lemma AddRoleValid(s: Store, name: Option<string>)
    requires Valid(s)
    ensures Valid(AddRole(s, name))
  {
    var r := AddRole(s, name);
    if r != s {
      assert forall i :: 0 <= i < |s.roles| ==> r.roles[i] == s.roles[i];
      assert forall i :: 0 <= i < |s.roles| ==> r.roles[i].name != name.value;
    }
  }

  /** Submitting the same role name twice adds it once. */
  lemma AddRoleIdempotent(s: Store, name: Option<string>)
    ensures AddRole(AddRole(s, name), name) == AddRole(s, name)
  {
  }

  /**
   * `delete_role`: a missing role is ignored; otherwise the role row goes.
   * Members keep their role texts, which do not refer to the role table.
   */
  function DeleteRole(s: Store, id: nat): (r: Store)
    ensures !HasKey(r.roles, RoleKey, id)
    ensures !HasKey(s.roles, RoleKey, id) ==> r == s
    ensures forall x :: x in r.roles <==> x in s.roles && x.id != id
    ensures r == s.(roles := r.roles)
  {
    if Find(s.roles, RoleKey, id).None? then s
    else s.(roles := RemoveKey(s.roles, RoleKey, id))
  }

  /** Deleting a role keeps role names unique and the store's invariants. */
  lemma DeleteRoleValid(s: Store, id: nat)
    requires Valid(s)
    ensures Valid(DeleteRole(s, id))
    ensures HasKey(s.roles, RoleKey, id) ==> |DeleteRole(s, id).roles| == |s.roles| - 1
  {
    RemoveKeyUnique(s.roles, RoleKey, id);
    RemoveKeyIsFilter(s.roles, RoleKey, id);
    FilterUniqueKeys(s.roles, x => RoleKey(x) != id, RoleName);
  }
}
