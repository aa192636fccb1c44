/** The guild's role directory as seen by the bot: the names of the roles
    that exist in the guild and the names of the roles one member holds.
    Platform calls always succeed here; each operation returns the new
    directory together with the remote calls it would issue, so that the
    "only if absent" / "only if held" guards of the source are visible. */
module RoleDirectory {

  datatype Directory = Directory(guild: set<string>, member: set<string>)

  /** A member can only hold roles that exist in the guild. */
  predicate Valid(d: Directory) {
    d.member <= d.guild
  }

  /** The private prompt each onboarding chain sends; the texts themselves
      are not modelled. */
  datatype Prompt = StudentPrompt | AlumniPrompt | FacultyPrompt

  /** A remote call to the chat platform. */
  datatype Call =
    | CreateRole(name: string)
    | AddRole(name: string)
    | RemoveRole(name: string)
    | DeleteReaction
    | SendPrompt(prompt: Prompt)

  /** The directory after an operation, and the calls issued, in order. */
  datatype Step = Step(dir: Directory, calls: seq<Call>)

  /** `add_role_by_name`: the role must already exist (the source unwraps
      the lookup); it is added only if the member lacks it. */
  function AddRoleByName(d: Directory, name: string): (s: Step)
    requires name in d.guild
    ensures s.dir.guild == d.guild
    ensures name in s.dir.member
    ensures forall x :: x != name ==> (x in s.dir.member <==> x in d.member)
    ensures name in d.member ==> s == Step(d, [])
    ensures name !in d.member ==> s.calls == [AddRole(name)]
    ensures Valid(d) ==> Valid(s.dir)
  {
    if name !in d.member then
      Step(d.(member := d.member + {name}), [AddRole(name)])
    else
      Step(d, [])
  }

  /** `remove_role_by_name`: the role must exist; it is removed only if the
      member holds it. */
  function RemoveRoleByName(d: Directory, name: string): (s: Step)
    requires name in d.guild
    ensures s.dir.guild == d.guild
    ensures name !in s.dir.member
    ensures forall x :: x != name ==> (x in s.dir.member <==> x in d.member)
    ensures name !in d.member ==> s == Step(d, [])
    ensures name in d.member ==> s.calls == [RemoveRole(name)]
    ensures Valid(d) ==> Valid(s.dir)
  {
    if name in d.member then
      Step(d.(member := d.member - {name}), [RemoveRole(name)])
    else
      Step(d, [])
  }

  /** `add_create_role`: creates the role (hoisted) when no role of that
      name exists, then gives it to the member if the member lacks it. */
  function AddCreateRole(d: Directory, name: string): (s: Step)
    ensures name in s.dir.guild && name in s.dir.member
    ensures forall x :: x != name ==> (x in s.dir.guild <==> x in d.guild)
    ensures forall x :: x != name ==> (x in s.dir.member <==> x in d.member)
    ensures CreateRole(name) in s.calls <==> name !in d.guild
    ensures AddRole(name) in s.calls <==> name !in d.member
    ensures forall c :: c in s.calls ==> c == CreateRole(name) || c == AddRole(name)
    ensures |s.calls| <= 2
    ensures name !in d.guild ==> s.calls[0] == CreateRole(name)
    ensures Valid(d) ==> Valid(s.dir)
  {
    var created := if name in d.guild then [] else [CreateRole(name)];
    var d' := d.(guild := d.guild + {name});
    var added := if name in d'.member then [] else [AddRole(name)];
    Step(d'.(member := d'.member + {name}), created + added)
  }

  /** Each operation is idempotent: repeating it changes nothing and issues
      no further call, so a repeated role is never created twice. */
  lemma RoleOpsIdempotent(d: Directory, name: string)
    ensures var s := AddCreateRole(d, name); AddCreateRole(s.dir, name) == Step(s.dir, [])
    ensures name in d.guild ==>
      var s := AddRoleByName(d, name); AddRoleByName(s.dir, name) == Step(s.dir, [])
    ensures name in d.guild ==>
      var s := RemoveRoleByName(d, name); RemoveRoleByName(s.dir, name) == Step(s.dir, [])
  {
  }

  /** The roles of `names` granted one after another with `AddCreateRole`.
      Only roles that were missing are created, only roles the member
      lacked are added, and nothing is taken away. */
  function ApplyRoles(d: Directory, names: seq<string>): (s: Step)
    ensures forall x :: x in s.dir.guild <==> x in d.guild || x in names
    ensures forall x :: x in s.dir.member <==> x in d.member || x in names
    ensures |s.calls| <= 2 * |names|
    ensures forall c :: c in s.calls ==> c.CreateRole? || c.AddRole?
    ensures forall c :: c in s.calls && c.CreateRole? ==> c.name !in d.guild && c.name in names
    ensures forall c :: c in s.calls && c.AddRole? ==> c.name !in d.member && c.name in names
    ensures (forall x :: x in names ==> x in d.guild && x in d.member) ==> s.calls == []
    ensures forall x :: x in names && x !in d.guild ==> CreateRole(x) in s.calls
    ensures forall x :: x in names && x !in d.member ==> AddRole(x) in s.calls
    ensures Valid(d) ==> Valid(s.dir)
    decreases |names|
  {
    if |names| == 0 then Step(d, [])
    else
      var first := AddCreateRole(d, names[0]);
      var rest := ApplyRoles(first.dir, names[1..]);
      assert forall x :: x in names <==> x == names[0] || x in names[1..];
      Step(rest.dir, first.calls + rest.calls)
  }

  /** Granting the same roles a second time issues no call at all. */
  lemma {:induction false} ApplyRolesTwice(d: Directory, names: seq<string>)
    ensures var s := ApplyRoles(d, names); ApplyRoles(s.dir, names) == Step(s.dir, [])
  {
    var s := ApplyRoles(d, names);
    var again := ApplyRoles(s.dir, names);
    assert again.dir.guild == s.dir.guild;
    assert again.dir.member == s.dir.member;
    assert again.dir == s.dir;
  }
}
