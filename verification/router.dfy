/** Reactions on the bot's welcome message and the three onboarding chains
    they start. A chain makes its marker role the only marker the member
    holds, then sends the chain's private prompt. */
module ClassificationRouter {
  import opened Wrappers
  import opened Classification
  import opened RoleDirectory
  import opened Sequences

  datatype Chain = StudentChain | AlumniChain | FacultyChain

  /** The reaction emoji, reduced to the three the bot listens for. */
  datatype Emoji = School | GraduationCap | OfficeBuilding | OtherEmoji

  /** 🏫 starts the student chain, 🎓 the alumni chain, 🏢 the faculty
      chain; any other emoji starts nothing. */
  function ChainFor(e: Emoji): (c: Option<Chain>)
    ensures c.None? <==> e == OtherEmoji
    ensures c == Some(StudentChain) <==> e == School
    ensures c == Some(AlumniChain) <==> e == GraduationCap
    ensures c == Some(FacultyChain) <==> e == OfficeBuilding
  {
    match e
    case School => Some(StudentChain)
    case GraduationCap => Some(AlumniChain)
    case OfficeBuilding => Some(FacultyChain)
    case OtherEmoji => None
  }

  /** The classification a chain puts the member in. */
  function Target(c: Chain): (k: Class)
    ensures k != Unclassified
  {
    match c
    case StudentChain => Novice
    case AlumniChain => Alumni
    case FacultyChain => Faculty
  }

  function PromptFor(c: Chain): Prompt {
    match c
    case StudentChain => StudentPrompt
    case AlumniChain => AlumniPrompt
    case FacultyChain => FacultyPrompt
  }

  /** The two marker roles a chain removes, in the order it removes them. */
  function Dropped(c: Chain): (ds: (string, string))
    ensures IsMarker(ds.0) && IsMarker(ds.1) && ds.0 != ds.1
    ensures ClassOf(ds.0) != Target(c) && ClassOf(ds.1) != Target(c)
  {
    match c
    case StudentChain => (ALUMNI_NAME, FACULTY_NAME)
    case AlumniChain => (NOVICE_ROCKETEER_NAME, FACULTY_NAME)
    case FacultyChain => (NOVICE_ROCKETEER_NAME, ALUMNI_NAME)
  }

  /** All three marker roles exist in the guild; the chains look them up by
      name and the source aborts the event otherwise. */
  predicate MarkersExist(d: Directory) {
    NOVICE_ROCKETEER_NAME in d.guild && ALUMNI_NAME in d.guild && FACULTY_NAME in d.guild
  }

  /** Among the marker roles, `member` holds exactly the one for `k`. */
  predicate OnlyMarker(member: set<string>, k: Class) {
    && (NOVICE_ROCKETEER_NAME in member <==> k == Novice)
    && (ALUMNI_NAME in member <==> k == Alumni)
    && (FACULTY_NAME in member <==> k == Faculty)
  }

  /** `start_student_chain`, `start_alumni_chain` and `start_faculty_chain`:
      add the chain's marker, remove the other two, send the prompt. */
  function StartChain(d: Directory, c: Chain): (s: Step)
    requires MarkersExist(d)
    ensures s.dir.guild == d.guild
    ensures OnlyMarker(s.dir.member, Target(c))
    ensures forall x :: !IsMarker(x) ==> (x in s.dir.member <==> x in d.member)
    ensures |s.calls| >= 1 && s.calls[|s.calls| - 1] == SendPrompt(PromptFor(c))
    ensures AddRole(MarkerName(Target(c))) in s.calls <==> MarkerName(Target(c)) !in d.member
    ensures forall x :: IsMarker(x) && ClassOf(x) != Target(c) ==> (RemoveRole(x) in s.calls <==> x in d.member)
    ensures Valid(d) ==> Valid(s.dir)
  {
    var (first, second) := Dropped(c);
    var added := AddRoleByName(d, MarkerName(Target(c)));
    var less := RemoveRoleByName(added.dir, first);
    var least := RemoveRoleByName(less.dir, second);
    Step(least.dir, added.calls + less.calls + least.calls + [SendPrompt(PromptFor(c))])
  }

  /** A chain issues nothing but its own calls: the marker's add, if any,
      first; then removals of the two other markers; then its prompt, once,
      last. */
  lemma ChainCalls(d: Directory, c: Chain)
    requires MarkersExist(d)
    ensures var calls := StartChain(d, c).calls;
      && |calls| <= 4
      && (forall i :: 0 <= i < |calls| - 1 ==>
        || calls[i] == AddRole(MarkerName(Target(c)))
        || calls[i] == RemoveRole(Dropped(c).0)
        || calls[i] == RemoveRole(Dropped(c).1))
      && (AddRole(MarkerName(Target(c))) in calls ==> calls[0] == AddRole(MarkerName(Target(c))))
  {
    var (first, second) := Dropped(c);
    var m := MarkerName(Target(c));
    var added := AddRoleByName(d, m);
    var less := RemoveRoleByName(added.dir, first);
    var least := RemoveRoleByName(less.dir, second);
    var prompt := SendPrompt(PromptFor(c));
    assert StartChain(d, c).calls == added.calls + less.calls + least.calls + [prompt];
    OptionalsThenLast(added.calls, less.calls, least.calls, prompt, AddRole(m), RemoveRole(first), RemoveRole(second));
  }

  /** After a chain runs, every listing of the member's roles classifies as
      the chain's target, whatever order the platform lists them in. */
  lemma ChainClassifies(d: Directory, c: Chain, roles: seq<string>)
    requires MarkersExist(d)
    requires forall x :: x in roles <==> x in StartChain(d, c).dir.member
    ensures Classify(roles) == Target(c)
  {
    var m := MarkerName(Target(c));
    SingleMarker(roles, m);
  }

  /** `reaction_add`: a reaction counts only when it is on a message the bot
      wrote and was added by someone other than the bot. It is then deleted,
      and the emoji picks the chain to run. */
  function OnReaction(d: Directory, onBotMessage: bool, reactorIsBot: bool, e: Emoji): (s: Step)
    requires onBotMessage && !reactorIsBot && e != OtherEmoji ==> MarkersExist(d)
    ensures !onBotMessage || reactorIsBot ==> s == Step(d, [])
    ensures onBotMessage && !reactorIsBot ==> |s.calls| >= 1 && s.calls[0] == DeleteReaction
    ensures onBotMessage && !reactorIsBot && e == OtherEmoji ==> s == Step(d, [DeleteReaction])
    ensures onBotMessage && !reactorIsBot && e != OtherEmoji ==>
      && OnlyMarker(s.dir.member, Target(ChainFor(e).value))
      && (forall x :: !IsMarker(x) ==> (x in s.dir.member <==> x in d.member))
      && s.dir.guild == d.guild
    ensures onBotMessage && !reactorIsBot && e != OtherEmoji ==>
      && s.calls[1..] == StartChain(d, ChainFor(e).value).calls
      && s.calls[|s.calls| - 1] == SendPrompt(PromptFor(ChainFor(e).value))
    ensures Valid(d) ==> Valid(s.dir)
  {
    if onBotMessage && !reactorIsBot then
      match ChainFor(e)
      case None => Step(d, [DeleteReaction])
      case Some(c) =>
        var chain := StartChain(d, c);
        Step(chain.dir, [DeleteReaction] + chain.calls)
    else
      Step(d, [])
  }
}
