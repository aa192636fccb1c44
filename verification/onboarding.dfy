/** The direct-message handler: the member's classification, read from
    their roles, decides which parser each token of the message goes to;
    accepted tokens grant roles, and the member gets the parsers' rejection
    replies or, when nothing was rejected, one confirmation. */
module Onboarding {
  import opened Wrappers
  import opened Text
  import opened Numbers
  import opened Replies
  import opened ResponseParser
  import opened Classification
  import opened RoleDirectory

  /** The replies sent, in order, and the roles to grant, in order. */
  datatype Response = Response(replies: seq<Reply>, grants: seq<string>)

  /** The reply a parser sends itself: its rejection, if any. */
  function Rejected(p: ParseResult): seq<Reply> {
    if p.Reject? then [p.reply] else []
  }

  /** The role a parser grants, if any. */
  function Granted(p: ParseResult): seq<string> {
    if p.Accept? && p.role.Some? then [p.role.value] else []
  }

  /** The rejection replies of `parsed`, in order. */
  function Rejections(parsed: seq<ParseResult>): (out: seq<Reply>)
    ensures out == [] <==> forall i :: 0 <= i < |parsed| ==> parsed[i].Accept?
    ensures forall k :: 0 <= k < |out| ==> exists i :: 0 <= i < |parsed| && parsed[i] == Reject(out[k])
  {
    if |parsed| == 0 then [] else Rejected(parsed[0]) + Rejections(parsed[1..])
  }

  /** The roles granted by `parsed`, in order. */
  function Grants(parsed: seq<ParseResult>): (out: seq<string>)
    ensures |out| <= |parsed|
    ensures forall k :: 0 <= k < |out| ==> exists i :: 0 <= i < |parsed| && parsed[i] == Accept(Some(out[k]))
  {
    if |parsed| == 0 then [] else Granted(parsed[0]) + Grants(parsed[1..])
  }

  /** What the handler can do with one parse result: a rejection carries
      one of the complaint texts, an accepted role is a year or level role. */
  predicate WellFormed(p: ParseResult) {
    && (p.Reject? ==> IsComplaint(p.reply))
    && (p.Accept? && p.role.Some? ==> IsYearRole(p.role.value) || IsLevelRole(p.role.value))
  }

  lemma ParsersWellFormed(token: string)
    ensures WellFormed(ComputeAddingYear(token))
    ensures WellFormed(ComputeAddingLevel(token))
  {
  }

  lemma WellFormedOutputs(parsed: seq<ParseResult>)
    requires forall i :: 0 <= i < |parsed| ==> WellFormed(parsed[i])
    ensures forall k :: 0 <= k < |Rejections(parsed)| ==> IsComplaint(Rejections(parsed)[k])
    ensures forall k :: 0 <= k < |Grants(parsed)| ==> IsYearRole(Grants(parsed)[k]) || IsLevelRole(Grants(parsed)[k])
  {
    var rejections := Rejections(parsed);
    forall k | 0 <= k < |rejections| ensures IsComplaint(rejections[k]) {
      var i :| 0 <= i < |parsed| && parsed[i] == Reject(rejections[k]);
      assert WellFormed(parsed[i]);
    }
    var grants := Grants(parsed);
    forall k | 0 <= k < |grants| ensures IsYearRole(grants[k]) || IsLevelRole(grants[k]) {
      var i :| 0 <= i < |parsed| && parsed[i] == Accept(Some(grants[k]));
      assert WellFormed(parsed[i]);
    }
  }

  /** The handler's outcome after running the parsers in `parsed` order:
      their rejection replies, then the confirmation exactly when none of
      them rejected; accepted roles are granted even if another token was
      rejected. */
  function Finish(parsed: seq<ParseResult>): (r: Response)
    ensures |r.replies| >= 1
    ensures (forall i :: 0 <= i < |parsed| ==> parsed[i].Accept?) ==> r.replies == [Success]
    ensures |r.grants| <= |parsed|
  {
    var rejections := Rejections(parsed);
    Response(rejections + (if rejections == [] then [Success] else []), Grants(parsed))
  }

  /** What `Finish` promises when every parse result is well formed: at
      least one reply; the confirmation exactly when every token was
      accepted, and then alone; at most one grant per token, each a year
      or level role. */
  lemma FinishOutcome(parsed: seq<ParseResult>)
    requires forall i :: 0 <= i < |parsed| ==> WellFormed(parsed[i])
    ensures var r := Finish(parsed);
      && |r.replies| >= 1
      && (Success in r.replies <==> forall i :: 0 <= i < |parsed| ==> parsed[i].Accept?)
      && (Success in r.replies ==> r.replies == [Success])
      && |r.grants| <= |parsed|
      && (forall k :: 0 <= k < |r.grants| ==> IsYearRole(r.grants[k]) || IsLevelRole(r.grants[k]))
  {
    var rejections := Rejections(parsed);
    WellFormedOutputs(parsed);
    assert Success !in rejections;
  }

  /** The two token parsers. */
  datatype Parser = YearParser | LevelParser

  /** One parser run on one token. */
  datatype Invocation = Invocation(parser: Parser, token: string)

  /** What the handler decides to do with a message before any token is
      parsed: ignore it (blank), run parsers, refuse two tokens, or confirm
      a message of three or more tokens without parsing it. */
  datatype Plan = Ignore | Parse(invocations: seq<Invocation>) | Refuse | Confirm

  /** The routing of `Handler::message`. The message is split on single
      spaces: one token goes to the level parser for faculty and to the
      year parser for everyone else, the unclassified included; two tokens
      are year and level for alumni and too many for everyone else. */
  function Dispatch(roles: seq<string>, content: string): (p: Plan)
    ensures p == Ignore <==> AllWhitespace(content)
    ensures p.Parse? ==> 1 <= |p.invocations| <= 2
    ensures p.Parse? && Classify(roles) != Alumni ==> |p.invocations| == 1
    ensures p == Refuse ==> Classify(roles) != Alumni
    ensures Count(content, ' ') >= 2 && !AllWhitespace(content) ==> p == Confirm
  {
    TrimEmptyIffAllWhitespace(content);
    if Trim(content) == [] then
      Ignore
    else
      var tokens := Split(content);
      var state := Classify(roles);
      if |tokens| == 1 then
        Parse([Invocation(if state != Faculty then YearParser else LevelParser, tokens[0])])
      else if |tokens| == 2 then
        if state == Alumni then
          Parse([Invocation(YearParser, tokens[0]), Invocation(LevelParser, tokens[1])])
        else
          Refuse
      else
        Confirm
  }

  /** `compute_adding_year` or `compute_adding_level`, as invoked. */
  function Run(call: Invocation): (r: ParseResult)
    ensures WellFormed(r)
  {
    ParsersWellFormed(call.token);
    match call.parser
    case YearParser => ComputeAddingYear(call.token)
    case LevelParser => ComputeAddingLevel(call.token)
  }

  function RunAll(calls: seq<Invocation>): (rs: seq<ParseResult>)
    ensures |rs| == |calls|
    ensures forall i :: 0 <= i < |calls| ==> rs[i] == Run(calls[i]) && WellFormed(rs[i])
  {
    seq(|calls|, i requires 0 <= i < |calls| => Run(calls[i]))
  }

  /** `Handler::message` for a private message from a member whose roles
      are listed as `roles`: the replies sent and the roles granted. */
  function Respond(roles: seq<string>, content: string): (r: Response)
    ensures r.replies == [] <==> AllWhitespace(content)
    ensures |r.grants| <= 2
  {
    match Dispatch(roles, content)
    case Ignore => Response([], [])
    case Parse(calls) => Finish(RunAll(calls))
    case Refuse => Response([TooManyArguments], [])
    case Confirm => Response([Success], [])
  }

  /** A blank message gets no answer at all; any other message gets at
      least one reply. */
  lemma RespondBlank(roles: seq<string>, content: string)
    ensures AllWhitespace(content) ==> Respond(roles, content) == Response([], [])
    ensures !AllWhitespace(content) ==> |Respond(roles, content).replies| >= 1
  {
    match Dispatch(roles, content)
    case Ignore =>
    case Parse(calls) =>
      RespondParsed(roles, content, calls);
      FinishOutcome(RunAll(calls));
    case Refuse =>
    case Confirm =>
  }

  /** The confirmation is only ever sent alone. */
  lemma RespondConfirmation(roles: seq<string>, content: string)
    ensures var r := Respond(roles, content);
      Success in r.replies ==> r.replies == [Success]
  {
    match Dispatch(roles, content)
    case Ignore =>
    case Parse(calls) =>
      RespondParsed(roles, content, calls);
      FinishOutcome(RunAll(calls));
    case Refuse =>
      assert Respond(roles, content).replies == [TooManyArguments];
    case Confirm =>
  }

  /** The confirmation is sent exactly when the message is confirmed
      unparsed or every parser that ran accepted its token: never for a
      blank message, and never after "Too many arguments!". */
  lemma RespondSuccess(roles: seq<string>, content: string)
    ensures var plan := Dispatch(roles, content);
      Success in Respond(roles, content).replies
      <==> plan == Confirm || (plan.Parse? && forall i :: 0 <= i < |plan.invocations| ==> Run(plan.invocations[i]).Accept?)
  {
    match Dispatch(roles, content)
    case Ignore =>
    case Parse(calls) =>
      RespondParsed(roles, content, calls);
      FinishAccepted(calls);
    case Refuse =>
      assert Respond(roles, content).replies == [TooManyArguments];
    case Confirm =>
  }

  lemma FinishAccepted(calls: seq<Invocation>)
    ensures Success in Finish(RunAll(calls)).replies
      <==> forall i :: 0 <= i < |calls| ==> Run(calls[i]).Accept?
  {
    var parsed := RunAll(calls);
    FinishOutcome(parsed);
    assert (forall i :: 0 <= i < |parsed| ==> parsed[i].Accept?)
      <==> (forall i :: 0 <= i < |calls| ==> Run(calls[i]).Accept?);
  }

  /** At most two roles are granted, each a year or a level role. */
  lemma RespondGrants(roles: seq<string>, content: string)
    ensures var r := Respond(roles, content);
      && |r.grants| <= 2
      && (forall k :: 0 <= k < |r.grants| ==> IsYearRole(r.grants[k]) || IsLevelRole(r.grants[k]))
  {
    match Dispatch(roles, content)
    case Ignore =>
    case Parse(calls) =>
      RespondParsed(roles, content, calls);
      FinishOutcome(RunAll(calls));
    case Refuse =>
    case Confirm =>
  }

  /** A message of three or more tokens is confirmed without parsing. */
  lemma RespondLongMessage(roles: seq<string>, content: string)
    requires Count(content, ' ') >= 2 && !AllWhitespace(content)
    ensures Respond(roles, content) == Response([Success], [])
  {
    assert Dispatch(roles, content) == Confirm;
  }

  /** One parser run: its role and the confirmation, or its rejection
      alone. */
  lemma FinishOne(p: ParseResult)
    ensures p.Accept? ==> Finish([p]) == Response([Success], Granted(p))
    ensures p.Reject? ==> Finish([p]) == Response([p.reply], [])
  {
    assert [p][1..] == [];
    if p.Accept? {
      assert Rejections([p]) == [];
    } else {
      assert Rejections([p]) == [p.reply];
      assert Grants([p]) == [];
    }
  }

  lemma FinishTwo(p: ParseResult, q: ParseResult)
    ensures Finish([p, q])
      == Response(Rejected(p) + Rejected(q) + (if p.Accept? && q.Accept? then [Success] else []), Granted(p) + Granted(q))
  {
    assert [p, q][1..] == [q];
    assert [q][1..] == [];
    assert Rejections([q]) == Rejected(q);
    assert Rejections([p, q]) == Rejected(p) + Rejected(q);
    assert Grants([q]) == Granted(q);
    assert Grants([p, q]) == Granted(p) + Granted(q);
  }

  /** A lone token goes to the level parser for faculty and to the year
      parser for every other state. */
  lemma DispatchSingleToken(roles: seq<string>, token: string)
    requires ' ' !in token && !AllWhitespace(token)
    ensures Dispatch(roles, token)
      == Parse([Invocation(if Classify(roles) == Faculty then LevelParser else YearParser, token)])
  {
    TrimEmptyIffAllWhitespace(token);
    SplitNoSpace(token);
  }

  /** Two tokens are year then level for an alumnus, and too many for
      anyone else. */
  lemma DispatchPair(roles: seq<string>, first: string, second: string)
    requires ' ' !in first && ' ' !in second
    requires !AllWhitespace(first + " " + second)
    ensures Dispatch(roles, first + " " + second)
      == if Classify(roles) == Alumni
         then Parse([Invocation(YearParser, first), Invocation(LevelParser, second)])
         else Refuse
  {
    TrimEmptyIffAllWhitespace(first + " " + second);
    SplitPrefix(first, second);
    SplitNoSpace(second);
    assert Split(first + " " + second) == [first, second];
  }

  /** Once the plan is to parse, the answer is what the parsers produce. */
  lemma RespondParsed(roles: seq<string>, content: string, calls: seq<Invocation>)
    requires Dispatch(roles, content) == Parse(calls)
    ensures Respond(roles, content) == Finish(RunAll(calls))
  {
  }

  lemma RunOne(c: Invocation)
    ensures RunAll([c]) == [Run(c)]
  {
  }

  lemma RunTwo(c: Invocation, d: Invocation)
    ensures RunAll([c, d]) == [Run(c), Run(d)]
  {
  }

  /** A lone token's role is granted if its parser accepts it, and the
      member gets either the confirmation or the parser's rejection. */
  lemma RouteSingleToken(roles: seq<string>, token: string)
    requires ' ' !in token && !AllWhitespace(token)
    ensures var p := if Classify(roles) == Faculty then ComputeAddingLevel(token) else ComputeAddingYear(token);
      && (p.Accept? ==> Respond(roles, token) == Response([Success], Granted(p)))
      && (p.Reject? ==> Respond(roles, token) == Response([p.reply], []))
  {
    DispatchSingleToken(roles, token);
    var call := Invocation(if Classify(roles) == Faculty then LevelParser else YearParser, token);
    RespondParsed(roles, token, [call]);
    RunOne(call);
    FinishOne(Run(call));
  }

  /** An alumnus's two tokens are handled independently: accepted roles
      are granted even when the other token is rejected, and the
      confirmation comes only when both are accepted. */
  lemma RouteAlumniPair(roles: seq<string>, year: string, level: string)
    requires Classify(roles) == Alumni
    requires ' ' !in year && ' ' !in level
    requires !AllWhitespace(year + " " + level)
    ensures var y := ComputeAddingYear(year);
      var l := ComputeAddingLevel(level);
      var r := Respond(roles, year + " " + level);
      && r.grants == Granted(y) + Granted(l)
      && r.replies == Rejected(y) + Rejected(l) + (if y.Accept? && l.Accept? then [Success] else [])
  {
    var first, second := Invocation(YearParser, year), Invocation(LevelParser, level);
    DispatchPair(roles, year, level);
    RespondParsed(roles, year + " " + level, [first, second]);
    RunTwo(first, second);
    FinishTwo(Run(first), Run(second));
  }

  /** Two tokens from anyone but an alumnus are refused as a whole. */
  lemma RouteOtherPair(roles: seq<string>, first: string, second: string)
    requires Classify(roles) != Alumni
    requires ' ' !in first && ' ' !in second
    requires !AllWhitespace(first + " " + second)
    ensures Respond(roles, first + " " + second) == Response([TooManyArguments], [])
  {
    DispatchPair(roles, first, second);
  }

  /** Year and level roles are never marker roles, so answering a direct
      message never changes a member's classification. */
  lemma GrantedRolesAreNotMarkers(name: string)
    requires IsYearRole(name) || IsLevelRole(name)
    ensures !IsMarker(name)
  {
    if IsYearRole(name) {
      assert |name| == 12;
    }
  }

  /** The effect of one message event on the directory. */
  datatype Effect = Effect(dir: Directory, calls: seq<Call>, replies: seq<Reply>)

  /** `Handler::message` as a whole: only private messages from someone
      other than the bot are handled; `roles` is the platform's listing of
      the author's roles. The granted roles are created if missing and
      added if not held; nothing is ever removed, and the member's marker
      roles, hence their classification, are left as they were. */
  function HandleMessage(d: Directory, roles: seq<string>, isPrivate: bool, fromBot: bool, content: string): (e: Effect)
    requires forall x :: x in roles <==> x in d.member
    ensures !isPrivate || fromBot || AllWhitespace(content) ==> e == Effect(d, [], [])
    ensures e.replies == [] <==> !isPrivate || fromBot || AllWhitespace(content)
    ensures d.guild <= e.dir.guild && d.member <= e.dir.member
    ensures forall x :: IsMarker(x) ==> (x in e.dir.guild <==> x in d.guild)
    ensures forall x :: IsMarker(x) ==> (x in e.dir.member <==> x in d.member)
    ensures forall c :: c in e.calls ==> (c.CreateRole? && c.name !in d.guild) || (c.AddRole? && c.name !in d.member)
    ensures |e.calls| <= 4
    ensures Valid(d) ==> Valid(e.dir)
    ensures isPrivate && !fromBot ==> e.replies == Respond(roles, content).replies
    ensures isPrivate && !fromBot ==> forall x :: x in e.dir.member <==> x in d.member || x in Respond(roles, content).grants
    ensures isPrivate && !fromBot ==> forall x :: x in e.dir.guild <==> x in d.guild || x in Respond(roles, content).grants
  {
    if isPrivate && !fromBot then
      var response := Respond(roles, content);
      RespondBlank(roles, content);
      RespondGrants(roles, content);
      var applied := ApplyRoles(d, response.grants);
      forall x | x in response.grants
        ensures !IsMarker(x)
      {
        var k :| 0 <= k < |response.grants| && response.grants[k] == x;
        GrantedRolesAreNotMarkers(x);
      }
      Effect(applied.dir, applied.calls, response.replies)
    else
      Effect(d, [], [])
  }
}
