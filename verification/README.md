# MARC onboarding bot — Dafny model

This project models the onboarding logic of the MARC Discord bot
(`src/main.rs`). New members react to a welcome message to classify
themselves as student, alumni or faculty. They then answer in a direct
message with a graduation year and/or a rocketry certification level, and
the bot turns those answers into roles.

The member's onboarding state is never stored. Every event derives it again
from the member's role names:

- the marker role `"Novice Rocketeer"` means student;
- the marker role `"Alumni"` means alumni;
- the marker role `"Mudd Admin"` means faculty.

The model has four parts, each a module:

- `ResponseParser` (`parser.dfy`) holds the two token parsers,
  `compute_adding_year` and `compute_adding_level`. Each is a pure function
  from a token to `Accept(Some(role))`, `Accept(None)` or `Reject(reply)`.
  The replies are the enumeration `Reply` (`replies.dfy`); `ReplyText`
  gives the exact text the bot sends for each.
  They rest on `Numbers` (`numbers.dfy`), which gives Rust's `u64::from_str`
  (optional `+`, one or more ASCII digits, below 2^64) and decimal
  formatting. They also rest on `Text` (`text.dfy`), which gives Rust's
  `trim`, `split(" ")`, `replace` and `contains`.
- `Classification` (`classification.dfy`) holds the marker scan of the
  message handler. The last marker role in the platform's listing wins.
- `Onboarding` (`onboarding.dfy`) is the direct-message handler.
  `Dispatch` decides from the listed role names and the message text which
  parsers run on which tokens. `Respond` then gives the replies sent and
  the roles granted. `HandleMessage` also applies those grants to
  the guild and member role sets.
- `RoleDirectory` (`roles.dfy`) and `ClassificationRouter` (`router.dfy`)
  cover the rest.
  - The guild is a set of role names, and so is the member.
  - `add_role_by_name`, `remove_role_by_name` and `add_create_role` return
    the new sets together with the remote calls they issue. This keeps the
    "only if absent" and "only if held" guards observable.
  - The three `start_*_chain` functions and the `reaction_add` emoji
    routing are modelled on top of these.

`examples.dfy` works through concrete cases: years, levels, marker
precedence, alumni replies and a student reaction. `Sequences`
(`sequences.dfy`) holds two small facts about concatenating short
sequences that those cases use.

The model follows the code in `src/main.rs`. Three points in it are easy
to misread:

- When a member holds several marker roles, the LAST one in the listing
  decides, not the first.
- A lone token from an unclassified member is read as a year.
- A message of three or more space-separated tokens grants nothing but
  still gets the confirmation `"Roles successfully added! Thank you!"`.
  Empty tokens from repeated spaces count as tokens.

## Model

| member | source | states |
|---|---|---|
| Replies.ReplyTextInjective | src/main.rs:149-236 | the five reply texts the dialogue sends are pairwise distinct, so modelling replies as an enumeration loses nothing |
| Text.TrimEmptyIffAllWhitespace | src/main.rs:127 | `content.trim().is_empty()` holds exactly when every character is Unicode whitespace |
| Text.Split | src/main.rs:128 | `split(" ")` gives one more piece than there are spaces, and no piece contains a space |
| Text.JoinSplit | src/main.rs:128 | joining the split pieces with single spaces gives back the message, so splitting loses nothing |
| Text.SplitJoin | src/main.rs:128 | splitting space-free pieces joined by spaces gives back exactly those pieces (the inverse direction) |
| Text.RemoveAll | src/main.rs:218 | `replace("l", "")` leaves no `l`, shortens by the number of `l`s and keeps every other character |
| Text.RemoveAllChar | src/main.rs:218 | one character is deleted exactly when it is `l` and kept otherwise |
| Text.RemoveAllAppend | src/main.rs:218 | deleting distributes over concatenation, so the kept characters stay in their original order |
| Text.LowerAscii | src/main.rs:216 | `to_lowercase` keeps the length and maps each character independently, upper-case ASCII letters to lower case |
| Text.ContainsSubIff | src/main.rs:235 | `contains(pat)` holds exactly when `pat` occurs at some index of the string |
| Text.ContainsChar | src/main.rs:217 | `contains("l")` holds exactly when `l` is one of the characters |
| Text.RemoveAbsent | src/main.rs:218 | `replace("l", "")` on a string without `l` gives the string back |
| Numbers.ParseU64 | src/main.rs:197 | a `u64` parse succeeds exactly when, after at most one leading `+`, a non-empty digit string with value below 2^64 remains, and its result is that value |
| Numbers.ParseU64Exactly | src/main.rs:197 | the strings that parse to `n` are exactly an optional `+`, any number of zeros and the decimal rendering of `n`, for `n` below 2^64 |
| Numbers.ParseDecimal | src/main.rs:197 | round trip: every `u64` rendered in decimal, with or without `+`, parses back to itself |
| Numbers.DecimalOfDigits | src/main.rs:223 | round trip the other way: a canonical digit string is the decimal rendering of its value |
| Numbers.ParsedWidth | src/main.rs:199-202 | any token parsing to at least 1000 has at least four characters, and those at indices 2 and 3 are digits, so the indexing cannot fail |
| ResponseParser.ComputeAddingYear | src/main.rs:196-213 | accepted iff the token parses as `u64` y with 1900 < y < 9999; the role is `"Class of '"` plus the token's characters 2 and 3 and has the year-role shape; otherwise the reply is the invalid-year one |
| ResponseParser.YearOfRendering | src/main.rs:199-202 | for a year written plainly, the role carries the year's last two digits |
| ResponseParser.SignedYearOfRendering | src/main.rs:200-202 | with a leading `+` the role carries the year's second and third digits instead |
| ResponseParser.ComputeAddingLevel | src/main.rs:215-243 | a token with `l` (after lower-casing) is accepted iff deleting the `l`s leaves a `u64` in 1..3, which names the role `"Level n Rocketeer"`, else the invalid-level reply; a token without `l` is accepted with no role iff it contains `"none"`, else the missing-cert reply |
| ResponseParser.LevelOfRendering | src/main.rs:216-227 | `L1`..`L3` and `l1`..`l3` grant the matching level role |
| ResponseParser.LevelTokenNeverNone | src/main.rs:217-241 | a token containing `l` or `L` never takes the role-less "none" acceptance |
| Classification.Classify | src/main.rs:109-122 | the state is unclassified iff no marker is listed; otherwise it is the state of a listed marker after which no marker follows |
| Classification.ScanRoles | src/main.rs:114-122 | the handler's loop over the listed roles computes that same classification |
| Classification.ClassifyOnlyMarkers | src/main.rs:114-122 | non-marker roles never affect the classification, which depends only on the markers' subsequence |
| Classification.LastMarkerWins | src/main.rs:114-122 | a marker listed last decides the state, whatever precedes it |
| Classification.SingleMarker | src/main.rs:114-122 | if every listed marker is the same role, any listing order gives that role's state |
| RoleDirectory.AddRoleByName | src/main.rs:245-257 | the member holds the role afterwards; an add call is issued only if they lacked it; no other role and not the guild changes |
| RoleDirectory.RemoveRoleByName | src/main.rs:259-271 | the member lacks the role afterwards; a remove call is issued only if they held it; no other role and not the guild changes |
| RoleDirectory.AddCreateRole | src/main.rs:273-293 | the role exists and the member holds it afterwards; it is created only if absent and added only if not held; at most these two calls, the creation first; nothing else changes |
| RoleDirectory.RoleOpsIdempotent | src/main.rs:245-293 | repeating any of the three operations changes nothing and issues no call |
| RoleDirectory.ApplyRoles | src/main.rs:273-293 | granting a list of roles one by one adds exactly those names to guild and member; every missing role is created and every role not held is added, and no other role is created or added; issues no call when all are already held |
| RoleDirectory.ApplyRolesTwice | src/main.rs:273-293 | granting the same roles again issues no call, so no duplicate role is created |
| ClassificationRouter.ChainFor | src/main.rs:177-191 | exactly the three onboarding emoji start a chain: 🏫 the student chain, 🎓 the alumni chain, 🏢 the faculty chain |
| ClassificationRouter.StartChain | src/main.rs:295-332 | afterwards the member holds exactly the chain's marker among the three; other roles and the guild are unchanged; the marker is added only if missing and the others removed only if held; at most four calls: the marker's add first, then removals of other markers, then the chain's prompt, sent once and last |
| ClassificationRouter.ChainClassifies | src/main.rs:295-332 | after a chain, every listing of the member's roles classifies as the chain's state |
| ClassificationRouter.ChainCalls | src/main.rs:295-332 | a chain's calls are at most four: the marker's add, when issued, first; then only removals of the two other markers; then the prompt |
| ClassificationRouter.OnReaction | src/main.rs:161-193 | nothing happens unless the reaction is on the bot's message and by someone else; then the reaction is deleted first; another emoji changes nothing more; a chain emoji then issues exactly the chain's calls, ending with that chain's own prompt, and leaves exactly its marker while keeping other roles |
| Onboarding.Finish | src/main.rs:129-156 | after the invoked parsers ran: at least one reply; the confirmation alone when every token was accepted; at most one role per token |
| Onboarding.FinishOutcome | src/main.rs:129-156 | after the invoked parsers ran: at least one reply; the confirmation is sent iff none rejected, and then it is the only reply; at most one role per token, each a year or level role |
| Onboarding.Dispatch | src/main.rs:127-151 | a message is ignored iff blank; otherwise one or two parser runs, two only for an alumnus; only a non-alumnus is refused; three or more tokens are confirmed unparsed |
| Onboarding.DispatchSingleToken | src/main.rs:131-140 | a lone token goes to the level parser for faculty and to the year parser for every other state, the unclassified included |
| Onboarding.DispatchPair | src/main.rs:141-151 | two tokens go to the year then the level parser for an alumnus and are refused for everyone else |
| Onboarding.Respond | src/main.rs:127-156 | a private message gets no reply exactly when it is blank, and at most two roles are granted |
| Onboarding.RespondBlank | src/main.rs:127 | a blank message gets no reply and no role; any other message gets at least one reply |
| Onboarding.RespondConfirmation | src/main.rs:129-156 | the confirmation is only ever sent alone |
| Onboarding.RespondSuccess | src/main.rs:129-156 | the confirmation is sent exactly when the message has three or more tokens, or when every parser that ran accepted its token; never for a blank message and never with "Too many arguments!" |
| Onboarding.RespondGrants | src/main.rs:131-147 | at most two roles are granted per message, each a year or level role |
| Onboarding.RespondLongMessage | src/main.rs:128-155 | a message of three or more tokens (empty ones included) grants nothing and gets just the confirmation |
| Onboarding.RouteSingleToken | src/main.rs:131-156 | for a lone token the member gets its parser's role and the confirmation, or its rejection alone |
| Onboarding.RouteAlumniPair | src/main.rs:141-156 | an alumnus's two tokens are parsed independently; each accepted role is granted even if the other is rejected; the confirmation comes only if both are accepted |
| Onboarding.RouteOtherPair | src/main.rs:148-151 | two tokens from anyone but an alumnus get `"Too many arguments!"` and no role |
| Onboarding.GrantedRolesAreNotMarkers | src/main.rs:33-35 | year and level roles are never marker roles |
| Onboarding.HandleMessage | src/main.rs:103-159 | only private messages from others are handled, and those get a reply unless blank, and a blank one changes nothing; roles are only created or added, never removed; the replies are exactly those `Respond` computes, and the roles added to the member and the server are exactly `Respond`'s grants; the member's marker roles, and so the classification, are unchanged |
| Examples.PlainYear | src/main.rs:196-206 | `"2019"` grants `"Class of '19"` |
| Examples.SignedYear | src/main.rs:197-202 | `"+2019"` grants `"Class of '01"` |
| Examples.ZeroPaddedYear | src/main.rs:197-202 | for every valid year, a leading `0` builds the role from the year's second and third digits |
| Examples.ZeroPaddedYear2019 | src/main.rs:197-202 | `"02019"` grants `"Class of '01"` |
| Examples.YearBounds | src/main.rs:199 | `"1900"` and `"9999"` are rejected: both bounds are exclusive |
| Examples.YearsRejected | src/main.rs:199-211 | `"1899"` is rejected with the invalid-year reply |
| Examples.NotYears | src/main.rs:197-211 | `"10000"`, `"abc"` and `"-2019"` are rejected with the invalid-year reply |
| Examples.OutOfRangeYear | src/main.rs:197-211 | every `u64` outside (1900, 9999), written in decimal, is rejected with the invalid-year reply |
| Examples.LevelDigits | src/main.rs:216-232 | `l` or `L` followed by digits is judged by the digits' value alone |
| Examples.PaddedLevel | src/main.rs:218-223 | `"l01"`..`"l03"` grant the level role named after the parsed number, without the zero |
| Examples.LevelOutOfRange | src/main.rs:218-232 | every `u64` level outside 1..3, after `L` or `l`, gets the invalid-level reply |
| Examples.LevelsRejected | src/main.rs:218-232 | `"l0"` and `"l4"` get the invalid-level reply |
| Examples.BareLevel | src/main.rs:218-232 | `"L"` alone gets the invalid-level reply |
| Examples.NoCertificate | src/main.rs:234-241 | `"none"` and `"None"` are accepted without a role; `"xyz"` gets the missing-cert reply |
| Examples.Precedence | src/main.rs:114-122 | a listing ending in faculty is faculty; one whose last marker is alumni is alumni; one without markers is unclassified |
| Examples.AlumnusBothValid | src/main.rs:141-156 | an alumnus answering a valid year and `L1`..`L3` gets both roles and the confirmation |
| Examples.AlumnusBadLevel | src/main.rs:141-156 | an alumnus answering a valid year and a level outside 1..3 gets the year role and only the invalid-level reply |
| Examples.LoneYear | src/main.rs:131-134 | anyone but faculty, the unclassified included, answering a valid year gets its role and the confirmation |
| Examples.FacultyLevel | src/main.rs:135-138 | faculty answering `L1`..`L3` gets the level role and the confirmation |
| Examples.StudentPair | src/main.rs:141-151 | a student answering a year and a level gets `"Too many arguments!"` and no role |
| Examples.StudentReaction | src/main.rs:161-193 | for every member holding the alumni and faculty markers but not the student one, 🏫 deletes the reaction, adds the student marker, removes the alumni then the faculty marker, keeps every other role and sends the student prompt |

## Left out

- The Serenity gateway, cache and HTTP calls are foreign asynchronous I/O. Their effects appear only as set updates, the returned call log and the returned replies.
- Failed remote calls are out of scope; every call is assumed to succeed. In the source, a failed role or reaction call is only logged, and a failed reply or private prompt is silently ignored.
- The `.unwrap()` lookups become preconditions, not process aborts:
  - `AddRoleByName` and `RemoveRoleByName` require the role to exist in the guild;
  - `StartChain` and `OnReaction` require the three marker roles to exist;
  - `HandleMessage` requires the role listing to name exactly the member's roles.
- The guild is one implicit directory. The debug/release server identifiers are not modelled.
- Roles are identified by name. Duplicate roles from two concurrent `add_create_role` calls cannot be represented. Concurrent events for the same member are not modelled either.
- `to_lowercase` is modelled for ASCII letters only. Non-ASCII case mapping is a Unicode table this model does not carry.
- Emoji are an enumeration with an `OtherEmoji` case. Rust's `ReactionType` equality is not modelled.
- The chain prompts are opaque constants (`Prompt`). Their exact text is not modelled.
- The console logging (`print_*`), the `setup` command and `main` are pure I/O.
- `Respond` returns the replies and the granted roles as two separate lists. How a rejection reply interleaves in time with the other parser's role calls is not modelled.
