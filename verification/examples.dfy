/** Worked cases of the onboarding dialogue, each derived from the general
    lemmas of the model. */
module Examples {
  import opened Wrappers
  import opened Text
  import opened Numbers
  import opened Replies
  import opened ResponseParser
  import opened Classification
  import opened RoleDirectory
  import opened ClassificationRouter
  import opened Onboarding
  import opened Sequences

  /** The plain year picks its last two digits. */
  lemma PlainYear()
    ensures ComputeAddingYear("2019") == Accept(Some("Class of '19"))
  {
    FourDigits(2019);
    assert DecimalString(2019) == "2019";
    YearOfRendering(2019);
    assert CLASS_OF + [DigitChar(1), DigitChar(9)] == "Class of '19";
  }

  /** A leading `+` shifts the digits the role name is built from. */
  lemma SignedYear()
    ensures ComputeAddingYear("+2019") == Accept(Some("Class of '01"))
  {
    var d := DecimalString(2019);
    FourDigits(2019);
    assert d == "2019";
    assert "+" + d == "+2019";
    SignedYearOfRendering(2019);
    assert CLASS_OF + [DigitChar(0), DigitChar(1)] == "Class of '01";
  }

  /** For every year: a leading `0` shifts the role to the year's second
      and third digits, as a leading `+` does. */
  lemma ZeroPaddedYear(y: nat)
    requires IsYear(y)
    ensures ComputeAddingYear("0" + DecimalString(y))
      == Accept(Some(CLASS_OF + [DigitChar(y / 100 % 10), DigitChar(y / 10 % 10)]))
  {
    var d := DecimalString(y);
    FourDigits(y);
    ZerosValue(1, d);
    assert Zeros(1) + d == "0" + d;
    DigitsValueOfDecimal(y);
    assert Unsigned("0" + d) == "0" + d;
    assert ("0" + d)[2] == d[1] && ("0" + d)[3] == d[2];
  }

  /** So does a leading `0`. */
  lemma ZeroPaddedYear2019()
    ensures ComputeAddingYear("02019") == Accept(Some("Class of '01"))
  {
    var d := DecimalString(2019);
    FourDigits(2019);
    assert d == "2019";
    assert "0" + d == "02019";
    ZeroPaddedYear(2019);
    assert CLASS_OF + [DigitChar(0), DigitChar(1)] == "Class of '01";
  }

  /** The bounds are exclusive. */
  lemma YearBounds()
    ensures ComputeAddingYear("1900") == Reject(InvalidYear)
    ensures ComputeAddingYear("9999") == Reject(InvalidYear)
  {
    FourDigits(1900);
    assert DecimalString(1900) == "1900";
    DigitsValueOfDecimal(1900);
    FourDigits(9999);
    assert DecimalString(9999) == "9999";
    DigitsValueOfDecimal(9999);
  }

  lemma YearsRejected()
    ensures ComputeAddingYear("1899") == Reject(InvalidYear)
  {
    FourDigits(1899);
    assert DecimalString(1899) == "1899";
    DigitsValueOfDecimal(1899);
  }

  lemma NotYears()
    ensures ComputeAddingYear("10000") == Reject(InvalidYear)
    ensures ComputeAddingYear("abc") == Reject(InvalidYear)
    ensures ComputeAddingYear("-2019") == Reject(InvalidYear)
  {
    LeadingDigitBound("10000");
    assert !IsDigit("abc"[0]);
    assert !IsDigit("-2019"[0]);
  }

  /** Every `u64` outside the open range (1900, 9999), written plainly,
      gets the year complaint. */
  lemma OutOfRangeYear(y: nat)
    requires !IsYear(y) && y < U64_LIMIT
    ensures ComputeAddingYear(DecimalString(y)) == Reject(InvalidYear)
  {
    ParseDecimal(y);
  }

  /** A digit string contains neither a space nor an `l`, and lower-casing
      leaves it alone. */
  lemma DigitsAreInert(d: string)
    requires AllDigits(d)
    ensures ' ' !in d && 'l' !in d && LowerAscii(d) == d
  {
  }

  /** An `l` or `L` followed by digits is judged by the digits' value
      alone. */
  lemma LevelDigits(digits: string, n: nat)
    requires AllDigits(digits) && ParseU64(digits) == Some(n)
    ensures var r := if IsLevel(n) then Accept(Some(LevelRoleName(n))) else Reject(InvalidLevel);
      ComputeAddingLevel("l" + digits) == r && ComputeAddingLevel("L" + digits) == r
  {
    DigitsAreInert(digits);
    assert LowerAscii("L" + digits)[1..] == LowerAscii(digits);
    assert LowerAscii("l" + digits)[1..] == LowerAscii(digits);
    assert LowerAscii("L" + digits) == "l" + digits;
    assert LowerAscii("l" + digits) == "l" + digits;
    assert ("l" + digits)[1..] == digits;
    RemoveAbsent(digits, 'l');
  }

  /** Zero-padding is lost: `l01`..`l03` grant the role named after the
      parsed number. */
  lemma PaddedLevel(n: nat)
    requires IsLevel(n)
    ensures ComputeAddingLevel("l0" + DecimalString(n)) == Accept(Some(LevelRoleName(n)))
  {
    var d := DecimalString(n);
    assert Unsigned("0" + d) == Zeros(1) + d;
    ParseU64Exactly("0" + d, n);
    PrefixedDigits(d, n);
  }

  lemma PrefixedDigits(d: string, n: nat)
    requires AllDigits(d) && ParseU64("0" + d) == Some(n) && IsLevel(n)
    ensures ComputeAddingLevel("l0" + d) == Accept(Some(LevelRoleName(n)))
  {
    assert "l" + ("0" + d) == "l0" + d;
    assert AllDigits("0" + d);
    LevelDigits("0" + d, n);
  }

  /** Every `u64` level outside 1..3, written `L<n>` or `l<n>`, gets the
      level complaint. */
  lemma LevelOutOfRange(n: nat)
    requires !IsLevel(n) && n < U64_LIMIT
    ensures ComputeAddingLevel("L" + DecimalString(n)) == Reject(InvalidLevel)
    ensures ComputeAddingLevel("l" + DecimalString(n)) == Reject(InvalidLevel)
  {
    ParseDecimal(n);
    LevelDigits(DecimalString(n), n);
  }

  /** Levels 0 and 4 are out of range. */
  lemma LevelsRejected()
    ensures ComputeAddingLevel("l0") == Reject(InvalidLevel)
    ensures ComputeAddingLevel("l4") == Reject(InvalidLevel)
  {
    LevelOutOfRange(0);
    assert "l" + DecimalString(0) == "l0";
    LevelOutOfRange(4);
    assert "l" + DecimalString(4) == "l4";
  }

  /** An `L` with no digits after it is a level token without a level. */
  lemma BareLevel()
    ensures ComputeAddingLevel("L") == Reject(InvalidLevel)
  {
    assert LowerAscii("L") == "l";
    assert RemoveAll("l", 'l') == "";
  }

  lemma NoCertificate()
    ensures ComputeAddingLevel("none") == Accept(None)
    ensures ComputeAddingLevel("None") == Accept(None)
    ensures ComputeAddingLevel("xyz") == Reject(MissingCert)
  {
    assert LowerAscii("none") == "none";
    assert LowerAscii("None") == "none";
    assert 'l' !in "none";
    assert LowerAscii("xyz") == "xyz";
    assert !ContainsSub("yz", "none");
  }

  /** The last marker in the listing decides. */
  lemma Precedence()
    ensures Classify([ALUMNI_NAME, FACULTY_NAME]) == Faculty
    ensures Classify([FACULTY_NAME, ALUMNI_NAME, "Class of '19"]) == Alumni
    ensures Classify(["Class of '19"]) == Unclassified
  {
    LastMarkerWins([ALUMNI_NAME], FACULTY_NAME);
    assert [FACULTY_NAME, ALUMNI_NAME, "Class of '19"][..2] == [FACULTY_NAME, ALUMNI_NAME];
    LastMarkerWins([FACULTY_NAME], ALUMNI_NAME);
  }

  // An alumnus's pair, one field of the response at a time.

  lemma BothAcceptedGrants(roles: seq<string>, year: string, level: string, yearRole: string, levelRole: string)
    requires Classify(roles) == Alumni
    requires ' ' !in year && ' ' !in level && !AllWhitespace(year + " " + level)
    requires ComputeAddingYear(year) == Accept(Some(yearRole))
    requires ComputeAddingLevel(level) == Accept(Some(levelRole))
    ensures Respond(roles, year + " " + level).grants == [yearRole, levelRole]
  {
    RouteAlumniPair(roles, year, level);
    ConcatSingletons(Granted(ComputeAddingYear(year)), Granted(ComputeAddingLevel(level)), yearRole, levelRole);
  }

  lemma BothAcceptedReplies(roles: seq<string>, year: string, level: string, yearRole: string, levelRole: string)
    requires Classify(roles) == Alumni
    requires ' ' !in year && ' ' !in level && !AllWhitespace(year + " " + level)
    requires ComputeAddingYear(year) == Accept(Some(yearRole))
    requires ComputeAddingLevel(level) == Accept(Some(levelRole))
    ensures Respond(roles, year + " " + level).replies == [Success]
  {
    RouteAlumniPair(roles, year, level);
    SingleElement(Rejected(ComputeAddingYear(year)), Rejected(ComputeAddingLevel(level)), [Success], Success);
  }

  lemma LevelRefusedGrants(roles: seq<string>, year: string, level: string, yearRole: string, reply: Reply)
    requires Classify(roles) == Alumni
    requires ' ' !in year && ' ' !in level && !AllWhitespace(year + " " + level)
    requires ComputeAddingYear(year) == Accept(Some(yearRole))
    requires ComputeAddingLevel(level) == Reject(reply)
    ensures Respond(roles, year + " " + level).grants == [yearRole]
  {
    RouteAlumniPair(roles, year, level);
  }

  lemma LevelRefusedReplies(roles: seq<string>, year: string, level: string, yearRole: string, reply: Reply)
    requires Classify(roles) == Alumni
    requires ' ' !in year && ' ' !in level && !AllWhitespace(year + " " + level)
    requires ComputeAddingYear(year) == Accept(Some(yearRole))
    requires ComputeAddingLevel(level) == Reject(reply)
    ensures Respond(roles, year + " " + level).replies == [reply]
  {
    RouteAlumniPair(roles, year, level);
    SingleElement(Rejected(ComputeAddingYear(year)), Rejected(ComputeAddingLevel(level)), [], reply);
  }

  /** An alumnus answering "YYYY Ln" with a valid year and level gets both
      roles and the confirmation. */
  lemma AlumnusBothValid(roles: seq<string>, y: nat, n: nat)
    requires Classify(roles) == Alumni
    requires IsYear(y) && IsLevel(n)
    ensures Respond(roles, DecimalString(y) + " " + ("L" + DecimalString(n)))
      == Response([Success], [CLASS_OF + [DigitChar(y / 10 % 10), DigitChar(y % 10)], LevelRoleName(n)])
  {
    var year := DecimalString(y);
    var level := "L" + DecimalString(n);
    DigitsAreInert(year);
    DigitsAreInert(DecimalString(n));
    assert !IsWhitespace((year + " " + level)[0]);
    YearOfRendering(y);
    LevelOfRendering(n);
    BothAcceptedGrants(roles, year, level, CLASS_OF + [DigitChar(y / 10 % 10), DigitChar(y % 10)], LevelRoleName(n));
    BothAcceptedReplies(roles, year, level, CLASS_OF + [DigitChar(y / 10 % 10), DigitChar(y % 10)], LevelRoleName(n));
  }

  /** With a level outside 1..3 the alumnus still gets the year role and
      the level complaint, but no confirmation. */
  lemma AlumnusBadLevel(roles: seq<string>, y: nat, n: nat)
    requires Classify(roles) == Alumni
    requires IsYear(y) && !IsLevel(n) && n < U64_LIMIT
    ensures Respond(roles, DecimalString(y) + " " + ("L" + DecimalString(n)))
      == Response([InvalidLevel], [CLASS_OF + [DigitChar(y / 10 % 10), DigitChar(y % 10)]])
  {
    var year := DecimalString(y);
    var level := "L" + DecimalString(n);
    DigitsAreInert(year);
    DigitsAreInert(DecimalString(n));
    assert !IsWhitespace((year + " " + level)[0]);
    YearOfRendering(y);
    LevelOutOfRange(n);
    LevelRefusedGrants(roles, year, level, CLASS_OF + [DigitChar(y / 10 % 10), DigitChar(y % 10)], InvalidLevel);
    LevelRefusedReplies(roles, year, level, CLASS_OF + [DigitChar(y / 10 % 10), DigitChar(y % 10)], InvalidLevel);
  }

  /** Anyone but faculty, the unclassified included, answering with a lone
      valid year gets the year role and the confirmation. */
  lemma LoneYear(roles: seq<string>, y: nat)
    requires Classify(roles) != Faculty
    requires IsYear(y)
    ensures Respond(roles, DecimalString(y))
      == Response([Success], [CLASS_OF + [DigitChar(y / 10 % 10), DigitChar(y % 10)]])
  {
    var year := DecimalString(y);
    DigitsAreInert(year);
    assert !IsWhitespace(year[0]);
    YearOfRendering(y);
    assert Granted(ComputeAddingYear(year)) == [CLASS_OF + [DigitChar(y / 10 % 10), DigitChar(y % 10)]];
    RouteSingleToken(roles, year);
  }

  /** Faculty answering with a valid level gets the level role and the
      confirmation. */
  lemma FacultyLevel(roles: seq<string>, n: nat)
    requires Classify(roles) == Faculty
    requires IsLevel(n)
    ensures Respond(roles, "L" + DecimalString(n)) == Response([Success], [LevelRoleName(n)])
  {
    var level := "L" + DecimalString(n);
    DigitsAreInert(DecimalString(n));
    assert !IsWhitespace(level[0]);
    LevelOfRendering(n);
    assert Granted(ComputeAddingLevel(level)) == [LevelRoleName(n)];
    RouteSingleToken(roles, level);
  }

  /** A student's year and level together are refused as too many
      arguments, and nothing is granted. */
  lemma StudentPair(roles: seq<string>, y: nat, n: nat)
    requires Classify(roles) == Novice
    ensures Respond(roles, DecimalString(y) + " " + ("L" + DecimalString(n))) == Response([TooManyArguments], [])
  {
    var year := DecimalString(y);
    var level := "L" + DecimalString(n);
    DigitsAreInert(year);
    DigitsAreInert(DecimalString(n));
    assert !IsWhitespace((year + " " + level)[0]);
    RouteOtherPair(roles, year, level);
  }

  /** A 🏫 reaction from a member holding the alumni and faculty markers
      but not the student one deletes the reaction, swaps the markers for
      the student one and sends the student prompt; other roles stay. */
  lemma StudentReaction(d: Directory)
    requires MarkersExist(d)
    requires ALUMNI_NAME in d.member && FACULTY_NAME in d.member && NOVICE_ROCKETEER_NAME !in d.member
    ensures OnReaction(d, true, false, School)
      == Step(Directory(d.guild, d.member + {NOVICE_ROCKETEER_NAME} - {ALUMNI_NAME} - {FACULTY_NAME}),
              [DeleteReaction, AddRole(NOVICE_ROCKETEER_NAME), RemoveRole(ALUMNI_NAME),
               RemoveRole(FACULTY_NAME), SendPrompt(StudentPrompt)])
  {
    var added := AddRoleByName(d, NOVICE_ROCKETEER_NAME);
    var less := RemoveRoleByName(added.dir, ALUMNI_NAME);
    var least := RemoveRoleByName(less.dir, FACULTY_NAME);
    assert added.calls == [AddRole(NOVICE_ROCKETEER_NAME)];
    assert less.calls == [RemoveRole(ALUMNI_NAME)];
    assert least.calls == [RemoveRole(FACULTY_NAME)];
  }
}
