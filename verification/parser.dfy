/** The two token parsers of the onboarding dialogue. Each turns one token
    of a direct message into an acceptance, possibly naming the role to
    grant, or a rejection carrying the reply text sent back to the member. */
module ResponseParser {
  import opened Wrappers
  import opened Text
  import opened Numbers
  import opened Replies

  /** Prefix of every graduation-year role. */
  const CLASS_OF: string := "Class of '"

  /** Outcome of parsing one token: `Accept(Some(name))` grants (creating it
      if needed) the role `name`, `Accept(None)` accepts without a role, and
      `Reject(reply)` sends `reply` and grants nothing. */
  datatype ParseResult = Accept(role: Option<string>) | Reject(reply: Reply)

  /** Years the bot accepts: strictly between 1900 and 9999. */
  predicate IsYear(y: nat) {
    1900 < y < 9999
  }

  /** Certification levels the bot accepts. */
  predicate IsLevel(n: nat) {
    1 <= n <= 3
  }

  /** The shape of every role the year parser grants: the prefix and two
      ASCII digits. */
  predicate IsYearRole(name: string) {
    && |name| == |CLASS_OF| + 2
    && name[..|CLASS_OF|] == CLASS_OF
    && IsDigit(name[|CLASS_OF|])
    && IsDigit(name[|CLASS_OF| + 1])
  }

  /** The only roles the level parser grants: the names of levels 1..3. */
  predicate IsLevelRole(name: string) {
    exists n: nat :: 1 <= n <= 3 && name == LevelRoleName(n)
  }

  /** `format!("Level {} Rocketeer", n)`. */
  function LevelRoleName(n: nat): string {
    "Level " + DecimalString(n) + " Rocketeer"
  }

  /** `compute_adding_year`. The role name is taken from the token's own
      characters at indices 2 and 3, not from the parsed number, so a
      leading `+` or `0` shifts which digits are used. */
  function ComputeAddingYear(token: string): (r: ParseResult)
    ensures r.Accept? <==> ParseU64(token).Some? && IsYear(ParseU64(token).value)
    ensures r.Accept? ==> |token| >= 4 && r.role == Some(CLASS_OF + [token[2], token[3]])
    ensures r.Accept? ==> IsYearRole(r.role.value)
    ensures r.Reject? ==> r.reply == InvalidYear
  {
    var year := ParseU64(token);
    if year.Some? && IsYear(year.value) then
      ParsedWidth(token);
      var name := CLASS_OF + [token[2], token[3]];
      assert name[..|CLASS_OF|] == CLASS_OF;
      Accept(Some(name))
    else
      Reject(InvalidYear)
  }

  /** `compute_adding_level`. A token that contains `l` after lower-casing
      is a level: all `l`s are deleted and the rest must parse as 1, 2 or 3.
      A token without `l` is accepted, with no role, only if it contains
      "none". */
  function ComputeAddingLevel(token: string): (r: ParseResult)
    ensures var low := LowerAscii(token);
      'l' in low ==>
        && (r.Accept? <==> ParseU64(RemoveAll(low, 'l')).Some? && IsLevel(ParseU64(RemoveAll(low, 'l')).value))
        && (r.Accept? ==> r.role == Some(LevelRoleName(ParseU64(RemoveAll(low, 'l')).value)))
        && (r.Reject? ==> r.reply == InvalidLevel)
    ensures var low := LowerAscii(token);
      'l' !in low ==>
        && (r.Accept? <==> ContainsSub(low, "none"))
        && (r.Accept? ==> r.role == None)
        && (r.Reject? ==> r.reply == MissingCert)
    ensures r.Accept? && r.role.Some? ==> IsLevelRole(r.role.value)
    ensures r.Reject? ==> r.reply == InvalidLevel || r.reply == MissingCert
  {
    var low := LowerAscii(token);
    if 'l' in low then
      var level := ParseU64(RemoveAll(low, 'l'));
      if level.Some? && IsLevel(level.value) then
        Accept(Some(LevelRoleName(level.value)))
      else
        Reject(InvalidLevel)
    else if !ContainsSub(LowerAscii(low), "none") then
      LowerAsciiIdempotent(token);
      Reject(MissingCert)
    else
      LowerAsciiIdempotent(token);
      Accept(None)
  }

  /** For a year written in plain decimal the role carries the year's last
      two digits. */
  lemma YearOfRendering(y: nat)
    requires IsYear(y)
    ensures ComputeAddingYear(DecimalString(y))
      == Accept(Some(CLASS_OF + [DigitChar(y / 10 % 10), DigitChar(y % 10)]))
  {
    ParseDecimal(y);
    FourDigits(y);
  }

  /** With a leading `+` the same year yields the role built from its
      second and third digits instead. */
  lemma SignedYearOfRendering(y: nat)
    requires IsYear(y)
    ensures ComputeAddingYear("+" + DecimalString(y))
      == Accept(Some(CLASS_OF + [DigitChar(y / 100 % 10), DigitChar(y / 10 % 10)]))
  {
    ParseDecimal(y);
    FourDigits(y);
  }

  /** Every plain level token `L1`..`L3` (either case) grants its level role. */
  lemma LevelOfRendering(n: nat)
    requires IsLevel(n)
    ensures ComputeAddingLevel("L" + DecimalString(n)) == Accept(Some(LevelRoleName(n)))
    ensures ComputeAddingLevel("l" + DecimalString(n)) == Accept(Some(LevelRoleName(n)))
  {
    var d := DecimalString(n);
    assert d == [DigitChar(n)];
    assert LowerAscii("L" + d) == "l" + d;
    assert LowerAscii("l" + d) == "l" + d;
    assert RemoveAll("l" + d, 'l') == d;
    ParseDecimal(n);
  }

  /** A token containing `l` or `L` never takes the "none" acceptance:
      when accepted, it always names a role. */
  lemma LevelTokenNeverNone(token: string)
    requires 'l' in token || 'L' in token
    ensures ComputeAddingLevel(token).Accept? ==> ComputeAddingLevel(token).role.Some?
  {
    var i :| 0 <= i < |token| && (token[i] == 'l' || token[i] == 'L');
    assert LowerAscii(token)[i] == 'l';
  }
}
