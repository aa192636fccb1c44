/** The member's onboarding state. It is never stored: every event derives
    it again from the names of the roles the member holds, in the order the
    platform lists them. */
module Classification {

  const NOVICE_ROCKETEER_NAME: string := "Novice Rocketeer"
  const ALUMNI_NAME: string := "Alumni"
  /** The faculty marker; its name differs from the state it denotes. */
  const FACULTY_NAME: string := "Mudd Admin"

  /** `Unclassified` stands for the empty `role_type` string. */
  datatype Class = Unclassified | Novice | Alumni | Faculty

  /** The state a single role name denotes; every non-marker name denotes
      `Unclassified`. */
  function ClassOf(name: string): Class {
    if name == NOVICE_ROCKETEER_NAME then Novice
    else if name == ALUMNI_NAME then Alumni
    else if name == FACULTY_NAME then Faculty
    else Unclassified
  }

  /** One of the three mutually exclusive (by convention only) marker roles. */
  predicate IsMarker(name: string) {
    ClassOf(name) != Unclassified
  }

  function MarkerName(c: Class): (name: string)
    requires c != Unclassified
    ensures IsMarker(name) && ClassOf(name) == c
  {
    match c
    case Novice => NOVICE_ROCKETEER_NAME
    case Alumni => ALUMNI_NAME
    case Faculty => FACULTY_NAME
  }

  /** The classification of a member whose roles are listed as `roles`: the
      state of the LAST marker role in the list, `Unclassified` if none. */
  function Classify(roles: seq<string>): (c: Class)
    ensures c == Unclassified <==> forall i :: 0 <= i < |roles| ==> !IsMarker(roles[i])
    ensures c != Unclassified ==>
      exists i :: 0 <= i < |roles| && roles[i] == MarkerName(c)
        && forall j :: i < j < |roles| ==> !IsMarker(roles[j])
  {
    if |roles| == 0 then Unclassified
    else if IsMarker(roles[|roles| - 1]) then ClassOf(roles[|roles| - 1])
    else Classify(roles[..|roles| - 1])
  }

  /** The scan of the role list in the message handler: each marker role
      overwrites the state found so far, other roles leave it alone. */
  method ScanRoles(roles: seq<string>) returns (c: Class)
    ensures c == Classify(roles)
  {
    c := Unclassified;
    for i := 0 to |roles|
      invariant c == Classify(roles[..i])
    {
      assert roles[..i + 1][..i] == roles[..i];
      if roles[i] == NOVICE_ROCKETEER_NAME {
        c := Novice;
      } else if roles[i] == ALUMNI_NAME {
        c := Alumni;
      } else if roles[i] == FACULTY_NAME {
        c := Faculty;
      }
    }
    assert roles[..|roles|] == roles;
  }

  /** The marker roles of `roles`, in order. */
  function Markers(roles: seq<string>): (ms: seq<string>)
    ensures forall i :: 0 <= i < |ms| ==> IsMarker(ms[i])
  {
    if |roles| == 0 then []
    else
      var last := roles[|roles| - 1];
      Markers(roles[..|roles| - 1]) + (if IsMarker(last) then [last] else [])
  }

  /** Non-marker roles never affect the classification: it depends only on
      the subsequence of marker roles. */
  lemma {:induction false} ClassifyOnlyMarkers(roles: seq<string>)
    ensures Classify(roles) == Classify(Markers(roles))
  {
    if |roles| > 0 {
      var last := roles[|roles| - 1];
      var prefix := roles[..|roles| - 1];
      ClassifyOnlyMarkers(prefix);
      if IsMarker(last) {
        assert (Markers(prefix) + [last])[..|Markers(prefix)|] == Markers(prefix);
      }
    }
  }

  /** The last marker wins: appending a marker role sets the state to that
      marker's, whatever came before. */
  lemma LastMarkerWins(roles: seq<string>, m: string)
    requires IsMarker(m)
    ensures Classify(roles + [m]) == ClassOf(m)
  {
  }

  /** When every marker a member holds is `m`, any listing of those roles
      classifies as `m`, whatever the order. */
  lemma {:induction false} SingleMarker(roles: seq<string>, m: string)
    requires IsMarker(m) && m in roles
    requires forall i :: 0 <= i < |roles| && IsMarker(roles[i]) ==> roles[i] == m
    ensures Classify(roles) == ClassOf(m)
  {
    var i :| 0 <= i < |roles| && roles[i] == m;
    assert IsMarker(roles[i]);
  }
}
