/** The vocabulary of scene relationships: the 28 kinds of edge label, the
    English phrase each one is rendered with (none for the implicit facing
    relations), and the two structural classifications (part-of, and
    part-of-or-on-top-of) that clustering and text planning use. */
module Relationships {
  import opened Wrappers

  datatype RelationshipType =
    | NextTo
    | NextToChooseDirection
    | NextToChooseSide
    | NextToNorth
    | NextToEast
    | NextToSouth
    | NextToWest
    | NextToLeft
    | NextToRight
    | NextToFront
    | NextToBehind
    | OnTopOf
    | OnTopOfMiddle
    | OnTopOfEdge
    | OnTopOfFrontEdge
    | IsPartOf
    | IsPartOfMiddle
    | IsPartOfEdge
    | IsPartOfFrontEdge
    | FacingTowards
    | FacingAwayFrom
    | FacingSameDirection
    | FacingOrthogonalDirection
    | ImplicitFacingTowards
    | ImplicitFacingSameDirection
    | ImplicitFacingAwayFrom
    | ImplicitFacingOrthogonalDirection
    | PathConnectedTo

  /** One of the four relations that are never verbalised. */
  predicate IsImplicitKind(t: RelationshipType) {
    t.ImplicitFacingTowards? || t.ImplicitFacingSameDirection? || t.ImplicitFacingAwayFrom?
      || t.ImplicitFacingOrthogonalDirection?
  }

  /** One of the four part-of relations. */
  predicate IsPartOfKind(t: RelationshipType) {
    t.IsPartOf? || t.IsPartOfMiddle? || t.IsPartOfEdge? || t.IsPartOfFrontEdge?
  }

  /** One of the four on-top-of relations. */
  predicate IsOnTopOfKind(t: RelationshipType) {
    t.OnTopOf? || t.OnTopOfMiddle? || t.OnTopOfEdge? || t.OnTopOfFrontEdge?
  }

  /** `GetExpression`: the preposition phrase of a relation; `None` stands
      for the `null` of the `default` branch. */
  function Expression(t: RelationshipType): (r: Option<string>)
    ensures r.None? <==> IsImplicitKind(t)
    ensures IsPartOfKind(t) ==> r == Some("part of")
  {
    match t
    case NextToNorth => Some("north of")
    case NextToSouth => Some("south of")
    case NextToWest => Some("west of")
    case NextToEast => Some("east of")
    case NextToChooseDirection => Some("next to")
    case NextTo => Some("next to")
    case NextToChooseSide => Some("besides of")
    case NextToLeft => Some("to the left of")
    case NextToRight => Some("to the right of")
    case NextToFront => Some("in front of")
    case NextToBehind => Some("behind of")
    case OnTopOf => Some("on top of")
    case OnTopOfMiddle => Some("in the middle of")
    case OnTopOfEdge => Some("on the edge of")
    case OnTopOfFrontEdge => Some("on the front edge of")
    case IsPartOf => Some("part of")
    case IsPartOfMiddle => Some("part of")
    case IsPartOfEdge => Some("part of")
    case IsPartOfFrontEdge => Some("part of")
    case FacingTowards => Some("facing")
    case FacingSameDirection => Some("facing the same direction as")
    case FacingOrthogonalDirection => Some("at an right angle to")
    case FacingAwayFrom => Some("facing away from")
    case PathConnectedTo => Some("meeting at")
    case _ => None
  }

  /** `IsImplict`: the relation has no phrase. */
  predicate IsImplicit(t: RelationshipType) {
    Expression(t).None?
  }

  /** `IsTypePartOf`. */
  function IsTypePartOf(t: RelationshipType): (b: bool)
    ensures b <==> IsPartOfKind(t)
  {
    match t
    case IsPartOf => true
    case IsPartOfFrontEdge => true
    case IsPartOfEdge => true
    case IsPartOfMiddle => true
    case _ => false
  }

  /** `IsTypePartOfOrOnTopOf`. */
  function IsTypePartOfOrOnTopOf(t: RelationshipType): (b: bool)
    ensures b <==> IsPartOfKind(t) || IsOnTopOfKind(t)
  {
    match t
    case IsPartOf => true
    case IsPartOfEdge => true
    case IsPartOfFrontEdge => true
    case IsPartOfMiddle => true
    case OnTopOf => true
    case OnTopOfEdge => true
    case OnTopOfFrontEdge => true
    case OnTopOfMiddle => true
    case _ => false
  }

  /** The part-of test is a refinement of the part-of-or-on-top-of test,
      and neither holds of an implicit relation. */
  lemma ClassificationsNested(t: RelationshipType)
    ensures IsTypePartOf(t) ==> IsTypePartOfOrOnTopOf(t)
    ensures IsImplicit(t) ==> !IsTypePartOfOrOnTopOf(t)
  {
  }

  /** Exactly the part-of relations are rendered "part of", and exactly
      NextTo and NextToChooseDirection are rendered "next to". */
  lemma SharedPhrases(t: RelationshipType)
    ensures Expression(t) == Some("part of") <==> IsTypePartOf(t)
    ensures Expression(t) == Some("next to") <==> t == NextTo || t == NextToChooseDirection
  {
  }

  // ---------------------------------------------------------------------
  // Names (`ToString` / `Enum.Parse`)
  // ---------------------------------------------------------------------

  /** `ToString()` of an enum value: its declared name. */
  function Name(t: RelationshipType): string {
    match t
    case NextTo => "NextTo"
    case NextToChooseDirection => "NextToChooseDirection"
    case NextToChooseSide => "NextToChooseSide"
    case NextToNorth => "NextToNorth"
    case NextToEast => "NextToEast"
    case NextToSouth => "NextToSouth"
    case NextToWest => "NextToWest"
    case NextToLeft => "NextToLeft"
    case NextToRight => "NextToRight"
    case NextToFront => "NextToFront"
    case NextToBehind => "NextToBehind"
    case OnTopOf => "OnTopOf"
    case OnTopOfMiddle => "OnTopOfMiddle"
    case OnTopOfEdge => "OnTopOfEdge"
    case OnTopOfFrontEdge => "OnTopOfFrontEdge"
    case IsPartOf => "IsPartOf"
    case IsPartOfMiddle => "IsPartOfMiddle"
    case IsPartOfEdge => "IsPartOfEdge"
    case IsPartOfFrontEdge => "IsPartOfFrontEdge"
    case FacingTowards => "FacingTowards"
    case FacingAwayFrom => "FacingAwayFrom"
    case FacingSameDirection => "FacingSameDirection"
    case FacingOrthogonalDirection => "FacingOrthogonalDirection"
    case ImplicitFacingTowards => "ImplicitFacingTowards"
    case ImplicitFacingSameDirection => "ImplicitFacingSameDirection"
    case ImplicitFacingAwayFrom => "ImplicitFacingAwayFrom"
    case ImplicitFacingOrthogonalDirection => "ImplicitFacingOrthogonalDirection"
    case PathConnectedTo => "PathConnectedTo"
  }

  /** The relation whose name could be s, told apart by the length, the
      first letter and (for the "NextTo..." names of length 10 and 11) the
      seventh letter. */
  function Candidate(s: string): Option<RelationshipType> {
    var n := |s|;
    if n == 0 then None
    else if n == 6 then Some(NextTo)
    else if n == 7 then Some(OnTopOf)
    else if n == 8 then Some(IsPartOf)
    else if n == 10 then
      if s[6] == 'E' then Some(NextToEast) else if s[6] == 'W' then Some(NextToWest) else Some(NextToLeft)
    else if n == 11 then
      if s[0] == 'O' then Some(OnTopOfEdge)
      else if s[6] == 'N' then Some(NextToNorth) else if s[6] == 'S' then Some(NextToSouth)
      else if s[6] == 'R' then Some(NextToRight) else Some(NextToFront)
    else if n == 12 then (if s[0] == 'N' then Some(NextToBehind) else Some(IsPartOfEdge))
    else if n == 13 then (if s[0] == 'O' then Some(OnTopOfMiddle) else Some(FacingTowards))
    else if n == 14 then (if s[0] == 'I' then Some(IsPartOfMiddle) else Some(FacingAwayFrom))
    else if n == 15 then Some(PathConnectedTo)
    else if n == 16 then (if s[0] == 'N' then Some(NextToChooseSide) else Some(OnTopOfFrontEdge))
    else if n == 17 then Some(IsPartOfFrontEdge)
    else if n == 19 then Some(FacingSameDirection)
    else if n == 21 then (if s[0] == 'N' then Some(NextToChooseDirection) else Some(ImplicitFacingTowards))
    else if n == 22 then Some(ImplicitFacingAwayFrom)
    else if n == 25 then Some(FacingOrthogonalDirection)
    else if n == 27 then Some(ImplicitFacingSameDirection)
    else if n == 33 then Some(ImplicitFacingOrthogonalDirection)
    else None
  }

  /** `Enum.Parse` on an exact name; `None` stands for the
      `ArgumentException` of an unknown name. */
  function Parse(s: string): (r: Option<RelationshipType>)
    ensures r.Some? ==> Name(r.value) == s
  {
    match Candidate(s)
    case Some(t) => if Name(t) == s then Some(t) else None
    case None => None
  }

  /** Every name leads back to its relation. */
  lemma CandidateOfName(t: RelationshipType)
    ensures Candidate(Name(t)) == Some(t)
  {
    match t
    case NextTo =>
    case NextToChooseDirection =>
    case NextToChooseSide =>
    case NextToNorth =>
    case NextToEast =>
    case NextToSouth =>
    case NextToWest =>
    case NextToLeft =>
    case NextToRight =>
    case NextToFront =>
    case NextToBehind =>
    case OnTopOf =>
    case OnTopOfMiddle =>
    case OnTopOfEdge =>
    case OnTopOfFrontEdge =>
    case IsPartOf =>
    case IsPartOfMiddle =>
    case IsPartOfEdge =>
    case IsPartOfFrontEdge =>
    case FacingTowards =>
    case FacingAwayFrom =>
    case FacingSameDirection =>
    case FacingOrthogonalDirection =>
    case ImplicitFacingTowards =>
    case ImplicitFacingSameDirection =>
    case ImplicitFacingAwayFrom =>
    case ImplicitFacingOrthogonalDirection =>
    case PathConnectedTo =>
  }

  /** Different relations have different names. */
  lemma NameInjective(t: RelationshipType, u: RelationshipType)
    ensures Name(t) == Name(u) ==> t == u
  {
    CandidateOfName(t);
    CandidateOfName(u);
  }

  /** Parsing a relation's name gives the relation back, and parsing fails
      exactly on strings that are nobody's name. */
  lemma ParseName(t: RelationshipType, s: string)
    ensures Parse(Name(t)) == Some(t)
    ensures Parse(s).None? <==> forall u :: Name(u) != s
  {
    CandidateOfName(t);
    if Parse(s).None? {
      forall u ensures Name(u) != s {
        CandidateOfName(u);
      }
    }
  }
}
