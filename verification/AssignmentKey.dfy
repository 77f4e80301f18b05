// The immutable assignment id inside a workspace key, and the rows a query of an assignment selects.
module AssignmentKey {
  import opened Events
  import opened Decimal

  const ASSIGNMENT_PREFIX := "assignment-"

  // fullmatch of ^assignment-(\d+)$, over ASCII digits.
  function AssignmentIdFromHwName(hwName: string): Option<nat> {
    if ASSIGNMENT_PREFIX < hwName && AllDigits(hwName[|ASSIGNMENT_PREFIX|..])
    then Some(Number(hwName[|ASSIGNMENT_PREFIX|..])) else None
  }

  // An assignment named by its immutable id, or by class division and name.
  datatype Scope = ById(assignmentId: int) | ByName(classDiv: string, hwName: string)

  function AssignmentPredicates(classDiv: string, hwName: string): Scope {
    match AssignmentIdFromHwName(hwName)
    case Some(id) => ById(id)
    case None => ByName(classDiv, hwName)
  }

  predicate InScope(scope: Scope, assignmentId: int, classDiv: string, hwName: string) {
    match scope
    case ById(id) => assignmentId == id
    case ByName(c, h) => classDiv == c && hwName == h
  }

  /** An id is read exactly from the names that are the prefix and one or more digits, and it is their value. */
  lemma HwNameIff(hwName: string, id: nat)
    ensures AssignmentIdFromHwName(hwName) == Some(id) <==>
      |hwName| > 11 && hwName[..11] == "assignment-" && AllDigits(hwName[11..]) && Number(hwName[11..]) == id
  {
    assert ASSIGNMENT_PREFIX < hwName <==> |hwName| > 11 && hwName[..11] == "assignment-";
  }

  /** So a log query selects by id for such a name, and by class division and name for every other. */
  lemma LogScope(classDiv: string, hwName: string, assignmentId: int, rowClass: string, rowName: string)
    ensures InScope(AssignmentPredicates(classDiv, hwName), assignmentId, rowClass, rowName) <==>
      if |hwName| > 11 && hwName[..11] == "assignment-" && AllDigits(hwName[11..])
      then assignmentId == Number(hwName[11..]) else rowClass == classDiv && rowName == hwName
  {
    if AssignmentIdFromHwName(hwName).Some? {
      HwNameIff(hwName, AssignmentIdFromHwName(hwName).value);
    } else if |hwName| > 11 && hwName[..11] == "assignment-" && AllDigits(hwName[11..]) {
      HwNameIff(hwName, Number(hwName[11..]));
    }
  }

  /** The key written for an id is read back as that id, so a query by such a name is a query by id,
      whatever the class division. */
  lemma WrittenKeyIsRead(id: nat, classDiv: string)
    ensures AssignmentIdFromHwName(ASSIGNMENT_PREFIX + Numeral(id)) == Some(id)
    ensures AssignmentPredicates(classDiv, ASSIGNMENT_PREFIX + Numeral(id)) == ById(id)
  {
    NumberOfNumeral(id);
    assert (ASSIGNMENT_PREFIX + Numeral(id))[|ASSIGNMENT_PREFIX|..] == Numeral(id);
  }
}
