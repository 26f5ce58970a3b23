/** The predicates of a path step and the loop that combines them. */
module Predicates {
  import opened Blocks

  datatype LogOperator = NONE | AND | OR

  datatype CompOperator = EQUALS | NOT_EQUALS | GREATER | LESS | EQ_GREATER | EQ_LESS | CONTAINS

  datatype CheckType = CheckType(key: CString, operator: CompOperator, input: CString)

  datatype Predicate =
    | ByDocumentNumber(logOp: LogOperator, isInverted: bool, index: nat)
    | ByElementValue(logOp: LogOperator, isInverted: bool, byValue: CheckType)

  /** The outcome of comparing an element of a document with an input. */
  type Tester = (CheckType, Header) -> bool

  /** The result of one entry, inversion included. */
  function Holds(p: Predicate, test: Tester, document: Header, docNumber: nat): bool {
    var res := if p.ByDocumentNumber? then p.index == docNumber else test(p.byValue, document);
    if p.isInverted then !res else res
  }

  /** NONE joins the first entry and no other. */
  ghost predicate WellJoined(preds: seq<Predicate>) {
    forall i {:trigger preds[i]} :: 0 <= i < |preds| ==> (preds[i].logOp == NONE <==> i == 0)
  }

  /** Entry i holds, is joined by NONE or OR, and every later AND entry holds too. */
  ghost predicate Decides(preds: seq<Predicate>, test: Tester, document: Header, docNumber: nat, i: nat)
    requires i < |preds|
  {
    && preds[i].logOp != AND && Holds(preds[i], test, document, docNumber)
    && forall j {:trigger preds[j]} :: i < j < |preds| && preds[j].logOp == AND ==>
        Holds(preds[j], test, document, docNumber)
  }

  /** What a list of predicates means: everything passes an empty list; otherwise some entry decides for it. */
  ghost predicate Satisfied(preds: seq<Predicate>, test: Tester, document: Header, docNumber: nat) {
    preds == [] || exists i: nat {:trigger Decides(preds, test, document, docNumber, i)} ::
                     i < |preds| && Decides(preds, test, document, docNumber, i)
  }

  /** What one entry asks for: a document number, or an outcome of the comparison; inverted, the opposite. */
  ghost predicate Meets(p: Predicate, test: Tester, document: Header, docNumber: nat) {
    match p
    case ByDocumentNumber(_, inverted, k) => if inverted then docNumber != k else docNumber == k
    case ByElementValue(_, inverted, byValue) => test(byValue, document) != inverted
  }

  /** An empty list is always satisfied, and one entry exactly if it is met. */
  lemma SatisfiedOne(p: Predicate, test: Tester, document: Header, docNumber: nat)
    requires p.logOp != AND
    ensures Satisfied([], test, document, docNumber)
    ensures Satisfied([p], test, document, docNumber) <==> Meets(p, test, document, docNumber)
  {
    assert Decides([p], test, document, docNumber, 0) <==> Holds(p, test, document, docNumber);
  }

  /** One more entry: AND narrows what was decided before, OR widens it. */
  lemma SatisfiedPush(preds: seq<Predicate>, p: Predicate, test: Tester, document: Header, docNumber: nat)
    requires preds != [] && WellJoined(preds + [p])
    ensures Satisfied(preds + [p], test, document, docNumber) <==>
            if p.logOp == AND then Satisfied(preds, test, document, docNumber) && Meets(p, test, document, docNumber)
            else Satisfied(preds, test, document, docNumber) || Meets(p, test, document, docNumber)
  {
    var all, n := preds + [p], |preds|;
    assert all[n] == p && forall i :: 0 <= i < n ==> all[i] == preds[i];
    assert p.logOp != NONE;
    forall i: nat | i < n
      ensures Decides(all, test, document, docNumber, i) <==>
              Decides(preds, test, document, docNumber, i) && (p.logOp == AND ==> Holds(p, test, document, docNumber))
    {
      if Decides(all, test, document, docNumber, i) {
        assert forall j :: i < j < n ==> all[j] == preds[j];
      }
    }
    assert Decides(all, test, document, docNumber, n) <==> p.logOp != AND && Holds(p, test, document, docNumber);
  }

  /** calculatePredicate: the loop over the list, one running result. */
  method CalculatePredicate(preds: seq<Predicate>, test: Tester, document: Header, docNumber: nat)
    returns (generalRes: bool)
    requires WellJoined(preds)
    ensures generalRes <==> Satisfied(preds, test, document, docNumber)
  {
    if preds == [] {
      return true;
    }
    assert preds[0].logOp == NONE;
    generalRes := false;
    for i := 0 to |preds|
      invariant i > 0 ==> (generalRes <==> Satisfied(preds[..i], test, document, docNumber))
    {
      var currentPredicate := preds[i];
      var res := Holds(currentPredicate, test, document, docNumber);
      assert preds[..i + 1] == preds[..i] + [currentPredicate];
      match currentPredicate.logOp {
        case NONE =>
          generalRes := res;
          assert preds[..1] == [currentPredicate];
          assert Decides([currentPredicate], test, document, docNumber, 0) <==> res;
        case AND =>
          SatisfiedPush(preds[..i], currentPredicate, test, document, docNumber);
          generalRes := generalRes && res;
        case OR =>
          SatisfiedPush(preds[..i], currentPredicate, test, document, docNumber);
          generalRes := generalRes || res;
      }
    }
    assert preds[..|preds|] == preds;
  }
}
