/** The student controller: the sort choice of the student list and the
    eligibility check of a student against a company's requirements. */
module Students {
  import opened Wrappers
  import opened Records
  import opened Text

  // ---------------------------------------------------------------------
  // Sorting the student list
  // ---------------------------------------------------------------------

  /** The columns a caller may sort the student list by. */
  const StudentSortColumns: set<string> := {"name", "cgpa", "roll_number"}

  /** The ordering of the student list for the `sort_by` and `order` query
      parameters. */
  function StudentOrdering(sortBy: Option<string>, order: Option<string>): Ordering {
    if Truthy(sortBy) then
      Ordering(if sortBy.value in StudentSortColumns then sortBy.value else "name",
               if order == Some("desc") then Desc else Asc)
    else
      Ordering("roll_number", Asc)
  }

  /** The `ORDER BY` clause appended to the student query. */
  function OrderClause(o: Ordering): string {
    " ORDER BY " + o.column + (if o.direction == Desc then " DESC" else " ASC")
  }

  /** Whatever the query string holds, the list is sorted by a whitelisted
      column; a whitelisted `sort_by` is honoured and anything else falls back
      to `name`; only the literal `desc` sorts descending; no `sort_by` means
      `roll_number` ascending. */
  lemma StudentOrderingChoice(sortBy: Option<string>, order: Option<string>)
    ensures StudentOrdering(sortBy, order).column in StudentSortColumns
    ensures Truthy(sortBy) && sortBy.value in StudentSortColumns ==>
      StudentOrdering(sortBy, order).column == sortBy.value
    ensures Truthy(sortBy) && sortBy.value !in StudentSortColumns ==>
      StudentOrdering(sortBy, order).column == "name"
    ensures StudentOrdering(sortBy, order).direction == Desc <==> Truthy(sortBy) && order == Some("desc")
    ensures !Truthy(sortBy) ==> StudentOrdering(sortBy, order) == Ordering("roll_number", Asc)
  {
  }

  /** The text spliced into the SQL is always one of the six clauses built
      from the whitelist and the two directions, so no query-string value
      reaches the statement. */
  lemma StudentOrderClauseIsFixed(sortBy: Option<string>, order: Option<string>)
    ensures OrderClause(StudentOrdering(sortBy, order)) in
      (set column, direction | column in StudentSortColumns && direction in {" ASC", " DESC"} ::
         " ORDER BY " + column + direction)
  {
    var o := StudentOrdering(sortBy, order);
    StudentOrderingChoice(sortBy, order);
    var direction := if o.direction == Desc then " DESC" else " ASC";
    assert OrderClause(o) == " ORDER BY " + o.column + direction;
  }

  // ---------------------------------------------------------------------
  // Eligibility
  // ---------------------------------------------------------------------

  /** Why a student fails a company's requirements, one case per rule. */
  datatype Reason =
    | CgpaBelowCutoff(cgpa: Cgpa, cutoff: Cgpa)
    | BacklogsNotAllowed
    | BacklogsExceedMaximum(count: int, maximum: int)
    | BranchNotEligible(branch: string)
    | AlreadyPlaced

  /** The answer of the eligibility check. */
  datatype Verdict = Verdict(isEligible: bool, reasons: seq<Reason>)

  /** The branch codes of a `branches_allowed` text: split on commas and
      trimmed. */
  function AllowedBranches(text: string): seq<string> {
    var parts := Split(text);
    seq(|parts|, i requires 0 <= i < |parts| => Trim(parts[i]))
  }

  // The rules, each stated on its own.

  predicate CgpaFails(s: Student, r: Requirement) {
    s.cgpa < r.cgpaCutoff
  }

  predicate ActiveBacklogsFail(s: Student, r: Requirement) {
    !r.backlogsAllowed && s.hasBacklogs
  }

  predicate BacklogCountFails(s: Student, r: Requirement) {
    r.backlogsAllowed && s.backlogCount > r.maxBacklogs
  }

  /** An absent or empty `branches_allowed` admits every branch. */
  predicate BranchFails(s: Student, r: Requirement) {
    Truthy(r.branchesAllowed) && s.branch !in AllowedBranches(r.branchesAllowed.value)
  }

  predicate PlacedFails(s: Student) {
    s.placementStatus == "Placed"
  }

  /** The reason a rule contributes: none when it passes. */
  function ReasonIf(fails: bool, reason: Reason): seq<Reason> {
    if fails then [reason] else []
  }

  /** The specification of the check: eligible when every rule passes, and
      the reasons of the failing rules in rule order. */
  function Evaluate(s: Student, r: Requirement): Verdict {
    Verdict(
      !CgpaFails(s, r) && !ActiveBacklogsFail(s, r) && !BacklogCountFails(s, r)
        && !BranchFails(s, r) && !PlacedFails(s),
      ReasonIf(CgpaFails(s, r), CgpaBelowCutoff(s.cgpa, r.cgpaCutoff))
        + ReasonIf(ActiveBacklogsFail(s, r), BacklogsNotAllowed)
        + ReasonIf(BacklogCountFails(s, r), BacklogsExceedMaximum(s.backlogCount, r.maxBacklogs))
        + ReasonIf(BranchFails(s, r), BranchNotEligible(s.branch))
        + ReasonIf(PlacedFails(s), AlreadyPlaced))
  }

  /** The rule evaluation as the handler performs it: a flag and a list of
      reasons updated by each failing rule in turn. */
  method CheckEligibility(s: Student, r: Requirement) returns (isEligible: bool, reasons: seq<Reason>)
    ensures isEligible <==> reasons == []
    ensures Verdict(isEligible, reasons) == Evaluate(s, r)
  {
    reasons := [];
    isEligible := true;

    if s.cgpa < r.cgpaCutoff {
      isEligible := false;
      reasons := reasons + [CgpaBelowCutoff(s.cgpa, r.cgpaCutoff)];
    }

    if !r.backlogsAllowed && s.hasBacklogs {
      isEligible := false;
      reasons := reasons + [BacklogsNotAllowed];
    }

    if r.backlogsAllowed && s.backlogCount > r.maxBacklogs {
      isEligible := false;
      reasons := reasons + [BacklogsExceedMaximum(s.backlogCount, r.maxBacklogs)];
    }

    if Truthy(r.branchesAllowed) {
      var allowed := AllowedBranches(r.branchesAllowed.value);
      if s.branch !in allowed {
        isEligible := false;
        reasons := reasons + [BranchNotEligible(s.branch)];
      }
    }

    if s.placementStatus == "Placed" {
      isEligible := false;
      reasons := reasons + [AlreadyPlaced];
    }
  }

  /** Why the check could not run. */
  datatype LookupError = StudentOrCompanyNotFound

  /** The first requirement row stored for a company, if any. */
  function FirstRequirement(rows: seq<RequirementRow>, companyId: nat): (r: Option<Requirement>)
    ensures r.None? <==> ForCompany(rows, companyId) == []
    ensures r.Some? ==> r.value == ForCompany(rows, companyId)[0]
  {
    if rows == [] then None
    else
      ForCompanyCons(rows);
      if rows[0].companyId == companyId then Some(rows[0].payload)
      else FirstRequirement(rows[1..], companyId)
  }

  /** `ForCompany` read from the front of the table. */
  lemma {:induction false} ForCompanyCons(rows: seq<RequirementRow>)
    requires rows != []
    ensures ForCompany(rows, rows[0].companyId) == [rows[0].payload] + ForCompany(rows[1..], rows[0].companyId)
    ensures forall c :: c != rows[0].companyId ==> ForCompany(rows, c) == ForCompany(rows[1..], c)
  {
    if |rows| > 1 {
      var init := rows[..|rows| - 1];
      ForCompanyCons(init);
      assert init[1..] == rows[1..][..|rows[1..]| - 1];
      assert init[0] == rows[0];
    }
  }

  /** The eligibility handler: load the student and the company's requirement
      row, answer not-found when either is missing, and otherwise evaluate. */
  method CheckEligibilityRequest(db: Database, studentId: nat, companyId: nat)
    returns (result: Result<Verdict, LookupError>)
    ensures result.Failure? <==>
      studentId !in db.students || ForCompany(db.requirements, companyId) == []
    ensures result.Success? ==>
      result.value == Evaluate(db.students[studentId], ForCompany(db.requirements, companyId)[0])
  {
    var requirement := FirstRequirement(db.requirements, companyId);
    if studentId !in db.students || requirement.None? {
      return Failure(StudentOrCompanyNotFound);
    }
    var isEligible, reasons := CheckEligibility(db.students[studentId], requirement.value);
    result := Success(Verdict(isEligible, reasons));
  }

  // ---------------------------------------------------------------------
  // Properties of the rules
  // ---------------------------------------------------------------------

  /** A student is eligible exactly when no reason is reported: every reason
      clears the flag and nothing else does. */
  lemma EligibleIffNoReasons(s: Student, r: Requirement)
    ensures Evaluate(s, r).isEligible <==> Evaluate(s, r).reasons == []
  {
  }

  /** Each rule reports its reason exactly when it fails. */
  lemma ReasonIffRuleFails(s: Student, r: Requirement)
    ensures CgpaBelowCutoff(s.cgpa, r.cgpaCutoff) in Evaluate(s, r).reasons <==> s.cgpa < r.cgpaCutoff
    ensures BacklogsNotAllowed in Evaluate(s, r).reasons <==> !r.backlogsAllowed && s.hasBacklogs
    ensures BacklogsExceedMaximum(s.backlogCount, r.maxBacklogs) in Evaluate(s, r).reasons <==>
      r.backlogsAllowed && s.backlogCount > r.maxBacklogs
    ensures BranchNotEligible(s.branch) in Evaluate(s, r).reasons <==> BranchFails(s, r)
    ensures AlreadyPlaced in Evaluate(s, r).reasons <==> s.placementStatus == "Placed"
  {
  }

  /** The CGPA rule fails only strictly below the cutoff: a CGPA equal to the
      cutoff passes it. */
  lemma CgpaAtCutoffPasses(s: Student, r: Requirement)
    requires s.cgpa == r.cgpaCutoff
    ensures forall k :: 0 <= k < |Evaluate(s, r).reasons| ==> !Evaluate(s, r).reasons[k].CgpaBelowCutoff?
  {
  }

  predicate IsBacklogReason(reason: Reason) {
    reason.BacklogsNotAllowed? || reason.BacklogsExceedMaximum?
  }

  /** The rank of a reason in rule-declaration order. */
  function RuleRank(reason: Reason): nat {
    match reason
    case CgpaBelowCutoff(_, _) => 0
    case BacklogsNotAllowed => 1
    case BacklogsExceedMaximum(_, _) => 1
    case BranchNotEligible(_) => 2
    case AlreadyPlaced => 3
  }

  /** Reasons appear in rule order — CGPA, backlog, branch, placement — and
      no rule reports twice; in particular at most one backlog reason
      appears, since the two backlog rules test `backlogs_allowed` and its
      negation. */
  lemma ReasonsInRuleOrder(s: Student, r: Requirement)
    ensures var reasons := Evaluate(s, r).reasons;
      forall i, j :: 0 <= i < j < |reasons| ==> RuleRank(reasons[i]) < RuleRank(reasons[j])
  {
  }

  /** Consequence of the ordering: the backlog rules together report at most
      once. */
  lemma AtMostOneBacklogReason(s: Student, r: Requirement)
    ensures var reasons := Evaluate(s, r).reasons;
      forall i, j ::
        (0 <= i < |reasons| && 0 <= j < |reasons| &&
         IsBacklogReason(reasons[i]) && IsBacklogReason(reasons[j])) ==> i == j
  {
    var reasons := Evaluate(s, r).reasons;
    ReasonsInRuleOrder(s, r);
    forall i, j | 0 <= i < |reasons| && 0 <= j < |reasons| &&
        IsBacklogReason(reasons[i]) && IsBacklogReason(reasons[j])
      ensures i == j
    {
      assert RuleRank(reasons[i]) == 1 == RuleRank(reasons[j]);
    }
  }

  /** When backlogs are disallowed the backlog count is ignored; when they
      are allowed the backlog flag is ignored. */
  lemma BacklogFieldsIgnored(s: Student, r: Requirement, count: int, flag: bool)
    ensures !r.backlogsAllowed ==> Evaluate(s.(backlogCount := count), r) == Evaluate(s, r)
    ensures r.backlogsAllowed ==> Evaluate(s.(hasBacklogs := flag), r) == Evaluate(s, r)
  {
  }

  /** A student without backlogs passes the backlog rules whatever the
      company's backlog policy, provided the maximum is not negative. */
  lemma CleanRecordPassesBacklogRules(s: Student, r: Requirement)
    requires !s.hasBacklogs && s.backlogCount == 0 && r.maxBacklogs >= 0
    ensures forall k :: 0 <= k < |Evaluate(s, r).reasons| ==> !IsBacklogReason(Evaluate(s, r).reasons[k])
  {
  }

  /** An absent or empty branch list admits every branch. */
  lemma EmptyBranchListAdmitsAll(s: Student, r: Requirement)
    requires r.branchesAllowed == None || r.branchesAllowed == Some("")
    ensures BranchNotEligible(s.branch) !in Evaluate(s, r).reasons
  {
  }

  /** With a non-empty list, a branch is admitted exactly when it equals one
      of the listed codes after trimming, so padding around the commas does
      not matter and matching is case-sensitive. */
  lemma BranchMatchesTrimmedToken(s: Student, r: Requirement)
    requires Truthy(r.branchesAllowed)
    ensures BranchNotEligible(s.branch) !in Evaluate(s, r).reasons <==>
      exists k :: 0 <= k < |Split(r.branchesAllowed.value)| && s.branch == Trim(Split(r.branchesAllowed.value)[k])
  {
    var parts := Split(r.branchesAllowed.value);
    var allowed := AllowedBranches(r.branchesAllowed.value);
    assert BranchNotEligible(s.branch) in Evaluate(s, r).reasons <==> s.branch !in allowed;
    if s.branch in allowed {
      var k :| 0 <= k < |allowed| && allowed[k] == s.branch;
      assert s.branch == Trim(parts[k]);
      assert exists k :: 0 <= k < |Split(r.branchesAllowed.value)| && s.branch == Trim(Split(r.branchesAllowed.value)[k]);
      assert BranchNotEligible(s.branch) !in Evaluate(s, r).reasons;
    } else {
      forall k | 0 <= k < |parts|
        ensures s.branch != Trim(parts[k])
      {
        assert allowed[k] == Trim(parts[k]);
      }
    }
  }

  /** A list of two comma-free codes yields those two codes, trimmed. */
  lemma AllowedBranchesOfPair(a: string, b: string)
    requires ',' !in a && ',' !in b
    ensures AllowedBranches(a + "," + b) == [Trim(a), Trim(b)]
  {
    SplitAfterPiece(a, b);
    SplitNoComma(b);
    assert Split(a + "," + b) == [a, b];
  }

  /** "CS, IT" admits "IT" and rejects "it" and "ITX". */
  lemma BranchListExample()
    ensures AllowedBranches("CS, IT") == ["CS", "IT"]
    ensures "IT" in AllowedBranches("CS, IT")
    ensures "it" !in AllowedBranches("CS, IT") && "ITX" !in AllowedBranches("CS, IT")
  {
    assert "CS" + "," + " IT" == "CS, IT";
    AllowedBranchesOfPair("CS", " IT");
    assert Trim("CS") == "CS" by {
      TrimPadded("", "CS", "");
      assert "" + "CS" + "" == "CS";
    }
    assert Trim(" IT") == "IT" by {
      TrimPadded(" ", "IT", "");
      assert " " + "IT" + "" == " IT";
    }
  }

  /** A placed student is never eligible, and the placement reason comes
      last. */
  lemma PlacedStudentIneligible(s: Student, r: Requirement)
    requires s.placementStatus == "Placed"
    ensures !Evaluate(s, r).isEligible
    ensures var reasons := Evaluate(s, r).reasons;
      reasons != [] && reasons[|reasons| - 1] == AlreadyPlaced
  {
  }

  /** The list "CS,IT" of the worked examples yields the codes CS and IT. */
  lemma CsItTokens()
    ensures AllowedBranches("CS,IT") == ["CS", "IT"]
  {
    assert "CS" + "," + "IT" == "CS,IT";
    AllowedBranchesOfPair("CS", "IT");
    assert Trim("CS") == "CS" by {
      TrimPadded("", "CS", "");
      assert "" + "CS" + "" == "CS";
    }
    assert Trim("IT") == "IT" by {
      TrimPadded("", "IT", "");
      assert "" + "IT" + "" == "IT";
    }
  }

  /** A student with CGPA 7.50, no backlogs, branch CS and unplaced is
      eligible for a company with cutoff 7.00, no backlogs, branches "CS,IT". */
  lemma ExampleEligible(s: Student, r: Requirement)
    requires s.cgpa == 750 && !s.hasBacklogs && s.branch == "CS" && s.placementStatus == "Unplaced"
    requires r.cgpaCutoff == 700 && !r.backlogsAllowed && r.branchesAllowed == Some("CS,IT")
    ensures Evaluate(s, r) == Verdict(true, [])
  {
    CsItTokens();
    assert AllowedBranches("CS,IT")[0] == "CS";
  }

  /** CGPA 6.00, two backlogs, branch ME, unplaced, against cutoff 7.00, no
      backlogs, branches "CS,IT": three reasons, in rule order. */
  lemma ExampleThreeReasons(s: Student, r: Requirement)
    requires s.cgpa == 600 && s.hasBacklogs && s.backlogCount == 2 && s.branch == "ME"
    requires s.placementStatus == "Unplaced"
    requires r.cgpaCutoff == 700 && !r.backlogsAllowed && r.branchesAllowed == Some("CS,IT")
    ensures Evaluate(s, r) == Verdict(false, [CgpaBelowCutoff(600, 700), BacklogsNotAllowed, BranchNotEligible("ME")])
  {
    CsItTokens();
    assert "ME" !in AllowedBranches("CS,IT");
  }
}
