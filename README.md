# Placement-cell decision and record-update logic in Dafny

This project models the part of the Training-and-Placement (TNP) office tool
that makes decisions or rewrites records, rather than only moving rows between
HTTP and MySQL:

- **Eligibility check** (`Students`): a student record is matched against a
  company's requirement row. Four rules run in a fixed order: CGPA cutoff,
  backlog policy, branch whitelist, already-placed gate. Each failing rule adds
  a reason and clears the eligibility flag. `Evaluate` is the specification.
  `CheckEligibility` is the handler's step-by-step flag-and-list version,
  proved equal to it. The branch whitelist is parsed with models of
  JavaScript's `split(',')` and `trim()` (`Text`).
- **Applications** (`Applications`): the duplicate guard on submission, the
  interview-outcome update with its "Selected ⇒ student Placed" side effect (a
  one-way ratchet), and deletion. These run over the tables of a `Database`
  object (`Records`).
- **Companies** (`Companies`): creating and updating a company. Update replaces
  the company's HR contacts and requirement row wholesale: delete, then
  re-insert row by row. Also the unchecked status change with its
  append-only audit history, deletion, and the whitelisted sort choice of the
  list endpoint.
- **Company form** (`CompanyForm`): the client-side editor of the HR-contact
  list and the other form fields. Checking "primary" on one contact clears it
  on all the others.

CGPA and cutoff are integers in hundredths (7.5 is 750). Each request handler is
one atomic step over the `Database` fields, with no other request running
between its statements. Only some handlers open a transaction, so this is an
idealisation; "## Left out" lists where the code differs. Text values in
the database (statuses, reasons) are strings, as the handlers pass them
through unchecked.

## Model

| member | source | states |
|---|---|---|
| Text.JoinSplit | server/controllers/studentController.js:165 | Joining the pieces of `split(',')` with commas gives back the original text, so no character is lost or invented by the split |
| Text.SplitJoin | server/controllers/studentController.js:165 | Splitting comma-free pieces joined by commas gives back exactly those pieces (the inverse direction) |
| Text.TrimPadded | server/controllers/studentController.js:165 | `trim()` removes exactly the whitespace padding: whitespace + t + whitespace trims to t when t has no edge whitespace |
| Text.TrimIsSlice | server/controllers/studentController.js:165 | `trim()` returns a contiguous slice of its input, only whitespace is cut on either side, and the result has no edge whitespace |
| Students.StudentOrderingChoice | server/controllers/studentController.js:27-34 | The sort column is always `name`, `cgpa` or `roll_number`. A whitelisted `sort_by` is honoured, anything else falls back to `name`. Descending only for the literal `desc`. No `sort_by` gives `roll_number` ascending |
| Students.StudentOrderClauseIsFixed | server/controllers/studentController.js:27-34 | The `ORDER BY` text spliced into the query is one of the six clauses built from the whitelist, whatever the query string holds |
| Students.CheckEligibility | server/controllers/studentController.js:143-178 | The sequential flag-and-push evaluation returns `isEligible` true exactly when `reasons` is empty, and its result equals the rule specification `Evaluate` |
| Students.FirstRequirement | server/controllers/studentController.js:136-144 | The requirement row used is the first stored for the company, and none exactly when the company has no requirement row |
| Students.CheckEligibilityRequest | server/controllers/studentController.js:132-183 | A missing student or a missing requirement row gives not-found and no evaluation; otherwise the verdict is `Evaluate` of the stored student and the first requirement row |
| Students.EligibleIffNoReasons | server/controllers/studentController.js:145-178 | Eligible if and only if no reason is reported |
| Students.ReasonIffRuleFails | server/controllers/studentController.js:149-176 | Each rule's reason appears exactly when that rule's condition holds (both directions, for all five conditions) |
| Students.CgpaAtCutoffPasses | server/controllers/studentController.js:149-152 | A CGPA equal to the cutoff produces no CGPA reason; only strictly below fails |
| Students.ReasonsInRuleOrder | server/controllers/studentController.js:149-176 | Reasons appear in rule order (CGPA, backlog, branch, placed), each rule at most once |
| Students.AtMostOneBacklogReason | server/controllers/studentController.js:154-162 | At most one backlog reason is reported, because the two backlog branches test `backlogs_allowed` and its negation |
| Students.BacklogFieldsIgnored | server/controllers/studentController.js:154-162 | `backlog_count` does not affect the verdict when backlogs are disallowed. `has_backlogs` does not affect it when they are allowed |
| Students.CleanRecordPassesBacklogRules | server/controllers/studentController.js:154-162 | With no backlog flag, a zero count and a non-negative maximum, no backlog reason is produced under either policy |
| Students.EmptyBranchListAdmitsAll | server/controllers/studentController.js:164 | A NULL or empty `branches_allowed` admits every branch |
| Students.BranchMatchesTrimmedToken | server/controllers/studentController.js:164-170 | With a non-empty list, the branch is admitted exactly when it equals some comma-split, trimmed token |
| Students.BranchListExample | server/controllers/studentController.js:164-170 | "CS, IT" yields the tokens ["CS", "IT"]. It admits "IT" and rejects "it" and "ITX" (exact, case-sensitive match) |
| Students.PlacedStudentIneligible | server/controllers/studentController.js:172-176 | A placed student is never eligible, and "already placed" is the last reason |
| Students.ExampleEligible | server/controllers/studentController.js:145-178 | CGPA 7.50, no backlogs, branch CS, unplaced, against cutoff 7.00, no backlogs, "CS,IT": eligible with no reasons |
| Students.ExampleThreeReasons | server/controllers/studentController.js:145-178 | CGPA 6.00, two backlogs, branch ME against the same requirement: three reasons, CGPA then backlog then branch |
| Applications.CreateApplication | server/controllers/applicationController.js:50-74 | A pair that already has an application is refused and both the table and the id counter are unchanged. Otherwise exactly one row with a fresh id and the initial status is added. Either way the pair now has an application and "one application per pair" still holds |
| Applications.UpdateApplicationStatus | server/controllers/applicationController.js:76-109 | Only the status, feedback and score of the application with that id change. An unknown id changes neither table. "Selected" on an existing application makes its student "Placed" and touches no other student. Any other status leaves all students unchanged, and no placed student is ever un-placed |
| Applications.DeleteApplication | server/controllers/applicationController.js:111-120 | Only the row with that id is removed |
| Applications.SelectionIsOneWay | server/controllers/applicationController.js:50-109 | A client run: a second submission for the pair is refused. Selecting places the student, and a later "Rejected" leaves the student placed |
| Companies.CompanyOrderingChoice | server/controllers/companyController.js:48-55 | The sort column is always `company_name`, `created_at` or `status`, with fallback to `created_at`. Ascending only for the literal `asc`. The default is `created_at` descending |
| Companies.CompanyOrderClauseIsFixed | server/controllers/companyController.js:48-55 | The `ORDER BY` text spliced into the query is one of the six clauses built from the whitelist |
| Companies.InsertContacts | server/controllers/companyController.js:114-121 | The insert loop appends one contact row per supplied contact, in order |
| Companies.ForCompanyAppendRows | server/controllers/companyController.js:164-169 | Inserting a company's rows (contacts here, the requirement row alike) appends exactly those values to its list and leaves other companies' lists alone |
| Companies.ForCompanyWithout | server/controllers/companyController.js:163-174 | `DELETE … WHERE company_id = ?` on a child table (contacts at line 163, requirements at line 174) empties that company's list and leaves other companies' lists alone |
| Companies.CreateCompany | server/controllers/companyController.js:96-143 | A fresh id gets a company with the supplied details and the default status. The supplied contacts are appended to that id's list in order, and the requirement row is inserted when supplied |
| Companies.UpdateCompany | server/controllers/companyController.js:145-193 | Details are overwritten and the status is untouched. With contacts supplied (even an empty list), the company's contacts become exactly that list, in order. Likewise it ends with exactly one requirement row equal to the supplied one. Omitted parts and other companies are unchanged |
| Companies.DeleteCompany | server/controllers/companyController.js:246-255 | Only the company row with that id is removed |
| Companies.UpdateCompanyStatus | server/controllers/companyController.js:195-226 | An unknown company gives not-found and changes nothing. Otherwise the status becomes the requested one whatever it was, and exactly one record (old status, new status, user, reason as supplied) is appended. Earlier history and other companies are unchanged |
| Companies.RepeatedTransitionLogsTwice | server/controllers/companyController.js:204-215 | Active to Blacklisted twice with the same reason appends two records, the first from "Active" and the second from "Blacklisted" |
| CompanyForm.NewCompanyForm | client/src/pages/CompanyForm.js:11-55 | A new company form starts with exactly one contact, all four text fields blank and primary, so "at most one primary" holds from the start. The other fields hold the initial defaults |
| CompanyForm.HandleChange | client/src/pages/CompanyForm.js:59-75 | With section 'requirements', only that key of the requirements changes, and a checkbox stores its checked state. Otherwise only the top-level key changes, to the input's value. Contacts are untouched |
| CompanyForm.HandleContactChange | client/src/pages/CompanyForm.js:77-91 | The list length is kept and only the edited field of the contact at `index` changes. Checking primary makes that contact the only primary. Unchecking leaves the others alone, so zero primaries is possible. "At most one primary" is preserved |
| CompanyForm.AddContact | client/src/pages/CompanyForm.js:93-98 | One blank non-primary contact is appended, earlier contacts are unchanged, and "at most one primary" is preserved |
| CompanyForm.RemoveContact | client/src/pages/CompanyForm.js:100-103 | Exactly the element at `index` is removed and the rest keep their order; an out-of-range index removes nothing. When the button is offered (more than one contact) the list stays non-empty. "At most one primary" is preserved. The Remove button is rendered only for lists longer than one (line 240) |

## Left out

- Network, HTTP routing and status codes, and JSON bodies are left out. Authentication (`req.user` is taken as a given user id) and the connection pool are left out too.
- The SQL filters of the list endpoints are left out: `LIKE`, `FIND_IN_SET`, `GROUP BY`, the latest-remark subquery, the student, company and application filters. Only the sort choice is modelled. The rows a list returns are not modelled.
- Transactions: `beginTransaction`, `commit` and `rollback` are not modelled. Each handler is one atomic step, and a failing database write (the rollback path) is not modelled.
- Only `createCompany`, `updateCompany`, `updateCompanyStatus` and `updateApplicationStatus` open a transaction. `createApplication`, `deleteApplication`, `deleteCompany` and `checkEligibility` run their statements on the pool without one. Treating them as atomic steps means concurrent requests are not modelled.
- The check-then-insert race of `createApplication` is left out (server/controllers/applicationController.js:55-67): two concurrent submissions for a pair can both pass the duplicate check. Applications.CreateApplication's "one application per pair" holds only for requests that do not overlap.
- Companies.UpdateCompanyStatus: on the not-found path (server/controllers/companyController.js:205) the handler returns after `beginTransaction` without commit or rollback, and releases the connection with the transaction still open. The model only records that nothing changes.
- The database schema is not part of this model. Foreign keys, `ON DELETE CASCADE`, unique keys and column types are unknown. So `UpdateCompany` on an unknown id still writes contact and requirement rows for that id, as the handler's statements do. `DeleteCompany` and `DeleteApplication` remove only their own row. No cascade to contacts, requirements, history or applications is assumed.
- Column defaults are schema values. The initial application status is taken to be "Applied". The default company status is a constant of the `Database` object, fixed when it is constructed.
- Timestamps (`created_at`, `applied_date`, history time) and the newest-first ordering of history reads are left out.
- CGPA is an integer in hundredths, not a decimal or floating-point value. The runtime type of `cgpa` and `cgpa_cutoff` depends on the database driver, which is not part of this model.
- The exact text of the eligibility reasons is left out. Reasons are a datatype that carries the values the text interpolates. How the driver prints decimals is unknown.
- Students.CheckEligibility: `student.branch` is a string. A NULL branch, and JavaScript's loose comparisons of NULL or mistyped values, are not modelled.
- Companies.UpdateCompanyStatus: the "Status update" default reason is applied only in the client (client/src/pages/CompanyDetails.js), which is not part of this model. The server stores whatever reason, or none, it receives.
- The read handlers return rows and make no decision, so they are not modelled: the filters and row sets of `getAllStudents`, `getAllCompanies` and `getAllApplications` (the sort choice of the first two is modelled), the student-plus-applications lookup of `getStudentById` (two queries), and the company-plus-contacts, requirement, remarks and history lookup of `getCompanyById` (five queries). The single-statement writes `createStudent`, `updateStudent`, `deleteStudent` and `addRemark` are not modelled either. The students table is given to the `Database` constructor.
- Students.FirstRequirement: the handler takes `requirements[0]` of a `SELECT` with no `ORDER BY` (server/controllers/studentController.js:137), so MySQL does not fix which row comes first when a company has several. The model takes the first row in insertion order. In the model, several rows for one id arise only when `UpdateCompany` runs on an unknown id, which leaves an orphan row, and a later `CreateCompany` then gets that id.
- CompanyForm.HandleContactChange: JavaScript's shallow copy means the handler also clears `is_primary` on contact objects shared with the previous state. The model works on values, so this aliasing is not captured. The event's name/type pairs are fixed by the form's inputs: text fields get text and `is_primary` is the checkbox. The edit-mode loading of a company into the form (client/src/pages/CompanyForm.js:34-49), submission and rendering are left out.
- CompanyForm.HandleChange: the form's top-level fields are a map separate from `contacts` and `requirements`. An input named `contacts` or `requirements` would overwrite those parts in JavaScript, but the form has no such input.
