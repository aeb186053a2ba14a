/** The company controller: the sort choice of the company list, creating
    and updating a company with its HR contacts and requirement row,
    changing its status with an audit record, and deleting it. */
module Companies {
  import opened Wrappers
  import opened Records

  // ---------------------------------------------------------------------
  // Sorting the company list
  // ---------------------------------------------------------------------

  /** The columns a caller may sort the company list by. */
  const CompanySortColumns: set<string> := {"company_name", "created_at", "status"}

  /** The ordering of the company list for the `sort_by` and `order` query
      parameters. */
  function CompanyOrdering(sortBy: Option<string>, order: Option<string>): Ordering {
    if Truthy(sortBy) then
      Ordering(if sortBy.value in CompanySortColumns then sortBy.value else "created_at",
               if order == Some("asc") then Asc else Desc)
    else
      Ordering("created_at", Desc)
  }

  /** The `ORDER BY` clause appended to the company query. */
  function CompanyOrderClause(o: Ordering): string {
    " ORDER BY c." + o.column + (if o.direction == Desc then " DESC" else " ASC")
  }

  /** The list is always sorted by a whitelisted column; a whitelisted
      `sort_by` is honoured and anything else falls back to `created_at`;
      only the literal `asc` sorts ascending; no `sort_by` means newest
      first. */
  lemma CompanyOrderingChoice(sortBy: Option<string>, order: Option<string>)
    ensures CompanyOrdering(sortBy, order).column in CompanySortColumns
    ensures Truthy(sortBy) && sortBy.value in CompanySortColumns ==>
      CompanyOrdering(sortBy, order).column == sortBy.value
    ensures Truthy(sortBy) && sortBy.value !in CompanySortColumns ==>
      CompanyOrdering(sortBy, order).column == "created_at"
    ensures CompanyOrdering(sortBy, order).direction == Asc <==> Truthy(sortBy) && order == Some("asc")
    ensures !Truthy(sortBy) ==> CompanyOrdering(sortBy, order) == Ordering("created_at", Desc)
  {
  }

  /** The text spliced into the SQL is always one of the six clauses built
      from the whitelist and the two directions, so no query-string value
      reaches the statement. */
  lemma CompanyOrderClauseIsFixed(sortBy: Option<string>, order: Option<string>)
    ensures CompanyOrderClause(CompanyOrdering(sortBy, order)) in
      (set column, direction | column in CompanySortColumns && direction in {" ASC", " DESC"} ::
         " ORDER BY c." + column + direction)
  {
    var o := CompanyOrdering(sortBy, order);
    CompanyOrderingChoice(sortBy, order);
    var direction := if o.direction == Desc then " DESC" else " ASC";
    assert CompanyOrderClause(o) == " ORDER BY c." + o.column + direction;
  }

  // ---------------------------------------------------------------------
  // Contact and requirement rows
  // ---------------------------------------------------------------------

  /** The rows inserted for a list of values, one per value, in order. */
  function RowsFor<T>(companyId: nat, values: seq<T>): seq<Row<T>> {
    seq(|values|, i requires 0 <= i < |values| => Row(companyId, values[i]))
  }

  /** `DELETE FROM <table> WHERE company_id = ?` on a child table. */
  function WithoutCompany<T>(rows: seq<Row<T>>, companyId: nat): seq<Row<T>> {
    if |rows| == 0 then []
    else
      var rest := WithoutCompany(rows[..|rows| - 1], companyId);
      if rows[|rows| - 1].companyId == companyId then rest else rest + [rows[|rows| - 1]]
  }

  lemma ForCompanySnoc<T>(rows: seq<Row<T>>, row: Row<T>, c: nat)
    ensures ForCompany(rows + [row], c) ==
      ForCompany(rows, c) + (if row.companyId == c then [row.payload] else [])
  {
    assert (rows + [row])[..|rows + [row]| - 1] == rows;
  }

  /** Inserting a company's rows appends exactly those values to its list
      and leaves every other company's list alone. */
  lemma {:induction false} ForCompanyAppendRows<T>(rows: seq<Row<T>>, companyId: nat, values: seq<T>, c: nat)
    ensures ForCompany(rows + RowsFor(companyId, values), c) ==
      ForCompany(rows, c) + (if c == companyId then values else [])
  {
    if |values| == 0 {
      assert rows + RowsFor(companyId, values) == rows;
    } else {
      var init := values[..|values| - 1];
      var last := values[|values| - 1];
      ForCompanyAppendRows(rows, companyId, init, c);
      assert rows + RowsFor(companyId, values) ==
        (rows + RowsFor(companyId, init)) + [Row(companyId, last)];
      ForCompanySnoc(rows + RowsFor(companyId, init), Row(companyId, last), c);
      if c == companyId {
        assert init + [last] == values;
      }
    }
  }

  /** Deleting a company's rows empties its list and leaves every other
      company's list alone. */
  lemma {:induction false} ForCompanyWithout<T>(rows: seq<Row<T>>, companyId: nat, c: nat)
    ensures ForCompany(WithoutCompany(rows, companyId), c) ==
      if c == companyId then [] else ForCompany(rows, c)
  {
    if |rows| != 0 {
      var init := rows[..|rows| - 1];
      var last := rows[|rows| - 1];
      ForCompanyWithout(init, companyId, c);
      if last.companyId != companyId {
        ForCompanySnoc(WithoutCompany(init, companyId), last, c);
      }
    }
  }

  /** Insert one contact row per contact, in order. */
  method InsertContacts(db: Database, companyId: nat, contacts: seq<Contact>)
    modifies db`hrContacts
    ensures db.hrContacts == old(db.hrContacts) + RowsFor(companyId, contacts)
  {
    var i := 0;
    while i < |contacts|
      invariant 0 <= i <= |contacts|
      invariant db.hrContacts == old(db.hrContacts) + RowsFor(companyId, contacts[..i])
    {
      assert RowsFor(companyId, contacts[..i + 1]) ==
        RowsFor(companyId, contacts[..i]) + [Row(companyId, contacts[i])];
      db.hrContacts := db.hrContacts + [Row(companyId, contacts[i])];
      i := i + 1;
    }
    assert contacts[..i] == contacts;
  }

  // ---------------------------------------------------------------------
  // Create, update, delete
  // ---------------------------------------------------------------------

  /** Create a company with the column-default status under a fresh id,
      insert its contacts (when a non-empty list is supplied) and its
      requirement row (when supplied). */
  method CreateCompany(db: Database, details: CompanyDetails,
                       contacts: Option<seq<Contact>>, requirement: Option<Requirement>)
    returns (id: nat)
    requires db.Valid()
    modifies db`companies, db`nextCompanyId, db`hrContacts, db`requirements
    ensures db.Valid()
    ensures id == old(db.nextCompanyId) && id !in old(db.companies)
    ensures db.companies == old(db.companies)[id := Company(details, db.defaultCompanyStatus)]
    ensures db.nextCompanyId == id + 1
    ensures db.hrContacts ==
      old(db.hrContacts) + RowsFor(id, if contacts.Some? then contacts.value else [])
    ensures db.requirements ==
      old(db.requirements) + (if requirement.Some? then [Row(id, requirement.value)] else [])
    ensures forall c ::
      ForCompany(db.hrContacts, c) ==
      ForCompany(old(db.hrContacts), c) + (if c == id && contacts.Some? then contacts.value else [])
  {
    id := db.nextCompanyId;
    db.companies := db.companies[id := Company(details, db.defaultCompanyStatus)];
    db.nextCompanyId := id + 1;

    if contacts.Some? && |contacts.value| > 0 {
      InsertContacts(db, id, contacts.value);
    } else {
      assert RowsFor(id, if contacts.Some? then contacts.value else []) == [];
      assert db.hrContacts + [] == db.hrContacts;
    }

    if requirement.Some? {
      db.requirements := db.requirements + [Row(id, requirement.value)];
    }

    forall c ensures ForCompany(db.hrContacts, c) ==
      ForCompany(old(db.hrContacts), c) + (if c == id && contacts.Some? then contacts.value else [])
    {
      ForCompanyAppendRows(old(db.hrContacts), id, if contacts.Some? then contacts.value else [], c);
    }
  }

  /** Update a company's descriptive columns; replace all its contacts when
      a list is supplied (an empty list clears them) and its requirement row
      when one is supplied. Omitted parts are left as they were, the status
      is never touched, and other companies' rows do not change. */
  method UpdateCompany(db: Database, id: nat, details: CompanyDetails,
                       contacts: Option<seq<Contact>>, requirement: Option<Requirement>)
    requires db.Valid()
    modifies db`companies, db`hrContacts, db`requirements
    ensures db.Valid()
    ensures db.companies ==
      if id in old(db.companies) then old(db.companies)[id := old(db.companies)[id].(details := details)]
      else old(db.companies)
    ensures contacts.None? ==> db.hrContacts == old(db.hrContacts)
    ensures contacts.Some? ==>
      db.hrContacts == WithoutCompany(old(db.hrContacts), id) + RowsFor(id, contacts.value)
    ensures contacts.Some? ==> ForCompany(db.hrContacts, id) == contacts.value
    ensures forall c :: c != id ==> ForCompany(db.hrContacts, c) == ForCompany(old(db.hrContacts), c)
    ensures requirement.None? ==> db.requirements == old(db.requirements)
    ensures requirement.Some? ==>
      db.requirements == WithoutCompany(old(db.requirements), id) + [Row(id, requirement.value)]
    ensures requirement.Some? ==> ForCompany(db.requirements, id) == [requirement.value]
    ensures forall c :: c != id ==> ForCompany(db.requirements, c) == ForCompany(old(db.requirements), c)
  {
    if id in db.companies {
      db.companies := db.companies[id := db.companies[id].(details := details)];
    }

    if contacts.Some? {
      ghost var before := db.hrContacts;
      db.hrContacts := WithoutCompany(db.hrContacts, id);
      ghost var cleared := db.hrContacts;
      InsertContacts(db, id, contacts.value);
      forall c ensures ForCompany(db.hrContacts, c) ==
        if c == id then contacts.value else ForCompany(before, c)
      {
        ForCompanyWithout(before, id, c);
        ForCompanyAppendRows(cleared, id, contacts.value, c);
      }
    }

    if requirement.Some? {
      ghost var before := db.requirements;
      db.requirements := WithoutCompany(db.requirements, id);
      ghost var cleared := db.requirements;
      db.requirements := db.requirements + [Row(id, requirement.value)];
      forall c ensures ForCompany(db.requirements, c) ==
        if c == id then [requirement.value] else ForCompany(before, c)
      {
        ForCompanyWithout(before, id, c);
        ForCompanySnoc(cleared, Row(id, requirement.value), c);
      }
    }
  }

  /** Delete the company row with `id`; other companies are kept. */
  method DeleteCompany(db: Database, id: nat)
    requires db.Valid()
    modifies db`companies
    ensures db.Valid()
    ensures db.companies == old(db.companies) - {id}
  {
    db.companies := db.companies - {id};
  }

  // ---------------------------------------------------------------------
  // Status changes
  // ---------------------------------------------------------------------

  /** The answer of a status change. */
  datatype StatusOutcome = StatusUpdated | CompanyNotFound

  /** Change a company's status. An unknown company is answered with
      not-found and nothing changes. Otherwise, whatever the status was, it
      becomes `status`, and exactly one audit record (old status, new status,
      acting user, reason exactly as supplied) is appended to the history;
      earlier records and other companies are untouched. */
  method UpdateCompanyStatus(db: Database, id: nat, status: string, reason: Option<string>, userId: nat)
    returns (outcome: StatusOutcome)
    requires db.Valid()
    modifies db`companies, db`statusHistory
    ensures db.Valid()
    ensures id !in old(db.companies) ==>
      outcome == CompanyNotFound && db.companies == old(db.companies) && db.statusHistory == old(db.statusHistory)
    ensures id in old(db.companies) ==>
      && outcome == StatusUpdated
      && db.companies == old(db.companies)[id := old(db.companies)[id].(status := status)]
      && db.statusHistory == old(db.statusHistory) + [StatusChange(id, userId, old(db.companies)[id].status, status, reason)]
  {
    if id !in db.companies {
      return CompanyNotFound;
    }
    var oldStatus := db.companies[id].status;
    db.companies := db.companies[id := db.companies[id].(status := status)];
    db.statusHistory := db.statusHistory + [StatusChange(id, userId, oldStatus, status, reason)];
    outcome := StatusUpdated;
  }

  /** A client run: blacklisting an active company twice with the same
      reason logs two records, the first from "Active" and the second from
      "Blacklisted". */
  method RepeatedTransitionLogsTwice(db: Database, id: nat, userId: nat)
    requires db.Valid()
    requires id in db.companies && db.companies[id].status == "Active"
    modifies db`companies, db`statusHistory
    ensures |db.statusHistory| == |old(db.statusHistory)| + 2
    ensures db.statusHistory[|db.statusHistory| - 2] ==
      StatusChange(id, userId, "Active", "Blacklisted", Some("policy violation"))
    ensures db.statusHistory[|db.statusHistory| - 1] ==
      StatusChange(id, userId, "Blacklisted", "Blacklisted", Some("policy violation"))
  {
    var first := UpdateCompanyStatus(db, id, "Blacklisted", Some("policy violation"), userId);
    var second := UpdateCompanyStatus(db, id, "Blacklisted", Some("policy violation"), userId);
  }
}
