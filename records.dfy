/** The rows of the placement-cell database and the store that holds them.

    Every table the controllers touch is a field of `Database`; each request
    handler is modelled as one atomic step over those fields, with no other
    request running between its statements. */
module Records {
  import opened Wrappers

  /** A CGPA in hundredths: 7.5 is 750. */
  type Cgpa = int

  /** A row of `students`. `placementStatus` is the text stored in the
      column ("Unplaced" or "Placed" in practice). */
  datatype Student = Student(
    rollNumber: string,
    name: string,
    branch: string,
    batchYear: int,
    cgpa: Cgpa,
    hasBacklogs: bool,
    backlogCount: int,
    placementStatus: string)

  /** A row of `company_requirements`, without its company id.
      `branchesAllowed` is the raw comma-separated text, `None` when NULL. */
  datatype Requirement = Requirement(
    branchesAllowed: Option<string>,
    cgpaCutoff: Cgpa,
    backlogsAllowed: bool,
    maxBacklogs: int,
    requiredSkills: string,
    jobType: string,
    ctcMin: Option<int>,
    ctcMax: Option<int>,
    stipend: Option<int>)

  /** A row of a per-company child table: the owning company's id and the
      row's other columns. */
  datatype Row<T> = Row(companyId: nat, payload: T)

  /** A row of `company_requirements`. */
  type RequirementRow = Row<Requirement>

  /** An HR contact as the company form edits it and as
      `company_hr_contacts` stores it. */
  datatype Contact = Contact(
    hrName: string,
    hrEmail: string,
    hrPhone: string,
    hrDesignation: string,
    isPrimary: bool)

  /** A row of `company_hr_contacts`. */
  type ContactRow = Row<Contact>

  /** The descriptive columns of `companies` that create and update write. */
  datatype CompanyDetails = CompanyDetails(
    companyName: string,
    industry: string,
    city: string,
    state: string,
    companySize: string,
    website: string)

  /** A row of `companies`. */
  datatype Company = Company(details: CompanyDetails, status: string)

  /** A row of `company_status_history`: one audited status change. */
  datatype StatusChange = StatusChange(
    companyId: nat,
    userId: nat,
    oldStatus: string,
    newStatus: string,
    reason: Option<string>)

  /** A row of `applications`. */
  datatype Application = Application(
    studentId: nat,
    companyId: nat,
    status: string,
    feedback: Option<string>,
    score: Option<int>)

  /** The status a freshly inserted application carries (the column default). */
  const InitialApplicationStatus: string := "Applied"

  /** Sort direction of an `ORDER BY` clause. */
  datatype Direction = Asc | Desc

  /** The column and direction a list handler sorts by. */
  datatype Ordering = Ordering(column: string, direction: Direction)

  /** JavaScript truthiness of an optional query-string value: present and
      not the empty string. */
  predicate Truthy(v: Option<string>) {
    v.Some? && v.value != ""
  }

  /** True when some application links `studentId` to `companyId`. */
  predicate HasApplication(apps: map<nat, Application>, studentId: nat, companyId: nat) {
    exists id :: id in apps && apps[id].studentId == studentId && apps[id].companyId == companyId
  }

  /** At most one application per (student, company) pair. */
  ghost predicate OnePerPair(apps: map<nat, Application>) {
    forall i, j ::
      (i in apps && j in apps &&
       apps[i].studentId == apps[j].studentId && apps[i].companyId == apps[j].companyId) ==> i == j
  }

  /** The rows of one company in a child table, in insertion order. */
  function ForCompany<T>(rows: seq<Row<T>>, companyId: nat): seq<T> {
    if |rows| == 0 then []
    else
      var rest := ForCompany(rows[..|rows| - 1], companyId);
      var last := rows[|rows| - 1];
      if last.companyId == companyId then rest + [last.payload] else rest
  }

  /** The store behind the connection pool: one field per table, and the
      next value of each auto-increment key. */
  class Database {
    var students: map<nat, Student>
    var applications: map<nat, Application>
    var nextApplicationId: nat
    var companies: map<nat, Company>
    var nextCompanyId: nat
    var hrContacts: seq<ContactRow>
    var requirements: seq<RequirementRow>
    var statusHistory: seq<StatusChange>
    /** The default of the `companies.status` column. */
    const defaultCompanyStatus: string

    /** Auto-increment keys stay ahead of every key in use, and the
        duplicate guard's promise holds. */
    ghost predicate Valid()
      reads this
    {
      && (forall id :: id in applications ==> id < nextApplicationId)
      && (forall id :: id in companies ==> id < nextCompanyId)
      && OnePerPair(applications)
    }

    constructor (students: map<nat, Student>, defaultCompanyStatus: string)
      ensures Valid()
      ensures this.students == students && this.defaultCompanyStatus == defaultCompanyStatus
      ensures applications == map[] && companies == map[]
      ensures hrContacts == [] && requirements == [] && statusHistory == []
    {
      this.students := students;
      this.defaultCompanyStatus := defaultCompanyStatus;
      applications, nextApplicationId := map[], 1;
      companies, nextCompanyId := map[], 1;
      hrContacts, requirements, statusHistory := [], [], [];
    }
  }
}
