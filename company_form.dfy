/** The state of the company form: its descriptive fields, its list of HR
    contacts and its requirement fields, and the event handlers that edit
    them. The contact list keeps at most one primary contact. */
module CompanyForm {
  import opened Wrappers
  import opened Records

  /** A value held by a form field: input text, a checkbox state, or the
      numeric default of `max_backlogs`. */
  datatype FieldValue = Text(text: string) | Flag(flag: bool) | Number(number: int)

  /** The form state: top-level fields by name, the contacts, and the
      requirement fields by name. */
  datatype FormData = FormData(
    fields: map<string, FieldValue>,
    contacts: seq<Contact>,
    requirements: map<string, FieldValue>)

  /** The parts of a change event the handlers read. */
  datatype InputEvent = InputEvent(name: string, value: string, isCheckbox: bool, checked: bool)

  /** The text inputs of a contact row. */
  datatype ContactField = HrName | HrEmail | HrPhone | HrDesignation

  /** A change to one contact row: a text input, or the primary checkbox. */
  datatype ContactEdit = TextEdit(field: ContactField, value: string) | PrimaryEdit(checked: bool)

  /** A contact with every text blank. */
  function BlankContact(primary: bool): Contact {
    Contact("", "", "", "", primary)
  }

  /** No two contacts are primary. */
  predicate AtMostOnePrimary(contacts: seq<Contact>) {
    forall i, j ::
      (0 <= i < |contacts| && 0 <= j < |contacts| && contacts[i].isPrimary && contacts[j].isPrimary) ==> i == j
  }

  /** The state before anything is loaded: blank fields, no contacts, and
      the requirement defaults. */
  function InitialForm(): FormData {
    FormData(
      map["company_name" := Text(""), "industry" := Text(""), "city" := Text(""),
          "state" := Text(""), "company_size" := Text(""), "website" := Text("")],
      [],
      map["branches_allowed" := Text(""), "cgpa_cutoff" := Text(""),
          "backlogs_allowed" := Flag(false), "max_backlogs" := Number(0),
          "required_skills" := Text(""), "job_type" := Text("Full-time"),
          "ctc_min" := Text(""), "ctc_max" := Text(""), "stipend" := Text("")])
  }

  /** The form for a new company: one blank contact, and it is primary. */
  function NewCompanyForm(): (form: FormData)
    ensures form.contacts == [BlankContact(true)]
    ensures AtMostOnePrimary(form.contacts) && form.contacts[0].isPrimary
    ensures form.fields == InitialForm().fields && form.requirements == InitialForm().requirements
  {
    InitialForm().(contacts := [BlankContact(true)])
  }

  /** The change handler of the descriptive and requirement inputs. With
      section "requirements" only that key of the requirements changes, and
      a checkbox stores its checked state; otherwise only the top-level key
      changes and it stores the input's value. */
  function HandleChange(form: FormData, e: InputEvent, section: Option<string>): (r: FormData)
    ensures r.contacts == form.contacts
    ensures section == Some("requirements") ==>
      && r.fields == form.fields
      && r.requirements.Keys == form.requirements.Keys + {e.name}
      && r.requirements[e.name] == (if e.isCheckbox then Flag(e.checked) else Text(e.value))
      && (forall k :: k in form.requirements && k != e.name ==> r.requirements[k] == form.requirements[k])
    ensures section != Some("requirements") ==>
      && r.requirements == form.requirements
      && r.fields.Keys == form.fields.Keys + {e.name}
      && r.fields[e.name] == Text(e.value)
      && (forall k :: k in form.fields && k != e.name ==> r.fields[k] == form.fields[k])
  {
    if section == Some("requirements") then
      form.(requirements := form.requirements[e.name := if e.isCheckbox then Flag(e.checked) else Text(e.value)])
    else
      form.(fields := form.fields[e.name := Text(e.value)])
  }

  /** One contact after an edit of one of its inputs. */
  function ApplyEdit(c: Contact, e: ContactEdit): Contact {
    match e
    case TextEdit(HrName, v) => c.(hrName := v)
    case TextEdit(HrEmail, v) => c.(hrEmail := v)
    case TextEdit(HrPhone, v) => c.(hrPhone := v)
    case TextEdit(HrDesignation, v) => c.(hrDesignation := v)
    case PrimaryEdit(checked) => c.(isPrimary := checked)
  }

  /** The change handler of contact row `index`: copy the list, replace that
      contact with its edited version, and when its primary box was checked
      clear the flag on every other contact. Unchecking leaves the others as
      they are, so the list may end with no primary. */
  method HandleContactChange(form: FormData, index: nat, e: ContactEdit) returns (r: FormData)
    requires index < |form.contacts|
    ensures r.fields == form.fields && r.requirements == form.requirements
    ensures |r.contacts| == |form.contacts|
    ensures r.contacts[index] == ApplyEdit(form.contacts[index], e)
    ensures forall i :: 0 <= i < |r.contacts| && i != index ==>
      r.contacts[i] == if e == PrimaryEdit(true) then form.contacts[i].(isPrimary := false) else form.contacts[i]
    ensures e == PrimaryEdit(true) ==>
      forall i :: 0 <= i < |r.contacts| ==> (r.contacts[i].isPrimary <==> i == index)
    ensures AtMostOnePrimary(form.contacts) ==> AtMostOnePrimary(r.contacts)
  {
    var contacts := form.contacts;
    contacts := contacts[index := ApplyEdit(contacts[index], e)];
    if e == PrimaryEdit(true) {
      var i := 0;
      while i < |contacts|
        invariant 0 <= i <= |contacts| == |form.contacts|
        invariant contacts[index] == ApplyEdit(form.contacts[index], e)
        invariant forall k :: 0 <= k < i && k != index ==> contacts[k] == form.contacts[k].(isPrimary := false)
        invariant forall k :: i <= k < |contacts| && k != index ==> contacts[k] == form.contacts[k]
      {
        if i != index {
          contacts := contacts[i := contacts[i].(isPrimary := false)];
        }
        i := i + 1;
      }
    }
    r := form.(contacts := contacts);
  }

  /** Append one blank, non-primary contact; the earlier contacts are kept,
      so a list with at most one primary keeps that property. */
  function AddContact(form: FormData): (r: FormData)
    ensures r.fields == form.fields && r.requirements == form.requirements
    ensures |r.contacts| == |form.contacts| + 1
    ensures r.contacts[..|form.contacts|] == form.contacts
    ensures r.contacts[|form.contacts|] == BlankContact(false)
    ensures AtMostOnePrimary(form.contacts) ==> AtMostOnePrimary(r.contacts)
  {
    form.(contacts := form.contacts + [BlankContact(false)])
  }

  /** The remove button is offered only while more than one contact is
      listed. */
  predicate RemoveOffered(form: FormData) {
    |form.contacts| > 1
  }

  /** Keep every contact except the one at `index`, in order. An index past
      the end removes nothing. */
  function RemoveContact(form: FormData, index: nat): (r: FormData)
    ensures r.fields == form.fields && r.requirements == form.requirements
    ensures index < |form.contacts| ==>
      && |r.contacts| == |form.contacts| - 1
      && (forall i :: 0 <= i < index ==> r.contacts[i] == form.contacts[i])
      && (forall i :: index <= i < |r.contacts| ==> r.contacts[i] == form.contacts[i + 1])
    ensures index >= |form.contacts| ==> r.contacts == form.contacts
    ensures RemoveOffered(form) ==> r.contacts != []
    ensures AtMostOnePrimary(form.contacts) ==> AtMostOnePrimary(r.contacts)
  {
    if index < |form.contacts| then
      form.(contacts := form.contacts[..index] + form.contacts[index + 1..])
    else
      form
  }
}
