/**
 * The list editing of the education form
 * (src/components/forms/EducationForm.tsx).
 */
module EducationForm {
  import opened Wrappers
  import opened Types
  import opened Arrays

  /** A field of an education entry together with the value written into it. */
  datatype EducationEdit =
    | SetId(id: string)
    | SetInstitution(institution: string)
    | SetDegree(degree: string)
    | SetField(field: string)
    | SetStartDate(startDate: string)
    | SetEndDate(endDate: string)
    | SetGpa(gpa: string)
    | SetDescription(description: string)

  /** `{ ...edu, [field]: value }`; writing an optional field makes it present. */
  function ApplyEducationEdit(x: Education, e: EducationEdit): Education {
    match e
    case SetId(v) => x.(id := v)
    case SetInstitution(v) => x.(institution := v)
    case SetDegree(v) => x.(degree := v)
    case SetField(v) => x.(field := v)
    case SetStartDate(v) => x.(startDate := v)
    case SetEndDate(v) => x.(endDate := v)
    case SetGpa(v) => x.(gpa := Some(v))
    case SetDescription(v) => x.(description := Some(v))
  }

  /** The entry `addEducation` creates around a fresh id. */
  function NewEducation(freshId: string): Education {
    Education(freshId, "", "", "", "", "", Some(""), Some(""))
  }

  /** `addEducation`: one entry with every field empty appended, everything before it kept. */
  function AddEducation(entries: seq<Education>, freshId: string): (r: seq<Education>)
    ensures |r| == |entries| + 1
    ensures r[..|entries|] == entries
    ensures var x := r[|entries|];
      && x.id == freshId
      && x.institution == "" && x.degree == "" && x.field == ""
      && x.startDate == "" && x.endDate == ""
      && x.gpa == Some("") && x.description == Some("")
  {
    entries + [NewEducation(freshId)]
  }

  /** `removeEducation`: exactly the entries whose id differs from `id`. */
  function RemoveEducation(entries: seq<Education>, id: string): (r: seq<Education>)
    ensures |r| <= |entries|
    ensures forall x :: x in r <==> x in entries && x.id != id
    ensures forall x: Education :: x.id != id ==> multiset(r)[x] == multiset(entries)[x]
    ensures (forall i :: 0 <= i < |entries| ==> entries[i].id != id) ==> r == entries
  {
    var keep := (x: Education) => x.id != id;
    FilterMembers(entries, keep);
    FilterCounts(entries, keep);
    Filter(entries, keep)
  }

  /** Removing distributes over concatenation: what is kept stays in its original order. */
  lemma RemoveEducationKeepsOrder(a: seq<Education>, b: seq<Education>, id: string)
    ensures RemoveEducation(a + b, id) == RemoveEducation(a, id) + RemoveEducation(b, id)
  {
    FilterAppend(a, b, (x: Education) => x.id != id);
  }

  /** `updateEducation`: the edit applied to the entries whose id is `id`, every position kept. */
  function UpdateEducation(entries: seq<Education>, id: string, e: EducationEdit): (r: seq<Education>)
    ensures |r| == |entries|
    ensures forall i :: 0 <= i < |entries| && entries[i].id != id ==> r[i] == entries[i]
    ensures forall i :: 0 <= i < |entries| && entries[i].id == id ==>
      && r[i].id == (if e.SetId? then e.id else entries[i].id)
      && r[i].institution == (if e.SetInstitution? then e.institution else entries[i].institution)
      && r[i].degree == (if e.SetDegree? then e.degree else entries[i].degree)
      && r[i].field == (if e.SetField? then e.field else entries[i].field)
      && r[i].startDate == (if e.SetStartDate? then e.startDate else entries[i].startDate)
      && r[i].endDate == (if e.SetEndDate? then e.endDate else entries[i].endDate)
      && r[i].gpa == (if e.SetGpa? then Some(e.gpa) else entries[i].gpa)
      && r[i].description == (if e.SetDescription? then Some(e.description) else entries[i].description)
    ensures (forall i :: 0 <= i < |entries| ==> entries[i].id != id) ==> r == entries
  {
    seq(|entries|, i requires 0 <= i < |entries| =>
      if entries[i].id == id then ApplyEducationEdit(entries[i], e) else entries[i])
  }
}
