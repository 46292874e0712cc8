/**
 * The list editing of the work-experience form
 * (src/components/forms/ExperienceForm.tsx).
 */
module ExperienceForm {
  import opened Types
  import opened Arrays

  /** A field of an experience entry together with the value written into it. */
  datatype ExperienceEdit =
    | SetId(id: string)
    | SetCompany(company: string)
    | SetPosition(position: string)
    | SetStartDate(startDate: string)
    | SetEndDate(endDate: string)
    | SetCurrent(current: bool)
    | SetDescription(description: string)
    | SetLocation(location: string)

  /** `{ ...exp, [field]: value }`. */
  function ApplyExperienceEdit(x: Experience, e: ExperienceEdit): Experience {
    match e
    case SetId(v) => x.(id := v)
    case SetCompany(v) => x.(company := v)
    case SetPosition(v) => x.(position := v)
    case SetStartDate(v) => x.(startDate := v)
    case SetEndDate(v) => x.(endDate := v)
    case SetCurrent(v) => x.(current := v)
    case SetDescription(v) => x.(description := v)
    case SetLocation(v) => x.(location := v)
  }

  /** The entry `addExperience` creates around a fresh id. */
  function NewExperience(freshId: string): Experience {
    Experience(freshId, "", "", "", "", false, "", "")
  }

  /** `addExperience`: one blank, not-current entry appended, everything before it kept. */
  function AddExperience(entries: seq<Experience>, freshId: string): (r: seq<Experience>)
    ensures |r| == |entries| + 1
    ensures r[..|entries|] == entries
    ensures var x := r[|entries|];
      && x.id == freshId && !x.current
      && x.company == "" && x.position == "" && x.startDate == ""
      && x.endDate == "" && x.description == "" && x.location == ""
  {
    entries + [NewExperience(freshId)]
  }

  /** `removeExperience`: exactly the entries whose id differs from `id`. */
  function RemoveExperience(entries: seq<Experience>, id: string): (r: seq<Experience>)
    ensures |r| <= |entries|
    ensures forall x :: x in r <==> x in entries && x.id != id
    ensures forall x: Experience :: x.id != id ==> multiset(r)[x] == multiset(entries)[x]
    ensures (forall i :: 0 <= i < |entries| ==> entries[i].id != id) ==> r == entries
  {
    var keep := (x: Experience) => x.id != id;
    FilterMembers(entries, keep);
    FilterCounts(entries, keep);
    Filter(entries, keep)
  }

  /** Removing distributes over concatenation: what is kept stays in its original order. */
  lemma RemoveExperienceKeepsOrder(a: seq<Experience>, b: seq<Experience>, id: string)
    ensures RemoveExperience(a + b, id) == RemoveExperience(a, id) + RemoveExperience(b, id)
  {
    FilterAppend(a, b, (x: Experience) => x.id != id);
  }

  /** `updateExperience`: the edit applied to the entries whose id is `id`, every position kept. */
  function UpdateExperience(entries: seq<Experience>, id: string, e: ExperienceEdit): (r: seq<Experience>)
    ensures |r| == |entries|
    ensures forall i :: 0 <= i < |entries| && entries[i].id != id ==> r[i] == entries[i]
    ensures forall i :: 0 <= i < |entries| && entries[i].id == id ==>
      && r[i].id == (if e.SetId? then e.id else entries[i].id)
      && r[i].company == (if e.SetCompany? then e.company else entries[i].company)
      && r[i].position == (if e.SetPosition? then e.position else entries[i].position)
      && r[i].startDate == (if e.SetStartDate? then e.startDate else entries[i].startDate)
      && r[i].endDate == (if e.SetEndDate? then e.endDate else entries[i].endDate)
      && r[i].current == (if e.SetCurrent? then e.current else entries[i].current)
      && r[i].description == (if e.SetDescription? then e.description else entries[i].description)
      && r[i].location == (if e.SetLocation? then e.location else entries[i].location)
    ensures (forall i :: 0 <= i < |entries| ==> entries[i].id != id) ==> r == entries
  {
    seq(|entries|, i requires 0 <= i < |entries| =>
      if entries[i].id == id then ApplyExperienceEdit(entries[i], e) else entries[i])
  }

  /** The ids, in list order. */
  function Ids(entries: seq<Experience>): seq<string> {
    seq(|entries|, i requires 0 <= i < |entries| => entries[i].id)
  }

  /** An edit of any field but `id` keeps the ids and their order. */
  lemma UpdateKeepsIds(entries: seq<Experience>, id: string, e: ExperienceEdit)
    requires !e.SetId?
    ensures Ids(UpdateExperience(entries, id, e)) == Ids(entries)
  {
  }

  /** Ticking "currently working here" leaves the stored end date as it was; the form only disables the input. */
  lemma SetCurrentKeepsEndDate(entries: seq<Experience>, id: string, i: nat)
    requires i < |entries|
    ensures UpdateExperience(entries, id, SetCurrent(true))[i].endDate == entries[i].endDate
    ensures entries[i].id == id ==> UpdateExperience(entries, id, SetCurrent(true))[i].current
  {
  }
}
