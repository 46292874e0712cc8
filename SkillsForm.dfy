/**
 * The list editing of the skills form (src/components/forms/SkillsForm.tsx):
 * append a default skill, drop a skill by id, and set one field of the
 * skills with a given id. Each returns the new list handed to `onChange`.
 */
module SkillsForm {
  import opened Types
  import opened Arrays

  /** A field of a skill together with the value written into it. */
  datatype SkillEdit =
    | SetId(id: string)
    | SetName(name: string)
    | SetLevel(level: Level)
    | SetCategory(category: Category)

  /** `{ ...skill, [field]: value }`. */
  function ApplySkillEdit(s: Skill, e: SkillEdit): Skill {
    match e
    case SetId(v) => s.(id := v)
    case SetName(v) => s.(name := v)
    case SetLevel(v) => s.(level := v)
    case SetCategory(v) => s.(category := v)
  }

  /** The skill `addSkill` creates around a fresh id. */
  function NewSkill(freshId: string): Skill {
    Skill(freshId, "", Intermediate, Technical)
  }

  /** `addSkill`: one blank skill appended, everything before it kept. */
  function AddSkill(skills: seq<Skill>, freshId: string): (r: seq<Skill>)
    ensures |r| == |skills| + 1
    ensures r[..|skills|] == skills
    ensures r[|skills|].id == freshId && r[|skills|].name == ""
    ensures r[|skills|].level == Intermediate && r[|skills|].category == Technical
  {
    skills + [NewSkill(freshId)]
  }

  /** `removeSkill`: exactly the skills whose id differs from `id`. */
  function RemoveSkill(skills: seq<Skill>, id: string): (r: seq<Skill>)
    ensures |r| <= |skills|
    ensures forall s :: s in r <==> s in skills && s.id != id
    ensures forall s: Skill :: s.id != id ==> multiset(r)[s] == multiset(skills)[s]
    ensures (forall i :: 0 <= i < |skills| ==> skills[i].id != id) ==> r == skills
  {
    var keep := (s: Skill) => s.id != id;
    FilterMembers(skills, keep);
    FilterCounts(skills, keep);
    Filter(skills, keep)
  }

  /** Removing distributes over concatenation: what is kept stays in its original order. */
  lemma RemoveSkillKeepsOrder(a: seq<Skill>, b: seq<Skill>, id: string)
    ensures RemoveSkill(a + b, id) == RemoveSkill(a, id) + RemoveSkill(b, id)
  {
    FilterAppend(a, b, (s: Skill) => s.id != id);
  }

  /** `updateSkill`: the edit applied to the skills whose id is `id`, every position kept. */
  function UpdateSkill(skills: seq<Skill>, id: string, e: SkillEdit): (r: seq<Skill>)
    ensures |r| == |skills|
    ensures forall i :: 0 <= i < |skills| && skills[i].id != id ==> r[i] == skills[i]
    ensures forall i :: 0 <= i < |skills| && skills[i].id == id ==>
      && r[i].id == (if e.SetId? then e.id else skills[i].id)
      && r[i].name == (if e.SetName? then e.name else skills[i].name)
      && r[i].level == (if e.SetLevel? then e.level else skills[i].level)
      && r[i].category == (if e.SetCategory? then e.category else skills[i].category)
    ensures (forall i :: 0 <= i < |skills| ==> skills[i].id != id) ==> r == skills
  {
    seq(|skills|, i requires 0 <= i < |skills| =>
      if skills[i].id == id then ApplySkillEdit(skills[i], e) else skills[i])
  }
}
