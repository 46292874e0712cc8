/**
 * The resume table of one signed-in user (src/hooks/useResumes.ts).
 *
 * The browser's storage slot `smart-resume-resumes` is a field holding the
 * parsed list of every user's resumes (`None` while the slot was never
 * written); the hook's state is the list the user sees and its loading flag.
 * The uuid generator and the clock are parameters.
 */
module ResumeStore {
  import opened Wrappers
  import opened Types
  import opened Arrays

  /** `resume.userId === userId`: a resume never matches an absent user id. */
  function OwnedBy(userId: Option<string>): Resume -> bool {
    (r: Resume) => Some(r.userId) == userId
  }

  /** `r.id === id`. */
  function HasId(id: string): Resume -> bool {
    (r: Resume) => r.id == id
  }

  /** `r.id !== id`. */
  function OtherId(id: string): Resume -> bool {
    (r: Resume) => r.id != id
  }

  /** The resumes the user sees: those of `userId`, in stored order. */
  function Visible(all: seq<Resume>, userId: Option<string>): (r: seq<Resume>)
    ensures |r| <= |all|
    ensures forall x {:trigger x in r} :: x in r <==> x in all && Some(x.userId) == userId
    ensures userId.None? ==> r == []
  {
    FilterMembers(all, OwnedBy(userId));
    if userId.None? then
      assert forall x :: x in all ==> !OwnedBy(userId)(x);
      Filter(all, OwnedBy(userId))
    else
      Filter(all, OwnedBy(userId))
  }

  /**
   * `saveResume`'s change to the stored list: the first entry with the same
   * id is replaced by the resume stamped `updatedAt = now`; without one the
   * resume is appended as it is.
   */
  function Upsert(all: seq<Resume>, resume: Resume, now: string): (r: seq<Resume>)
    ensures forall i :: 0 <= i < |all| && all[i].id == resume.id && (forall j :: 0 <= j < i ==> all[j].id != resume.id) ==>
      |r| == |all| && r[i] == resume.(updatedAt := now) && forall j :: 0 <= j < |all| && j != i ==> r[j] == all[j]
    ensures (forall i :: 0 <= i < |all| ==> all[i].id != resume.id) ==> r == all + [resume]
  {
    var i := FindIndex(all, HasId(resume.id));
    if 0 <= i then all[i := resume.(updatedAt := now)] else all + [resume]
  }

  /** `deleteResume`'s change to the stored list. */
  function Delete(all: seq<Resume>, id: string): (r: seq<Resume>)
    ensures |r| <= |all|
    ensures forall x {:trigger x in r} :: x in r <==> x in all && x.id != id
    ensures (forall i :: 0 <= i < |all| ==> all[i].id != id) ==> r == all
  {
    FilterMembers(all, OtherId(id));
    Filter(all, OtherId(id))
  }

  /** The user's view keeps the stored order. */
  lemma VisibleKeepsOrder(a: seq<Resume>, b: seq<Resume>, userId: Option<string>)
    ensures Visible(a + b, userId) == Visible(a, userId) + Visible(b, userId)
  {
    FilterAppend(a, b, OwnedBy(userId));
  }

  /** Deleting keeps the surviving entries in their stored order. */
  lemma DeleteKeepsOrder(a: seq<Resume>, b: seq<Resume>, id: string)
    ensures Delete(a + b, id) == Delete(a, id) + Delete(b, id)
  {
    FilterAppend(a, b, OtherId(id));
  }

  /** The resume `createNewResume(title)` builds: an empty resume of `userId` created and updated `now`. */
  function BlankResume(freshId: string, userId: string, title: string, now: string): (r: Resume)
    ensures r.id == freshId && r.userId == userId && r.title == title
    ensures r.personalInfo == PersonalInfo("", "", "", "", Some(""), Some(""), Some(""), "")
    ensures r.education == [] && r.experience == [] && r.skills == []
    ensures r.createdAt == r.updatedAt == now
  {
    Resume(freshId, userId, title, PersonalInfo("", "", "", "", Some(""), Some(""), Some(""), ""), [], [], [], now, now)
  }

  predicate DistinctIds(all: seq<Resume>) {
    forall i, j :: 0 <= i < j < |all| ==> all[i].id != all[j].id
  }

  /** Saving keeps the ids of the stored list distinct, and then the saved id is present exactly once. */
  lemma UpsertKeepsIdsDistinct(all: seq<Resume>, resume: Resume, now: string)
    requires DistinctIds(all)
    ensures DistinctIds(Upsert(all, resume, now))
    ensures exists i :: 0 <= i < |Upsert(all, resume, now)| && Upsert(all, resume, now)[i].id == resume.id
  {
    var i := FindIndex(all, HasId(resume.id));
    var r := Upsert(all, resume, now);
    if 0 <= i {
      assert r[i].id == resume.id;
    } else {
      assert r[|all|].id == resume.id;
    }
  }

  /** Deleting `id` does not see which entry with that id stood at a position. */
  lemma DeleteIgnoresDeleted(a: seq<Resume>, x: Resume, y: Resume, b: seq<Resume>, id: string)
    requires x.id == id && y.id == id
    ensures Delete(a + [x] + b, id) == Delete(a + [y] + b, id)
  {
    FilterAppend(a + [x], b, OtherId(id));
    FilterAppend(a, [x], OtherId(id));
    FilterAppend(a + [y], b, OtherId(id));
    FilterAppend(a, [y], OtherId(id));
  }

  /** Replacing position `i` splits the list around it. */
  lemma ReplaceAt(all: seq<Resume>, i: nat, x: Resume)
    requires i < |all|
    ensures all == all[..i] + [all[i]] + all[i + 1..]
    ensures all[i := x] == all[..i] + [x] + all[i + 1..]
  {
  }

  /** Saving changes no other id's entries: deleting the saved id afterwards gives the same list as before. */
  lemma DeleteAfterUpsert(all: seq<Resume>, resume: Resume, now: string)
    ensures Delete(Upsert(all, resume, now), resume.id) == Delete(all, resume.id)
  {
    var i := FindIndex(all, HasId(resume.id));
    if 0 <= i {
      var x := resume.(updatedAt := now);
      assert Upsert(all, resume, now) == all[i := x];
      ReplaceAt(all, i, x);
      DeleteIgnoresDeleted(all[..i], all[i], x, all[i + 1..], resume.id);
    } else {
      FilterAppend(all, [resume], OtherId(resume.id));
    }
  }

  /** A resume with a new id, once saved, is last in the list its owner sees. */
  lemma VisibleAfterInsert(all: seq<Resume>, resume: Resume, now: string, userId: Option<string>)
    requires forall i :: 0 <= i < |all| ==> all[i].id != resume.id
    ensures Visible(Upsert(all, resume, now), userId) ==
      if Some(resume.userId) == userId then Visible(all, userId) + [resume] else Visible(all, userId)
  {
    FilterAppend(all, [resume], OwnedBy(userId));
  }

  /** The state of `useResumes(userId)`: the storage slot, the visible list and the loading flag. */
  class ResumeHook {
    const userId: Option<string>
    var stored: Option<seq<Resume>>
    var resumes: seq<Resume>
    var loading: bool

    /** The hook's initial state: nothing shown yet, loading. */
    constructor (userId: Option<string>, stored: Option<seq<Resume>>)
      ensures this.userId == userId && this.stored == stored
      ensures resumes == [] && loading
    {
      this.userId := userId;
      this.stored := stored;
      resumes := [];
      loading := true;
    }

    /** The visible list matches the stored list. */
    predicate Synced()
      reads this
    {
      stored.Some? ==> resumes == Visible(stored.value, userId)
    }

    /** `loadResumes`: an unwritten slot leaves the visible list as it was. */
    method LoadResumes()
      modifies this
      ensures stored == old(stored)
      ensures resumes == if stored.Some? then Visible(stored.value, userId) else old(resumes)
      ensures !loading
      ensures Synced()
    {
      if stored.Some? {
        resumes := Filter(stored.value, OwnedBy(userId));
      }
      loading := false;
    }

    /** The effect run when `userId` is set: load for a non-empty id, show nothing otherwise. */
    method Mount()
      modifies this
      ensures stored == old(stored)
      ensures userId.Some? && userId.value != "" ==>
        resumes == if stored.Some? then Visible(stored.value, userId) else old(resumes)
      ensures !(userId.Some? && userId.value != "") ==> resumes == []
      ensures !loading
    {
      if userId.Some? && userId.value != "" {
        LoadResumes();
      } else {
        resumes := [];
        loading := false;
      }
    }

    /** `saveResume`: upsert into the stored list, then reload. */
    method SaveResume(resume: Resume, now: string)
      modifies this
      ensures stored == Some(Upsert(old(stored).GetOr([]), resume, now))
      ensures resumes == Visible(stored.value, userId)
      ensures !loading
    {
      var all := if stored.Some? then stored.value else [];
      var existingIndex := FindIndex(all, HasId(resume.id));
      if existingIndex >= 0 {
        all := all[existingIndex := resume.(updatedAt := now)];
      } else {
        all := all + [resume];
      }
      stored := Some(all);
      LoadResumes();
    }

    /** `deleteResume`: an unwritten slot is left alone; otherwise filter out the id and reload. */
    method DeleteResume(resumeId: string)
      modifies this
      ensures old(stored).None? ==> stored == None && resumes == old(resumes) && loading == old(loading)
      ensures old(stored).Some? ==> stored == Some(Delete(old(stored).value, resumeId))
      ensures old(stored).Some? ==> resumes == Visible(stored.value, userId) && !loading
    {
      if stored.Some? {
        var filtered := Filter(stored.value, OtherId(resumeId));
        stored := Some(filtered);
        LoadResumes();
      }
    }

    /** `createNewResume`: build an empty resume for the hook's user and save it. */
    method CreateNewResume(title: string, freshId: string, now: string) returns (r: Resume)
      requires userId.Some?
      modifies this
      ensures r == BlankResume(freshId, userId.value, title, now)
      ensures stored == Some(Upsert(old(stored).GetOr([]), r, now))
      ensures resumes == Visible(stored.value, userId)
      ensures !loading
    {
      r := BlankResume(freshId, userId.value, title, now);
      SaveResume(r, now);
    }
  }
}
