# Smart Resume Builder — a verified model of its logic

Smart Resume Builder is a browser application: a user registers or signs in,
edits resumes (personal details, education, work experience, skills), sees
a live preview, and exports the preview as a PDF. Everything is kept in the
browser's local storage. This project models, in Dafny, the parts of the
application that compute something, and proves what they guarantee:

- **PDF export** (`PdfGenerator`). The captured preview is scaled to the 210 mm
  width of an A4 page. It is drawn once when it fits on one page, and otherwise
  by a loop: the loop redraws the whole image 297 mm higher each pass and adds a
  page while height remains. The document is saved under a name derived from the
  resume; any failure is reported as `Failed to generate PDF`. The PDF library is
  a class that records the calls it receives (`PdfWriter`).
  - `DrawPages` is the loop, written as a loop. It is proved equal to the
    closed-form plan `PagePlan`.
  - The plan's lemmas: where each draw lands, how many draws there are, and how
    many pages result. The page count is `ceil(h / 297)`, with no blank page.
  - The filename's lemmas: it holds only `[a-z0-9_]`, never `__`, and ends in
    `_pdf`; apart from its underscores it is exactly the lower-cased letters and
    digits of the name (or `Resume`), of the title, and `pdf`.
- **Resume preview** (`ResumePreview`). It shows date ranges, and groups skills by
  category in the order the categories first appear.
  - `GroupByCategory` keeps the source's accumulator (a key list and a map that
    the loop updates). It is proved equal to `Groups`.
  - `Groups` is proved to be a partition of the skills that keeps their order.
    Its keys are distinct and come in first-seen order, and its sizes add up.
- **Entry forms** (`SkillsForm`, `ExperienceForm`, `EducationForm`). Each one
  appends a blank entry, removes entries by id, and sets one field of the entries
  with an id.
- **Resume store** (`ResumeStore`). The `useResumes` hook is a class over the
  stored list of all resumes and the list shown to the signed-in user. Saving
  upserts through the first entry with the same id; deleting filters. Both then
  reload the visible list.
- **Sign-in** (`Auth`). The `useAuth` hook is a class over the user table, the
  stored sign-in slot and the `AuthState`. It covers registration, login, logout
  and restore on load. The registration duplicate check compares the address as
  typed, and its consequences are proved (see below).

`Wrappers` (Option, Result), `Types` (the record types of `src/types/index.ts`),
`Arrays` (`filter`, `findIndex`, `find`) and `Text` (`toLowerCase`, `trim`,
the filename's character class) are shared by these modules.

Two behaviours of the code are easy to misread:
- jsPDF's `addPage` is guarded by `heightLeft > 0`. So an image of exactly a
  multiple of 297 mm gets no blank trailing page: the last of its draws lands,
  off-page, on the last page.
- The `.` of `.pdf` is replaced like every other non-alphanumeric character. So
  every filename ends in `_pdf`, not `.pdf`. An example is
  `jo_doe_dev_cv_pdf` for the name `Jo Doe` and the title `Dev CV`.

The registration duplicate check compares the e-mail as typed with the stored
addresses, which were lower-cased and trimmed when they were stored. So stored
addresses are guaranteed distinct only when new ones arrive already normalised:
- `RegisterKeepsEmailsDistinct` proves the guarantee for normalised input.
- `RawEmailAdmitsDuplicate` exhibits a duplicate.
- `RawEmailLoginFails` shows that signing in with the mixed-case address as
  typed at registration does not find the account. The login form
  (src/components/auth/LoginForm.tsx, line 26) trims the address before it calls
  `login`, but does not lower-case it, so this is what happens from the sign-in
  form too.

## Model

| member | source | states |
|---|---|---|
| Arrays.Filter | src/components/forms/SkillsForm.tsx:24-26 | `Array.prototype.filter`: never longer than its input; keeps everything when all elements pass and nothing when none does |
| Arrays.FilterMembers | src/components/forms/SkillsForm.tsx:24-26 | an element is in the result exactly when it occurs in the input and passes |
| Arrays.FilterCounts | src/components/forms/SkillsForm.tsx:24-26 | every passing value occurs as often as in the input, every other value not at all |
| Arrays.FilterAppend | src/components/forms/SkillsForm.tsx:24-26 | filtering distributes over concatenation, so the kept elements stay in their order |
| Arrays.FindIndex | src/hooks/useResumes.ts:40 | `findIndex`: -1 exactly when nothing matches; otherwise the index of a match with no match before it |
| Arrays.Find | src/hooks/useAuth.ts:45 | `find`: none exactly when nothing matches; otherwise the first matching element |
| Text.LowerChar | src/utils/pdfGenerator.ts:63 | lower-casing a character yields no capital letter; maps A-Z to a-z (code point + 32) and leaves every other character alone |
| Text.ToLower | src/utils/pdfGenerator.ts:63 | `toLowerCase`: same length, lower-cased character by character, no capitals left, and the identity on a string with no capitals |
| Text.LowerAppend | src/utils/pdfGenerator.ts:63 | `toLowerCase` works character by character: it distributes over concatenation |
| Text.LeadingTrimmable | src/hooks/useAuth.ts:96 | the length of the run of whitespace/line terminators at the front of a string, and the next character is not one |
| Text.TrailingStart | src/hooks/useAuth.ts:96 | where the run of whitespace/line terminators at the end of a string begins, and the character before it is not one |
| Text.Trim | src/hooks/useAuth.ts:96-97 | `trim`: a contiguous slice of the input with only trimmable characters cut off either side, and whose own ends are not trimmable |
| Text.TrimOfTrimmed | src/hooks/useAuth.ts:96-97 | a string whose ends are not whitespace is its own trim |
| Text.NormalizeEmail | src/hooks/useAuth.ts:97 | definition: the e-mail as stored at registration, `toLowerCase().trim()`; its properties are `NormalizeEmailIdempotent` and `Auth.NormalizeMixedCase` |
| Text.NormalizeEmailIdempotent | src/hooks/useAuth.ts:97 | lower-casing and trimming an address a second time changes nothing |
| PdfGenerator.PdfWriter.constructor | src/utils/pdfGenerator.ts:30-34 | a new document has received no calls and is not saved |
| PdfGenerator.PdfWriter.AddImage | src/utils/pdfGenerator.ts:41 | `addImage` appends exactly that draw to the document's calls |
| PdfGenerator.PdfWriter.AddPage | src/utils/pdfGenerator.ts:54 | `addPage` appends exactly a page break |
| PdfGenerator.PdfWriter.Save | src/utils/pdfGenerator.ts:66 | `save` records the filename and adds no call |
| PdfGenerator.ImageHeight | src/utils/pdfGenerator.ts:26-27 | for a canvas of non-zero width, `imgHeight * width == height * 210`: scaling keeps the aspect ratio |
| PdfGenerator.DrawCount | src/utils/pdfGenerator.ts:44-51 | the number of passes of the loop, the `n >= 1` with `297 (n-1) <= h < 297 n`, i.e. `floor(h/297) + 1` |
| PdfGenerator.DrawCountUnique | src/utils/pdfGenerator.ts:48-51 | that number is the only one with that property |
| PdfGenerator.Pass | src/utils/pdfGenerator.ts:48-55 | definition: one pass of the loop, the draw at `-297 k` and a page break exactly when `h - 297 (k+1) > 0` |
| PdfGenerator.Passes | src/utils/pdfGenerator.ts:48-55 | definition: the first `n` passes in order; described by `PassesImages` and `PassesPageBreaks` |
| PdfGenerator.PagePlan | src/utils/pdfGenerator.ts:39-56 | definition: the single draw up to 297 mm, otherwise `DrawCount(h)` passes; `DrawPages` is proved equal to it and `PlanImages`, `PlanPageCount`, `PlanEndsWithDraw` describe it |
| PdfGenerator.DrawPages | src/utils/pdfGenerator.ts:39-56 | the single draw or the loop appends exactly `PagePlan(imgHeight)` to the document's calls and does not save |
| PdfGenerator.PassesImages | src/utils/pdfGenerator.ts:48-51 | after `n` passes the draws are exactly `n` copies of the 210 x h image at y = 0, -297, ..., -297 (n-1) |
| PdfGenerator.PagesNeeded | src/utils/pdfGenerator.ts:53-55 | the least `m` with `h <= 297 m`: `(m-1) 297 < h <= 297 m`, i.e. `ceil(h/297)` |
| PdfGenerator.PassesPageBreaks | src/utils/pdfGenerator.ts:53-55 | after `n` passes one page was added for each `j <= n` with `297 j < h` |
| PdfGenerator.PlanImages | src/utils/pdfGenerator.ts:39-51 | at most 297 mm: one draw, at y = 0; taller: `floor(h/297) + 1` draws, draw `k` at y = -297 k, all of size 210 x h |
| PdfGenerator.PlanPageCount | src/utils/pdfGenerator.ts:39-56 | one plus the number of `addPage` calls is `ceil(h/297)`: no blank page, also on exact multiples of 297 |
| PdfGenerator.PlanEndsWithDraw | src/utils/pdfGenerator.ts:48-56 | the last call is always a draw, never a page break |
| PdfGenerator.SinglePageBoundary | src/utils/pdfGenerator.ts:39-48 | below 297 mm the loop alone would give the same single draw; at exactly 297 mm the single-page branch draws once where the loop would draw twice |
| PdfGenerator.ExactTwoPages | src/utils/pdfGenerator.ts:44-56 | a 594 mm image is drawn three times at 0, -297, -594 with one page break between the first two draws |
| PdfGenerator.BaseName | src/utils/pdfGenerator.ts:60 | definition: the template string, with `Resume` only for the empty name |
| PdfGenerator.ReplaceNonAlphanumeric | src/utils/pdfGenerator.ts:61 | same length; every character outside `[A-Za-z0-9]` becomes `_`, the rest stay |
| PdfGenerator.CollapseUnderscores | src/utils/pdfGenerator.ts:62 | definition: each run keeps its last underscore; `CollapseNoDoubles` and `CollapseDropsDouble` pin it down on every string |
| PdfGenerator.CollapseFacts | src/utils/pdfGenerator.ts:62 | collapsing underscores never lengthens, keeps the first character, introduces no character, and leaves no two underscores in a row |
| PdfGenerator.CollapseKeepsOthers | src/utils/pdfGenerator.ts:62 | collapsing drops only underscores: the other characters are exactly those of the input, in order |
| PdfGenerator.CollapseNoDoubles | src/utils/pdfGenerator.ts:62 | a string without two underscores in a row is left unchanged |
| PdfGenerator.CollapseDropsDouble | src/utils/pdfGenerator.ts:62 | dropping one underscore of a pair anywhere does not change the result; with `CollapseNoDoubles` this determines the result on every string, one `_` per run |
| PdfGenerator.CollapsePrefix | src/utils/pdfGenerator.ts:62 | a prefix without a double underscore that does not end in one passes through unchanged |
| PdfGenerator.CollapseKeepsPdfSuffix | src/utils/pdfGenerator.ts:62 | collapsing text followed by `_pdf` still ends in `_pdf` |
| PdfGenerator.Sanitize | src/utils/pdfGenerator.ts:61-63 | definition: the three chained calls, in the source's order |
| PdfGenerator.Filename | src/utils/pdfGenerator.ts:60-63 | definition: the pipeline applied to the template string; described by the lemmas below |
| PdfGenerator.ReplaceAppend | src/utils/pdfGenerator.ts:61 | replacing works character by character: it distributes over concatenation |
| PdfGenerator.ReplaceKeepsAlphanumerics | src/utils/pdfGenerator.ts:61 | the characters that come through replacing as something other than `_` are exactly the input's `[A-Za-z0-9]`, in order |
| PdfGenerator.LowerKeepsOthers | src/utils/pdfGenerator.ts:63 | lower-casing commutes with dropping underscores |
| PdfGenerator.SanitizedShape | src/utils/pdfGenerator.ts:60-63 | the filename consists of `[a-z0-9_]` only and never contains two consecutive underscores |
| PdfGenerator.SanitizeIdempotent | src/utils/pdfGenerator.ts:61-63 | sanitising a sanitised name changes nothing |
| PdfGenerator.FilenameEndsInPdf | src/utils/pdfGenerator.ts:60-63 | the `.` of `.pdf` is replaced too, so every filename ends in `_pdf` |
| PdfGenerator.EmptyNameFallsBack | src/utils/pdfGenerator.ts:60-63 | an empty full name gives exactly `resume` followed by the sanitised `_<title>.pdf`, so the name starts with `resume_` |
| PdfGenerator.TemplateLetters | src/utils/pdfGenerator.ts:60 | the template's letters and digits are those of the shown name, then of the title, then `pdf` |
| PdfGenerator.FilenameLetters | src/utils/pdfGenerator.ts:60-63 | apart from its underscores, every filename is the lower-cased letters and digits of the shown name, of the title and `pdf`, in that order: nothing else of the name or title is lost |
| PdfGenerator.NonEmptyNameKept | src/utils/pdfGenerator.ts:60-63 | only the empty name falls back: a non-empty name starting with a non-alphanumeric character, such as a blank, gives a name starting with `_` |
| PdfGenerator.FilenameExampleSpaces | src/utils/pdfGenerator.ts:60-63 | `Jo Doe` / `Dev CV` gives `jo_doe_dev_cv_pdf` |
| PdfGenerator.FilenameExampleFallback | src/utils/pdfGenerator.ts:60-63 | an empty name and the title `CV!!` give `resume_cv_pdf`: the fallback applies and `!!.` collapses to one `_` |
| PdfGenerator.GeneratePdf | src/utils/pdfGenerator.ts:5-70 | a missing preview or a failed capture gives `Failed to generate PDF` and nothing is saved; otherwise the plan for the scaled height is drawn and the document saved under the resume's filename; a 0 x 0 canvas (NaN height) draws nothing and still saves |
| ResumePreview.FormatDate | src/components/preview/ResumePreview.tsx:12-19 | `formatDate("")` is `""` |
| ResumePreview.FormatDateRange | src/components/preview/ResumePreview.tsx:21-25 | definition: `<start> - <end>`, with `Present` for the end of a current entry and `current` false by default |
| ResumePreview.ExperienceDates | src/components/preview/ResumePreview.tsx:129 | definition: the range of a work entry, passing its `current` flag |
| ResumePreview.EducationDates | src/components/preview/ResumePreview.tsx:174 | definition: the range of an education entry, leaving `current` at its default |
| ResumePreview.CurrentExperienceShowsPresent | src/components/preview/ResumePreview.tsx:21-25 | a current position reads `<start> - Present`, whatever end date is stored |
| ResumePreview.EndDateShownUnlessCurrent | src/components/preview/ResumePreview.tsx:21-25 | a past position and every education entry read `<start> - <end>`; two empty education dates read ` - ` |
| ResumePreview.InCategoryMembers | src/components/preview/ResumePreview.tsx:27-33 | a category's group holds exactly the skills of that category |
| ResumePreview.Categories | src/components/preview/ResumePreview.tsx:28-30 | definition: the accumulator's keys, a category added when first met; described by `CategoriesMembers`, `CategoriesDistinct` and `CategoriesInFirstSeenOrder` |
| ResumePreview.CategoriesMembers | src/components/preview/ResumePreview.tsx:28-30 | a category is a key exactly when some skill has it |
| ResumePreview.CategoriesDistinct | src/components/preview/ResumePreview.tsx:28-30 | no key occurs twice |
| ResumePreview.Groups | src/components/preview/ResumePreview.tsx:27-33 | definition: one group per listed category holding its skills in order; `GroupByCategory` is proved equal to it and `GroupsPartition`, `GroupSizesSum`, `GroupsInFirstSeenOrder` describe it |
| ResumePreview.GroupByCategory | src/components/preview/ResumePreview.tsx:27-33 | the `reduce` with its mutable accumulator yields exactly `Groups(skills)`, in `Object.entries` order; the skills form runs the identical `reduce` (src/components/forms/SkillsForm.tsx lines 34-40), so the same result and lemmas hold for it |
| ResumePreview.GroupsSnoc | src/components/preview/ResumePreview.tsx:29-32 | one more skill is pushed onto its category's group, or opens a new last group |
| ResumePreview.GroupsPartition | src/components/preview/ResumePreview.tsx:27-33 | keys are distinct, every skill is in the group of its own category and only there, groups are non-empty, and each group is the skills of its key in their original order |
| ResumePreview.GroupSizesSum | src/components/preview/ResumePreview.tsx:27-33 | the group sizes add up to the number of skills |
| ResumePreview.FirstOccurrenceListed | src/components/preview/ResumePreview.tsx:28-30 | a category occurs among the skills exactly when it is a key |
| ResumePreview.CategoriesInFirstSeenOrder | src/components/preview/ResumePreview.tsx:28-30 | keys come in order of the first skill of each category |
| ResumePreview.GroupsInFirstSeenOrder | src/components/preview/ResumePreview.tsx:196 | `Object.entries` lists the groups in order of first occurrence |
| SkillsForm.AddSkill | src/components/forms/SkillsForm.tsx:14-21 | one skill appended with the fresh id, empty name, level Intermediate, category Technical; the prefix is unchanged |
| SkillsForm.RemoveSkill | src/components/forms/SkillsForm.tsx:24-26 | exactly the skills whose id differs, each as often as before; an absent id changes nothing |
| SkillsForm.RemoveSkillKeepsOrder | src/components/forms/SkillsForm.tsx:25 | removal keeps the remaining skills in their order |
| SkillsForm.UpdateSkill | src/components/forms/SkillsForm.tsx:28-32 | same length; other ids untouched; only the edited field of matching skills takes the value; an absent id changes nothing |
| ExperienceForm.AddExperience | src/components/forms/ExperienceForm.tsx:15-27 | one entry appended with the fresh id, every text field empty and `current` false; the prefix is unchanged |
| ExperienceForm.RemoveExperience | src/components/forms/ExperienceForm.tsx:29-31 | exactly the entries whose id differs, each as often as before; an absent id changes nothing |
| ExperienceForm.RemoveExperienceKeepsOrder | src/components/forms/ExperienceForm.tsx:30 | removal keeps the remaining entries in their order |
| ExperienceForm.UpdateExperience | src/components/forms/ExperienceForm.tsx:33-37 | same length; other ids untouched; only the edited field of matching entries takes the value; an absent id changes nothing |
| ExperienceForm.UpdateKeepsIds | src/components/forms/ExperienceForm.tsx:33-37 | an edit of any field but `id` keeps the ids in their order |
| ExperienceForm.SetCurrentKeepsEndDate | src/components/forms/ExperienceForm.tsx:33-37 | ticking `current` sets it on the matching entries and leaves every end date as stored |
| EducationForm.AddEducation | src/components/forms/EducationForm.tsx:15-27 | one entry appended with the fresh id and every field empty, `gpa` and `description` included; the prefix is unchanged |
| EducationForm.RemoveEducation | src/components/forms/EducationForm.tsx:29-31 | exactly the entries whose id differs, each as often as before; an absent id changes nothing |
| EducationForm.RemoveEducationKeepsOrder | src/components/forms/EducationForm.tsx:30 | removal keeps the remaining entries in their order |
| EducationForm.UpdateEducation | src/components/forms/EducationForm.tsx:33-37 | same length; other ids untouched; only the edited field of matching entries takes the value; an absent id changes nothing |
| ResumeStore.Visible | src/hooks/useResumes.ts:24-26 | the visible list holds exactly the stored resumes of the hook's user; with no user id, none |
| ResumeStore.VisibleKeepsOrder | src/hooks/useResumes.ts:25 | the user's view keeps the stored order: it distributes over concatenation |
| ResumeStore.Upsert | src/hooks/useResumes.ts:37-46 | an existing id: the first entry with it is replaced by the resume stamped `updatedAt = now`, the length and all other entries kept; a new id: the resume is appended unchanged |
| ResumeStore.Delete | src/hooks/useResumes.ts:59-60 | exactly the stored resumes with another id; an absent id changes nothing |
| ResumeStore.DeleteKeepsOrder | src/hooks/useResumes.ts:60 | deletion keeps the remaining resumes in their stored order |
| ResumeStore.BlankResume | src/hooks/useResumes.ts:69-89 | the new resume has the title and user id given, empty personal details, no entries, and `createdAt == updatedAt` |
| ResumeStore.UpsertKeepsIdsDistinct | src/hooks/useResumes.ts:40-46 | saving keeps stored ids distinct and the saved id is then present |
| ResumeStore.DeleteIgnoresDeleted | src/hooks/useResumes.ts:60 | deletion does not depend on which resume with the deleted id stood at a position |
| ResumeStore.DeleteAfterUpsert | src/hooks/useResumes.ts:40-46 | saving touches no other id: deleting the saved id afterwards gives what deleting it before did |
| ResumeStore.VisibleAfterInsert | src/hooks/useResumes.ts:44-49 | a resume with a new id, once saved, is last in its owner's list and absent from everyone else's |
| ResumeStore.ResumeHook.constructor | src/hooks/useResumes.ts:7-9 | the hook starts with no visible resumes, loading |
| ResumeStore.ResumeHook.LoadResumes | src/hooks/useResumes.ts:20-33 | the visible list becomes the user's stored resumes, or stays as it was when nothing is stored; loading ends; storage is untouched |
| ResumeStore.ResumeHook.Mount | src/hooks/useResumes.ts:11-18 | a non-empty user id loads; otherwise the visible list is emptied; loading ends either way |
| ResumeStore.ResumeHook.SaveResume | src/hooks/useResumes.ts:35-53 | storage becomes the upsert of the stored list (empty when unwritten) and the visible list its user filter |
| ResumeStore.ResumeHook.DeleteResume | src/hooks/useResumes.ts:55-67 | unwritten storage: nothing changes; otherwise storage loses the id and the visible list is its user filter |
| ResumeStore.ResumeHook.CreateNewResume | src/hooks/useResumes.ts:69-93 | the blank resume for the hook's user is returned and saved |
| Auth.PublicUser | src/hooks/useAuth.ts:48-55 | the signed-in user is the table row's id, e-mail, name and creation time, without the password |
| Auth.LoginUser | src/hooks/useAuth.ts:44-47 | none exactly when no row has that e-mail and password; otherwise the first such row without its password |
| Auth.NewUser | src/hooks/useAuth.ts:94-100 | the new row has the fresh id, trimmed name, lower-cased and trimmed e-mail, the password and the creation time |
| Auth.Registered | src/hooks/useAuth.ts:85-104 | refused exactly when a row has the e-mail as typed; otherwise the table with the new row appended |
| Auth.Restored | src/hooks/useAuth.ts:17-28 | a stored sign-in restores its user exactly when it parsed, has a user, and the user's id is non-empty |
| Auth.RegisterKeepsEmailsDistinct | src/hooks/useAuth.ts:88-104 | for an already normalised address, registering keeps the stored e-mails distinct |
| Auth.NormalizeMixedCase | src/hooks/useAuth.ts:97 | `A@x` is stored as `a@x` |
| Auth.RawEmailAdmitsDuplicate | src/hooks/useAuth.ts:88-104 | with `a@x` already registered, registering `A@x` is accepted and leaves two rows with `a@x` |
| Auth.LoginAfterRegister | src/hooks/useAuth.ts:44-45 | after registering a normalised address, signing in with it and the password finds exactly the new user |
| Auth.RawEmailLoginFails | src/hooks/useAuth.ts:45 | after registering `A@x`, signing in with `A@x` finds nobody |
| Auth.AuthHook.constructor | src/hooks/useAuth.ts:9-13 | nobody signed in, loading |
| Auth.AuthHook.Restore | src/hooks/useAuth.ts:15-36 | a valid stored sign-in makes the state signed in as its user; otherwise only loading ends; an unreadable slot is cleared; the user table is untouched |
| Auth.AuthHook.Login | src/hooks/useAuth.ts:38-77 | succeeds exactly when a row has that e-mail and password, and then stores and signs in the first such user; a failure changes nothing |
| Auth.AuthHook.Register | src/hooks/useAuth.ts:79-132 | succeeds exactly when no row has the e-mail as typed; then exactly the new row is appended and stored as signed in, without password; a failure changes nothing |
| Auth.AuthHook.Logout | src/hooks/useAuth.ts:134-142 | clears the stored sign-in; nobody signed in, not loading |

The operations of the two classes also keep their state consistent.
- `AuthHook`'s operations keep `isAuthenticated` equal to "a user is present".
- Every operation of `ResumeHook` except an unwritten-storage delete ends not
  loading. `LoadResumes` leaves the visible list in step with storage.

## Left out

- The screenshot library and the PDF library are not modelled. The capture is
  a parameter (its canvas size, or failure), and jsPDF is the call log of
  `PdfWriter`.
- Image data and `toDataURL` are not modelled, and neither is the
  always-portrait orientation. A draw records only its position and size.
- Floating point: `imgHeight` is an exact real number, so IEEE rounding of the
  division and of the repeated subtraction is not modelled.
- ImageHeight: requires a canvas of non-zero width, since the height is an exact
  real number. `GeneratePdf` handles the 0 x 0 canvas itself: the source's `0 / 0`
  is NaN, neither comparison holds, so nothing is drawn and the empty document
  is saved.
- GeneratePdf: requires that a canvas of width 0 also has height 0. A width of 0
  with some height gives the source an infinite image height, and its loop
  never ends; that run is not modelled.
- Local storage and JSON are not modelled. Each storage slot is a field holding
  its parsed contents.
  - The users slot, when unset, reads as the empty table, as `|| '[]'` gives.
  - A sign-in slot whose restore throws is the value `Unparsable`: text that is
    not JSON, or the JSON `null`, which parses but throws at `parsedAuth.user`.
  - Parse failures of the resumes and users slots are not modelled. Their catch
    blocks log; those of `login` and `register` also return false with the state
    unchanged, and the `finally` of `loadResumes` still ends loading.
- `uuidv4`, the clock and `toLocaleDateString` are parameters (`freshId`, `now`,
  `locale`).
- CreateNewResume: the two clock reads for `createdAt` and `updatedAt`, and the
  one made when saving, are taken as the same instant `now`.
- CreateNewResume: requires a user id. This is the source's non-null assertion
  `userId!`; with no user id the source would store a resume without an owner.
- The artificial 800 ms delays, `async`/`await`, and React's state and effect
  scheduling are not modelled. Each operation takes effect at once and in
  sequence.
- Console logging is not modelled, including the inner message "Resume preview
  element not found", which generatePDF replaces by its own error.
- Text.ToLower: models `toLowerCase` for A-Z only. That is exact for filenames,
  which hold only ASCII letters by then. For the e-mail normalised at
  registration, other scripts' case mappings are not modelled.
- Strings are sequences of code points, so UTF-16 surrogate pairs are not
  modelled: the filename regular expression would replace each half of a pair
  separately.
- SkillsForm.UpdateSkill, ExperienceForm.UpdateExperience and
  EducationForm.UpdateEducation: a field edit carries a value of the field's own
  type. The source's `[field]: value` would also write a string into `level`,
  `category` or `current`.
- ResumeBuilder, Dashboard, Header, App routing, the login form, the personal
  details form and all rendering are not modelled. Three behaviours of theirs
  bear on the model:
  - The login form trims the e-mail but does not lower-case it before calling
    `login`; `RawEmailLoginFails` shows the consequence.
  - ResumeBuilder creates an "Untitled Resume" through `createNewResume` when a
    signed-in user has no resume open. It is the only caller of
    `CreateNewResume`, and the reason that member may require a user.
  - Dashboard asks the user to `confirm` before it calls `deleteResume`; the
    question and its answer are not modelled.
