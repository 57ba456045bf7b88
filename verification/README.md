# Departmental publication store, modelled in Dafny

This project models the core of a departmental publication management
system: an in-memory record store for a university department. The store
holds research groups, academic staff, research students, staff
publications and group seminars. An XML codec saves the store and loads it
back. Three controllers act on the store for the system administrator, a
logged-in staff member and a group's seminar coordinator. A fourth
controller runs publication searches for any user.

## How the model is organised

- **Objects and identity.** Java object identity matters here. The same
  staff object sits on a group's member list, on the store's staff list and
  in a group's coordinator field. The same publication object sits on the
  store's list and on its author's personal list. Edits made through one
  reference show through the others. So publications, members and groups
  live in a `Heap` of maps keyed by handles (`heap.dfy`), and every list
  holds handles. Seminars are plain values, because only their group's list
  holds them.
- **Entities** (`entities.dfy`) hold the records: publications with three
  variants, members with two variants, seminars, groups and the
  administrator. Each record's `equals` key is a predicate: `SamePublication`
  (title and ID), `SameMember` (email and password for staff, email and
  student ID for students, never across variants), `SameSeminar` (date-time
  and topic) and `SameGroup` (group ID only). Java's `contains` and
  `remove(Object)` call the argument's `equals`. The model therefore always
  compares a listed element against the argument through these keys.
- **Store operations** (`data_storage.dfy`, `research_group.dfy`,
  `academic_staff.dfy`) return `Result`. An `Err` carries the condition
  under which the source throws `DPMSystemException`.
- **Controller actions** return an `Outcome`: the store they leave behind,
  and the exception they threw, if any. Effects made before an exception are
  kept, as in the source.
- **The codec** (`codec.dfy`) models the XML document as typed records
  whose leaves are the text the elements hold. `SaveData` writes a document.
  `LoadData` empties the four lists, reads the administrator, then reads
  each group. `saved_form.dfy` says when a document is "in saved form".
  `built.dfy` describes the store a successful load builds from such a
  document. `load_path.dfy` proves that loading builds that store, and
  `round_trip.dfy` proves that saving it gives the document back. The load
  also rebuilds the global lists in the order it traverses the document:
  groups, then members, then publications. `LoadKeys.StoreKeys` captures
  this order through the publication titles and IDs, the staff and student
  keys, and the group IDs.
  `save_laws.dfy` states conditions on the store itself under which its save
  is in saved form. For such a store, saving, loading and saving again
  writes the same document.
- **Clock values are parameters.** "Now" for seminars (an `Instant`: the
  current minute and the nanoseconds elapsed within it), the cut-off date
  (today minus 30 days) for the digest, and the seminar's day of the week
  for the announcement are all passed in.
- **Integers.** Group IDs and page numbers are Java `int`s (`Decimal.Int32`).
  `Integer.parseInt` and `String.valueOf` are written out over decimal
  text.

Some of the source's behaviour may be unexpected. The model follows the
code in each case:

- A load that fails part-way is not rolled back, and the store is not
  emptied either. Everything added before the failure stays, because
  `loadData` catches every exception.
- The `systemAdministrator` element is always written, and it is empty when
  no administrator is set. Loading such a document fails at its first
  field, after the lists were cleared.
- `makeSeminarCoordinator` never clears an earlier coordinator's flag.
- The register and remove actions of the administrator and the staff
  member's publication actions update the store's list first. A refusal by
  the second step (the group, or the personal list) leaves the first step
  applied.
- The administrator's edit loops compare each listed object with the
  argument's current state. The argument may itself be on the list.
  `Sweeps` models both facts exactly.
- A publish adds to the coordinator's selection and recipient lists and
  never clears them.
- Staff login returns the last matching staff member on the list.
- `removeMember` leaves a removed coordinator in the group's coordinator field. The administrator's removal actions therefore can leave a group whose coordinator is not one of its members. The corrected removal is stated beside it (see Findings).

## Model

| member | source | states |
|---|---|---|
| DataStorage.AddPublication | src/model/DataStorage.java:57-66 | Refused as a duplicate exactly when a listed publication has the same title or the same ID; otherwise the publication is appended and nothing else changes; a well-formed store stays well formed |
| DataStorage.RemovePublication | src/model/DataStorage.java:74-80 | Fails exactly when no listed publication has the same title and ID; otherwise exactly the first such entry is removed and nothing else changes |
| DataStorage.AddResearchGroup | src/model/DataStorage.java:89-101 | A group whose ID is listed is refused first; otherwise, with ten groups listed, any group is refused; otherwise it is appended; a store with at most ten groups keeps at most ten |
| DataStorage.RemoveResearchGroup | src/model/DataStorage.java:109-118 | Fails exactly when no listed group has the ID; otherwise exactly the first group with that ID is removed |
| DataStorage.AddAcademicStaff | src/model/DataStorage.java:126-135 | Refused exactly when a listed staff member has the same email and password; otherwise appended, and only the staff list changes |
| DataStorage.RemoveAcademicStaff | src/model/DataStorage.java:143-152 | Fails exactly when no listed staff member equals the argument; otherwise exactly the first equal entry is removed |
| DataStorage.AddResearchStudent | src/model/DataStorage.java:160-169 | Refused exactly when a listed student has the same email and student ID; otherwise appended, and only the student list changes |
| DataStorage.RemoveResearchStudent | src/model/DataStorage.java:177-186 | Fails exactly when no listed student equals the argument; otherwise exactly the first equal entry is removed |
| DataStorage.AddView | src/model/DataStorage.java:621-628 | Refused exactly when the view is registered; otherwise appended; a registry without repeats keeps none |
| DataStorage.RemoveView | src/model/DataStorage.java:631-642 | Fails exactly when the view is not registered; otherwise exactly its first occurrence goes, the other views keep their order and nothing else changes; in a registry without repeats the view is then no longer registered |
| StoreLaws.AddThenRemovePublication | src/model/DataStorage.java:57-80 | Removing a publication that was just added gives back the original store |
| StoreLaws.AddThenRemoveStaff | src/model/DataStorage.java:126-152 | Removing a staff member that was just added gives back the original store |
| StoreLaws.AddThenRemoveStudent | src/model/DataStorage.java:160-186 | Removing a student that was just added gives back the original store |
| StoreLaws.AddThenRemoveGroup | src/model/DataStorage.java:89-118 | Removing a group that was just added gives back the original store |
| StoreLaws.AddThenRemoveView | src/model/DataStorage.java:621-642 | Unregistering a view that was just registered gives back the original store |
| ResearchGroup.AddMember | src/model/ResearchGroup.java:26-33 | Refused exactly when an equal member is listed; otherwise appended; a member list without equal pairs keeps none |
| ResearchGroup.RemoveMember | src/model/ResearchGroup.java:41-48 | The corrected removal: fails exactly when no equal member is listed; otherwise exactly the first equal entry is removed, and the coordinator is cleared exactly when that entry is the coordinator; name, ID and seminars are kept |
| ResearchGroup.RemoveMemberKeepsCoordinatorListed | src/model/ResearchGroup.java:41-48 | A group whose coordinator is on its member list still has its coordinator (if any) on the list after a removal |
| ResearchGroup.RemoveMemberAsWritten | src/model/ResearchGroup.java:41-48 | The removal exactly as the source writes it: the first equal entry goes and the coordinator field is untouched |
| ResearchGroup.AsWrittenLeavesCoordinatorUnlisted | src/model/ResearchGroup.java:41-48 | Removing the only member of a group it coordinates leaves, as written, a coordinator who is not on the empty member list; the corrected removal clears it |
| ResearchGroup.AddNewSeminar | src/model/ResearchGroup.java:57-67 | A date-time before the current instant is refused before the duplicate check: a seminar in the current minute is accepted only at the minute's first instant; otherwise appended; no two listed seminars become equal |
| ResearchGroup.AddOldSeminar | src/model/ResearchGroup.java:75-82 | Any date-time is accepted and only an equal seminar is refused; no two listed seminars become equal |
| ResearchGroup.RemoveSeminar | src/model/ResearchGroup.java:90-97 | Fails exactly when no equal seminar is listed; otherwise exactly the first equal entry is removed |
| StoreLaws.AddThenRemoveMember | src/model/ResearchGroup.java:26-48 | Removing a member that was just added to a group gives back the original group |
| StoreLaws.AddThenRemoveSeminar | src/model/ResearchGroup.java:57-97 | Removing a seminar that was just scheduled gives back the original group |
| AcademicStaff.AddPublication | src/model/AcademicStaff.java:44-51 | Refused exactly when a publication with the same title and ID is on the personal list; otherwise appended; the list never gains an equal pair |
| AcademicStaff.RemovePublication | src/model/AcademicStaff.java:59-66 | Fails exactly when no equal publication is on the personal list; otherwise exactly the first equal entry is removed |
| AcademicStaff.SetCoordinator | src/model/AcademicStaff.java:30-36 | Sets only the member's flag; when the value is true, the member's group also names the member as coordinator and no other group changes; the heap stays well formed |
| StoreLaws.AddThenRemovePersonal | src/model/AcademicStaff.java:44-66 | Removing a publication that was just added to a personal list gives back the original member |
| Entities.NewAcademicStaff | src/model/AcademicStaff.java:10-16 | A new staff member keeps the given fields, is not a coordinator and has no publications |
| Entities.EqualitiesAreEquivalences | src/model/Publication.java:101-115 | The four equality keys are symmetric, so `contains(x)` agrees with testing each element against `x`; a member equals itself |
| Entities.AddAuthorName | src/model/Publication.java:58-60 | Leaves the publication, and so its author list, unchanged |
| Entities.RemoveAuthorName | src/model/Publication.java:62-64 | Leaves the publication, and so its author list, unchanged |
| Entities.SetTitle | src/model/Publication.java:50-52 | Replaces only the title; the type discriminant is unchanged |
| Entities.SetPublicationID | src/model/Publication.java:42-44 | Replaces only the ID; the type discriminant is unchanged |
| Entities.SetStudentID | src/model/ResearchStudent.java:16-18 | Replaces only the student ID; the student still equals its old self exactly when the ID is unchanged |
| Entities.SetDateTime | src/model/Seminar.java:28-34 | Refused with the old value kept exactly when the new date-time is before the current instant (an earlier minute, or the current one once any time has passed in it); otherwise only the date-time changes |
| Entities.SetLocation | src/model/Seminar.java:40-42 | Replaces the location; date-time and topic, and so the equality key, are unchanged |
| Entities.SetTopic | src/model/Seminar.java:48-50 | Replaces the topic; date-time and location are unchanged |
| Entities.NewResearchGroup | src/model/ResearchGroup.java:13-18 | A new group keeps its name and ID and has no members, no seminars and no coordinator |
| Time.DateTimeTrichotomy | src/model/Seminar.java:29 | Exactly one of "before", "equal" and "after" holds for two date-times, so "not before now" means now or later |
| Time.NowTrichotomy | src/model/Seminar.java:29 | A seminar date-time, which has no seconds, is before the current instant, after it, or exactly it (the current minute with no time elapsed), and never both before and after |
| Decimal.IntRoundTrip | src/model/DataStorage.java:493 | Parsing the decimal text that `String.valueOf` writes for an `int` gives back the same `int` |
| Decimal.SplitJoin | src/model/DataStorage.java:552-553 | Splitting comma-joined fields that contain no comma gives back the fields |
| FieldText.DateRoundTrip | src/model/DataStorage.java:552-553 | Decoding the "year,month,day" text of a date gives back the date |
| FieldText.DateTimeRoundTrip | src/model/DataStorage.java:605-607 | Decoding the "year,month,day,hour,minute" text of a date-time gives back the date-time |
| Codec.TypeOfText | src/model/DataStorage.java:555-583 | A recognised type text is exactly the text saved for that type |
| SavedForm.DetailsRoundTrip | src/model/DataStorage.java:555-583 | The variant fields of a saved publication read back as they were |
| SavedForm.PublicationRoundTrip | src/model/DataStorage.java:534-584 | Decoding a saved publication element gives back the publication |
| SavedForm.SeminarRoundTrip | src/model/DataStorage.java:599-611 | Decoding a saved seminar's date-time gives back the date-time |
| Codec.LoadPublication | src/model/DataStorage.java:534-584 | Reading one publication element only allocates, extends the staff member's personal list and extends the store's publication list; the group, staff and student lists are unchanged |
| Codec.FlagCoordinator | src/model/DataStorage.java:527-529 | The flag text "true" makes the new staff member its group's coordinator; any other text changes nothing |
| Codec.LoadMember | src/model/DataStorage.java:502-586 | Reading one member element keeps the store well formed and the group list unchanged; lists only grow at their ends |
| Codec.ResolveCoordinatorFirst | src/model/DataStorage.java:588-594 | With no member of that email the load goes on unchanged; otherwise the first such member is chosen, and the load fails exactly when that member is a student; a staff member becomes the group's coordinator |
| Codec.LoadSeminar | src/model/DataStorage.java:599-611 | Reading one seminar element keeps the store well formed and changes only the group's own state |
| Codec.LoadGroup | src/model/DataStorage.java:490-612 | Reading one group element keeps the store well formed and never takes the group count past ten |
| Codec.LoadData | src/model/DataStorage.java:457-618 | The load keeps the views and a well-formed store with at most ten groups; with no administrator block it leaves the four lists empty, keeps the old administrator and reports corrupt data; otherwise the administrator is the one read, and the result extends the emptied lists and the old heap without touching existing objects; a load without error lists one group per group element |
| LoadPath.LoadDataBuilt | src/model/DataStorage.java:457-618 | A document in saved form loads without error; the store's titles, IDs, staff keys, student keys and group IDs are the document's, in group, then member, then publication order |
| LoadPath.LoadThenSave | src/model/DataStorage.java:221-450 | Loading a document in saved form succeeds, and saving the loaded store writes the same document back |
| RoundTrip.BuiltSaves | src/model/DataStorage.java:221-450 | Saving the store that a load builds from a document in saved form gives back that document |
| SaveLaws.SavedIsDocOk | src/model/DataStorage.java:221-450 | A store with an administrator, at most ten groups, distinct seminars per group, a coordinator that is a listed staff member first with its email (or no coordinator and no flagged or email-less member), and no repeated title, publication ID, staff key, student key or group ID among what the save writes, is saved as a document in saved form |
| SaveLaws.SaveLoadSave | src/model/DataStorage.java:221-618 | Saving such a store, loading the document into any well-formed store and saving again reports no error and writes the same document |
| SaveLaws.SaveableCoordinatorListed | src/model/DataStorage.java:403-407 | A coordinator placed as the save round trip needs is on its group's member list |
| SaveLaws.DanglingCoordinatorNotSaveable | src/model/DataStorage.java:403-407 | A group with no members but a coordinator with a non-empty email is saved as a group element the load cannot resolve, so the save is not in saved form |
| UserController.SearchByTitle | src/control/UserController.java:58-74 | Fails exactly when no listed publication has the title; otherwise returns the lowest-index one that does |
| UserController.ListsName | src/control/UserController.java:87-92 | The inner scan finds the author exactly when the name is on the author list |
| UserController.KeepAuthored | src/control/UserController.java:86-93 | The outer loop keeps, in list order and once each, exactly the publications naming the author |
| UserController.SearchByAuthor | src/control/UserController.java:83-101 | Fails exactly when no listed publication names the author; otherwise returns exactly those publications, in list order |
| UserController.SearchByType | src/control/UserController.java:110-125 | Fails exactly when no listed publication has the type; otherwise returns exactly those publications, in list order |
| StaffController.Login | src/control/AcademicStaffController.java:39-55 | Fails exactly when no listed staff member has both the email and the password; otherwise returns the last one on the list that does |
| StaffController.LoginMatchIsUnique | src/control/AcademicStaffController.java:42-47 | On a staff list without equal pairs, the last match is also the first and only match |
| StaffController.AddPublication | src/control/AcademicStaffController.java:63-68 | A title or ID collision in the store refuses with nothing changed; a publication already on the personal list leaves it appended to the store's list only; otherwise it is appended to both lists |
| StaffController.RemovePublication | src/control/AcademicStaffController.java:76-81 | A publication absent from the store refuses with nothing changed; one absent from the personal list leaves it removed from the store's list only; otherwise it is removed from both |
| StaffController.PublicationActionsValid | src/control/AcademicStaffController.java:63-81 | Both publication actions leave a well-formed store, whether or not they throw |
| StaffController.AddThenRemove | src/control/AcademicStaffController.java:63-81 | Removing a publication that the same member just added successfully gives back the original store |
| StaffController.EditListed | src/control/AcademicStaffController.java:98-108 | The edit loop reports whether any listed publication has the ID and applies the setters to exactly those publications |
| StaffController.EditPublication | src/control/AcademicStaffController.java:94-188 | All three overloads fail with nothing changed exactly when no listed publication has the ID; otherwise every such publication gets the new title, authors, abstract and variant fields while keeping its ID, group ID, staff email, date and type; nothing else changes and the store stays well formed |
| AdminController.Login | src/control/SystemAdminController.java:28-36 | True exactly when both the email and the password are the administrator's |
| AdminController.Join | src/control/SystemAdminController.java:47-50 | One matching group adds the member to the store's list first and then to the group; a store refusal leaves the group untouched; a group refusal keeps the store's addition |
| AdminController.Leave | src/control/SystemAdminController.java:70-73 | One matching group removes the member from the store's list first and then from the group, whose coordinator field stays as it was; a store refusal leaves the group untouched; a group refusal keeps the store's removal |
| AdminController.RegistrationCases | src/control/SystemAdminController.java:44-59 | Registration refuses with nothing changed when no listed group has the member's group ID; otherwise the first such group decides the outcome, and any later such group raises a duplicate refusal |
| AdminController.RegisterMember | src/control/SystemAdminController.java:44-59 | The loop of `registerStaffMember` and `registerResearchStudent` (lines 121-136) computes exactly the registration that `RegistrationCases` describes |
| AdminController.RemovalCases | src/control/SystemAdminController.java:67-82 | Removal refuses with nothing changed when no listed group has the member's group ID; otherwise the outcome is that of leaving the first such group |
| AdminController.RemoveMember | src/control/SystemAdminController.java:67-82 | When at most one listed group matches, the loop of `removeStaffMember` and `removeResearchStudent` (lines 144-159) computes exactly the removal that `RemovalCases` describes |
| AdminController.RegisterThenRemove | src/control/SystemAdminController.java:44-82 | Removing a member that was just registered successfully gives back the original store |
| Sweeps.EditSweep | src/control/SystemAdminController.java:97-105 | An edit loop reports whether any listed object equals the target; it edits exactly the objects that `Swept` selects, comparing each with the target's state at that point of the loop, and changes no other object |
| Sweeps.SweptUnlisted | src/control/SystemAdminController.java:97-105 | When the target object is not on the list, the loop edits exactly the listed objects equal to it |
| Sweeps.SweptOnlyTarget | src/control/SystemAdminController.java:97-105 | When the target is listed and no other listed object equals it before or after the edit, the loop edits the target alone |
| AdminController.EditStaffDetails | src/control/SystemAdminController.java:94-113 | Fails with nothing changed exactly when no listed staff member equals the argument; otherwise sets name, title, email and password on exactly the swept staff objects; nothing else changes |
| AdminController.EditStudentDetails | src/control/SystemAdminController.java:171-190 | Fails with nothing changed exactly when no listed student equals the argument; otherwise sets name, title, email and student ID on exactly the swept students; nothing else changes |
| AdminController.EditResearchGroup | src/control/SystemAdminController.java:222-238 | Fails with nothing changed exactly when no listed group has the argument's ID; otherwise sets name and ID on exactly the swept groups, with no uniqueness check on the new ID; nothing else changes |
| AdminController.EditsKeepValid | src/control/SystemAdminController.java:94-238 | Edits that keep each member's variant, group and publications, and each group's members and coordinator, leave a well-formed store |
| AdminController.Appoint | src/control/SystemAdminController.java:248-254 | The coordinator loop keeps every object handle; each member is either unchanged or a staff member with its flag set |
| AdminController.AppointFlags | src/control/SystemAdminController.java:249-250 | The loop sets the flag of exactly the visited staff members equal to the target |
| AdminController.AppointFound | src/control/SystemAdminController.java:247-254 | The loop reports whether some visited staff member equals the target |
| AdminController.AppointCoordinators | src/control/SystemAdminController.java:251 | Each group's coordinator becomes the last visited member equal to the target whose group it is; other groups are unchanged |
| AdminController.AppointedLast | src/control/SystemAdminController.java:251 | With no selected member the group is unchanged; otherwise its coordinator is the last selected member |
| AdminController.CoordinatorSweep | src/control/SystemAdminController.java:248-254 | The loop computes exactly the flags, coordinators and found-bit that `Appoint` describes |
| AdminController.MakeSeminarCoordinator | src/control/SystemAdminController.java:246-262 | Fails with nothing changed exactly when no listed staff member equals the argument; otherwise exactly the listed equal staff get their flag set, earlier coordinators keep theirs, and each group they belong to names the last of them as coordinator; other groups are unchanged |
| SeminarController.AddSeminar | src/control/SeminarCoordinatorController.java:34-38 | A past date-time is refused first, then an equal seminar, each with nothing changed; otherwise the seminar is appended to the coordinated group and nothing else changes |
| SeminarController.RemoveSeminar | src/control/SeminarCoordinatorController.java:46-50 | Fails with nothing changed exactly when no equal seminar is listed; otherwise the first equal seminar is removed from the coordinated group |
| SeminarController.AddThenRemoveSeminar | src/control/SeminarCoordinatorController.java:34-50 | Removing a seminar that was just added gives back the original store |
| SeminarController.EditSeminarDetails | src/control/SeminarCoordinatorController.java:61-79 | Fails with nothing changed when no seminar is equal, or when one is and the new date-time is in the past; otherwise every equal seminar gets the new date-time, location and topic, and every other seminar keeps its state |
| SeminarController.FillPublicationList | src/control/SeminarCoordinatorController.java:82-89 | Appends to the selection, in store order, exactly the listed publications with the group's ID and a date strictly after the cut-off; earlier selections stay |
| SeminarController.FillEmailList | src/control/SeminarCoordinatorController.java:92-96 | Appends the emails of the group's members, in member-list order; earlier recipients stay |
| SeminarController.ListingAppend | src/control/SeminarCoordinatorController.java:113-118 | The digest of two selections joined is the digest of the first followed by that of the second |
| SeminarController.BuildMessage | src/control/SeminarCoordinatorController.java:113-118 | The loop appends to the header one line per selected publication: its title, a tab and its first author, with " et al." exactly when it has more than one author |
| SeminarController.PublishSeminar | src/control/SeminarCoordinatorController.java:105-124 | Refused exactly unless an equal seminar is listed and it is strictly after now; otherwise the selection and the recipients grow as above, the recipients are every email gathered so far, and the message is the header followed by the digest of the whole selection |

## Left out

- XML parsing and writing, the `Transformer` and file I/O. The document is an abstract record tree, and every `saveData(file)` call in a controller is an effect the model does not represent.
- `notifyViews` and the views' `update` callbacks (GUI). The registry is a list of view handles.
- The iterator behaviour of `removeView`. It removes from `registeredViews` while a for-each loop is still iterating over that list. Java's iterator then throws `ConcurrentModificationException` on its next step, unless the removed view was second-to-last. `RemoveView` models only the intended removal.
- `EmailSystem` and every `sendEmail` call (network I/O). That covers `requestPublication` and both `requestSupport` methods. For `publishSeminar`, the model keeps the recipients and the message it would send.
- `LocalDateTime.now()`, `LocalDate.now().minusDays(30)` and `getDayOfWeek()`. They are parameters. "Now" is an `Instant`: a minute and the nanoseconds elapsed within it. Seminar date-times carry no seconds, because the save writes year to minute only. Calendar validity of dates is not modelled.
- Exceptions other than `DPMSystemException` in the controllers are preconditions:
  - `ClassCastException` when an edit overload meets a publication of another type;
  - `NullPointerException` for a missing administrator in `login`;
  - `IndexOutOfBoundsException` for a selected publication with no author in `publishSeminar`;
  - a staff list holding a member whose group is not allocated.
- During a load, every exception, including a failed cast or a missing field, is caught by `loadData`. The model treats it as a failure that stops the load.
- `registerResearchGroup` and `removeResearchGroup` in the administrator controller. Each calls `DataStorage.AddResearchGroup` or `DataStorage.RemoveResearchGroup` and then saves, so those rows cover them.
- `setSeminarCoordinator` and the other plain getters and setters. They appear only where an operation uses them.
- The aliasing of the `editSeminarDetails` argument with a listed seminar. Seminars are values here, so the comparison always uses the argument's original date-time and topic.
- `DataStorage.main`: scratch test code.
- AdminController.RemoveMember: the contract fixes the outcome only when at most one listed group has the member's group ID. With several matching groups the method still runs the source's loop, but its result is not characterised.
- SeminarController.PublishSeminar: requires every selected publication to name at least one author, because the source's `get(0)` throws otherwise.
- StaffController.EditPublication: requires every publication with the given ID to be of the overload's type, because the source's cast throws otherwise.
- Publication and member type fields. The model derives each record's type text from its variant. In the source, the `type` string is a separate field that `saveData` dispatches on, and a mismatched type makes the save's cast throw. The model does not represent that case.
- Decimal parsing accepts only the ASCII digits `0`-`9`. `Integer.parseInt` also accepts other Unicode decimal digits. Text that the save writes never contains them.

## Findings

| source | as written | input that shows it | evidently intended | confidence | as-written member | corrected member |
|---|---|---|---|---|---|---|
| src/model/ResearchGroup.java:41-48 | `removeMember` drops the member from the list but never clears `seminarCoordinator`, so a removed coordinator stays coordinator of a group it no longer belongs to | a group whose only member `c` is its coordinator, then `removeMember(c)`: the list is empty and the coordinator is still `c`; a save then writes `c`'s email, the load matches nobody, and a second save writes an empty coordinator | a coordinator who leaves the group stops being the group's coordinator, so the coordinator stays a listed member | medium, not executed | ResearchGroup.RemoveMemberAsWritten, ResearchGroup.AsWrittenLeavesCoordinatorUnlisted, SaveLaws.DanglingCoordinatorNotSaveable | ResearchGroup.RemoveMember, ResearchGroup.RemoveMemberKeepsCoordinatorListed |
