# Milestones backend — a verified model

This project models the rule layer of the Milestones backend, an ASP.NET REST API over MongoDB that
manages projects, their milestones, and the members embedded in milestones. Three collections are
held as sequences of records, each record carrying a unique id. The model covers:

- **Entities** (`member.dfy`, `milestone.dfy`, `project.dfy`): the records and their structural
  equality, which never compares ids. Dates are compared only by their millisecond-of-second
  component, and embedded lists by position. The models also cover the `==`/`!=` operators, the
  hash codes and the `IsMissingProperties` validators. `Milestone.Equals` and `Project.Equals` loop
  over the embedded lists, so they are methods proved against a specification function.
- **Store** (`store.dfy`, the three `*_service.dfy`): a MongoDB collection as a class.
  - It holds a `records` sequence and offers `InsertOne`, `ReplaceOne` and `DeleteOne` by id.
  - The server-side queries are filters over that sequence: by id, a case-insensitive substring of
    a name, inclusive date bounds, milestone status, project reference, and embedded member.
- **Controllers** (the three `*_controller.dfy`): each write handler is a sequence of checks
  followed by at most one change to the stores. Each handler is a method whose contract states the
  response and the whole new state on every path. The project controller's read handlers rebuild
  each project's milestone list from the milestone store. They are loops proved against
  specification functions, with lemmas stating what they select.

C# `null` is `Option`, and an exception raised while evaluating an expression is `Eval.Throws`. A
handler's answer is a `Response`:

- `Created` and `Succeeded` are the success envelopes.
- `Failed(message)` carries the handler's own error message.
- `Faulted(true)` is an exception caught by the handler's `try`.
- `Faulted(false)` is an exception that escapes the handler.

The ids the store's driver generates, and the current time, are parameters of the model.

Behaviour of the code that the model reproduces. The handlers are modelled as action methods, on
every body, including bodies the framework's request validation would reject before the action
runs (see "## Left out"):

- **`IsMissingProperties` on empty and null input.** The validators flag only `null` fields, not
  empty strings. They test `x == null` through the overloaded `operator==`, which dereferences its
  null left operand. So an action method given a null body throws in the validator rather than
  returning true. `CreateMember` tests `is null` first; the other actions fault, caught or not
  according to their `try`.
- **The update duplicate check exempts by the body's id.** It exempts records carrying the
  body's id, not the route id.
- **`UpdateProject` stores the inbound milestone list in the project document.** Each inserted
  milestone gets its new id written back into the list. The guard's second disjunct can never
  apply, so exactly the inbound milestones with a null or empty id are inserted.
- **A create keeps the id the body carries.** The driver generates an id only when the body's
  id is null or empty; an id already stored makes the insert fail with a duplicate-key error,
  which no create handler catches.
- **`CreateProject` can store a duplicate project.** It compares the body with its inbound
  milestone list and only then clears the list. So a project equal to a stored one passes the
  duplicate test if it brings any milestone along.

## Model

| member | source | states |
|---|---|---|
| Clock.Millisecond | Milestones_Backend/Models/Milestone.cs:67-68 | the millisecond component of a date is in 0..999 |
| Clock.MillisecondIgnoresWholeSeconds | Milestones_Backend/Models/Milestone.cs:67-68 | dates a whole number of seconds apart have the same millisecond component |
| Clock.ProjectDefaultsOnWholeSeconds | Milestones_Backend/Models/Project.cs:29-35 | the sentinel project dates (3 Nov 1971 00:00:00 and 23:59:59) fall on whole seconds, start at midnight, and are one day less one second apart, after the zero date |
| Hashing.Combine | Milestones_Backend/Models/Member.cs:47 | a hash code is a 32-bit value |
| MemberModel.Equals | Milestones_Backend/Models/Member.cs:32-41 | a member equals another exactly when the receiver has both names and the two agree in everything but the id |
| MemberModel.OperatorsAgreeWithEquals | Milestones_Backend/Models/Member.cs:45-72 | equal members have equal hash codes, so `==` is exactly `Equals` and `!=` its negation |
| MemberModel.EqualityIgnoresId | Milestones_Backend/Models/Member.cs:32-41 | two complete members with the same names are `==` whatever their ids |
| MemberModel.EqualsRejectsNull | Milestones_Backend/Models/Member.cs:34-38 | `Equals` is false for a null argument and for a receiver with a null name |
| MemberModel.EqualityIsAnEquivalence | Milestones_Backend/Models/Member.cs:32-60 | `==` is reflexive on complete members, symmetric and transitive |
| MemberModel.EqualsComparesNamesExactly | Milestones_Backend/Models/Member.cs:36-40 | `==` holds exactly when both names are present and equal, case-sensitively |
| MemberModel.IsMissingProperties | Milestones_Backend/Models/Member.cs:80-85 | a member misses a property exactly when its first or last name is null; empty names pass |
| MemberModel.GetHashCode | Milestones_Backend/Models/Member.cs:45-48 | the hash mixes the two name lengths only |
| MemberModel.OpEquals | Milestones_Backend/Models/Member.cs:57-60 | `==` is `Equals` and equal hash codes |
| MemberModel.OpNotEquals | Milestones_Backend/Models/Member.cs:69-72 | `!=` is the negation of that conjunction |
| MilestoneModel.Equals | Milestones_Backend/Models/Milestone.cs:60-76 | the field comparison followed by the `&=` loop yields exactly the specified equality, throwing exactly where a dereferenced field is null |
| MilestoneModel.EqualIsHashable | Milestones_Backend/Models/Milestone.cs:80-95 | equal milestones have every field the hash reads present |
| MilestoneModel.OperatorsAgreeWithEquals | Milestones_Backend/Models/Milestone.cs:92-107 | equal milestones hash alike, so `==` is exactly `Equals` (throwing when it throws) and `!=` its negation |
| MilestoneModel.EqualityIgnoresIds | Milestones_Backend/Models/Milestone.cs:64-74 | neither the milestone's id nor its embedded members' ids affect equality |
| MilestoneModel.DatesComparedByMillisecondOnly | Milestones_Backend/Models/Milestone.cs:67-68 | shifting start and end by whole seconds leaves equality unchanged |
| MilestoneModel.MemberOrderMatters | Milestones_Backend/Models/Milestone.cs:73-74 | swapping two differently named members makes otherwise identical milestones unequal |
| MilestoneModel.CompleteMilestonesCompare | Milestones_Backend/Models/Milestone.cs:60-76 | complete milestones compare without throwing, and one with complete members equals itself |
| MilestoneModel.IncompleteMemberBreaksReflexivity | Milestones_Backend/Models/Milestone.cs:73-74 | an embedded member with a null name makes a milestone unequal to itself |
| MilestoneModel.IsMissingProperties | Milestones_Backend/Models/Milestone.cs:115-125 | a milestone misses a property exactly when its project reference, name, description, member list or completion flag is null, or a date is the zero date |
| MilestoneModel.GetHashCode | Milestones_Backend/Models/Milestone.cs:80-83 | the hash mixes the name, reference and description lengths, the two millisecond components and the member count |
| MilestoneModel.OpEquals | Milestones_Backend/Models/Milestone.cs:92-95 | `==` is `Equals` (throwing when it throws) and equal hash codes |
| MilestoneModel.OpNotEquals | Milestones_Backend/Models/Milestone.cs:104-107 | `!=` negates `==` and throws when it throws |
| ProjectModel.Equals | Milestones_Backend/Models/Project.cs:44-57 | the field comparison followed by the `&=` loop over milestones yields exactly the specified equality, throwing exactly when a comparison throws |
| ProjectModel.EqualProjectsHashAlike | Milestones_Backend/Models/Project.cs:44-64 | equal projects have names and equal hash codes |
| ProjectModel.OperatorsAreComplementary | Milestones_Backend/Models/Project.cs:73-88 | `!=` throws exactly when `==` does and otherwise is its negation |
| ProjectModel.EqualityIgnoresIdAndWholeSeconds | Milestones_Backend/Models/Project.cs:48-51 | the id is never compared, and whole-second shifts of the dates leave equality unchanged |
| ProjectModel.CompleteProjectsCompare | Milestones_Backend/Models/Project.cs:44-56 | complete projects with complete milestones compare without throwing, and equal ones have equally long lists |
| ProjectModel.NewProjectDefaults | Milestones_Backend/Models/Project.cs:29-40 | a default project is missing a property until it is named, its sentinel dates fall on whole seconds with start before end, and once named it equals itself |
| ProjectModel.New | Milestones_Backend/Models/Project.cs:29-40 | a project the body leaves unset has no id or name, the two sentinel dates and an empty milestone list |
| ProjectModel.IsMissingProperties | Milestones_Backend/Models/Project.cs:96-101 | a project misses a property exactly when its name or milestone list is null; dates are never flagged |
| ProjectModel.GetHashCode | Milestones_Backend/Models/Project.cs:61-64 | the hash mixes the name length and the two millisecond components |
| ProjectModel.OpEquals | Milestones_Backend/Models/Project.cs:73-76 | `==` is `Equals`, throwing when it throws |
| ProjectModel.OpNotEquals | Milestones_Backend/Models/Project.cs:85-88 | `!=` negates `Equals` and throws when it throws |
| MemberService.GetById | Milestones_Backend/Services/MemberService.cs:78-79 | null exactly when no member carries the id; otherwise a stored member with that id |
| MemberService.GetByName | Milestones_Backend/Services/MemberService.cs:50-51 | exactly the stored members whose first or last name contains the query, ignoring case |
| MemberService.GetByNameKeepsStoreOrder | Milestones_Backend/Services/MemberService.cs:50-51 | the search keeps store order: it distributes over concatenation |
| MemberService.GetByNameFindsOwnName | Milestones_Backend/Services/MemberService.cs:50-51 | the empty query and a member's own first name both find the member |
| MemberService.GetByIdFindsStored | Milestones_Backend/Services/MemberService.cs:78-79 | with unique ids, looking up a stored member's id returns that member |
| MilestoneService.GetById | Milestones_Backend/Services/MilestoneService.cs:52-53 | null exactly when no milestone carries the id; otherwise a stored milestone with that id |
| MilestoneService.GetByName | Milestones_Backend/Services/MilestoneService.cs:61-62 | exactly the milestones whose name contains the query, ignoring case |
| MilestoneService.GetByDescription | Milestones_Backend/Services/MilestoneService.cs:70-71 | exactly the milestones whose description contains the query, ignoring case |
| MilestoneService.GetByProjectId | Milestones_Backend/Services/MilestoneService.cs:79-80 | exactly the milestones referencing the project |
| MilestoneService.GetByMemberId | Milestones_Backend/Services/MilestoneService.cs:88-92 | exactly the milestones embedding a member with that id |
| MilestoneService.GetByMemberName | Milestones_Backend/Services/MilestoneService.cs:100-104 | exactly the milestones embedding a member whose first or last name contains the query, ignoring case |
| MilestoneService.GetByStatus | Milestones_Backend/Services/MilestoneService.cs:112-121 | COMPLETED: completed; OPENS: not completed, ending at or after now; EXPIRED: not completed, ending before now; any other value: empty |
| MilestoneService.GetByStartAfter | Milestones_Backend/Services/MilestoneService.cs:128-129 | exactly the milestones starting at or after the date |
| MilestoneService.GetByEndBefore | Milestones_Backend/Services/MilestoneService.cs:137-138 | exactly the milestones ending at or before the date |
| MilestoneService.StatusesPartition | Milestones_Backend/Services/MilestoneService.cs:116-118 | every milestone has exactly one of the three statuses |
| MilestoneService.DateFiltersAreInclusive | Milestones_Backend/Services/MilestoneService.cs:128-138 | a milestone starting or ending exactly at the bound is kept |
| MilestoneService.QueriesKeepStoreOrder | Milestones_Backend/Services/MilestoneService.cs:79-80 | the project and status queries keep store order: they distribute over concatenation |
| MilestoneService.GetByIdFindsStored | Milestones_Backend/Services/MilestoneService.cs:52-53 | with unique ids, looking up a stored milestone's id returns that milestone |
| ProjectService.GetById | Milestones_Backend/Services/ProjectService.cs:78-79 | null exactly when no project carries the id; otherwise a stored project with that id |
| ProjectService.GetByName | Milestones_Backend/Services/ProjectService.cs:51-52 | exactly the projects whose name contains the query, ignoring case |
| ProjectService.GetByStartAfter | Milestones_Backend/Services/ProjectService.cs:60-61 | exactly the projects starting at or after the date |
| ProjectService.GetByEndBefore | Milestones_Backend/Services/ProjectService.cs:69-70 | exactly the projects ending at or before the date |
| ProjectService.GetByNameIgnoresQueryCase | Milestones_Backend/Services/ProjectService.cs:51-52 | lower-casing the query does not change the result |
| ProjectService.GetByIdFindsStored | Milestones_Backend/Services/ProjectService.cs:78-79 | with unique ids, looking up a stored project's id returns that project |
| Store.AssignedId | Milestones_Backend/Models/Member.cs:13-16 | a new document keeps a non-empty id it carries; a null or empty one is replaced by the generated id |
| Store.Collection.InsertOne | Milestones_Backend/Services/MilestoneService.cs:156-157 | the record is appended exactly when its id is not already stored, and otherwise refused with nothing changed; ids stay unique |
| Store.Collection.ReplaceOne | Milestones_Backend/Services/MilestoneService.cs:166-167 | only the record with the id is replaced; a replacement changing the id is refused and nothing changes |
| Store.Collection.DeleteOne | Milestones_Backend/Services/MilestoneService.cs:147-148 | exactly the record with the id is removed; the others stay in order |
| Text.ToLowerIdempotent | Milestones_Backend/Services/MemberService.cs:50-51 | lower-casing twice is lower-casing once |
| Text.SearchIsCaseInsensitive | Milestones_Backend/Services/ProjectService.cs:51-52 | lower-casing either side first does not change a search |
| Text.SearchMatchesEmptyAndSelf | Milestones_Backend/Services/MemberService.cs:50-51 | the empty query matches every string, and every string matches itself |
| Text.SearchLongerQueryFails | Milestones_Backend/Services/MemberService.cs:50-51 | a query longer than the searched string never matches |
| MemberController.CreateKeepsNoDuplicates | Milestones_Backend/Controllers/MemberController.cs:95-100 | adding a non-duplicate member keeps the store free of equal members |
| MemberController.UpdateKeepsNoDuplicates | Milestones_Backend/Controllers/MemberController.cs:126-133 | replacing the record by a body with its id that equals no other member keeps the store free of equal members |
| MemberController.FilterKeepsNoDuplicates | Milestones_Backend/Controllers/MemberController.cs:152-156 | removing members keeps the store free of equal members |
| MemberController.IsDuplicate | Milestones_Backend/Controllers/MemberController.cs:95-96 | the create test: some stored member is `==` to the body |
| MemberController.IsDuplicateOfOther | Milestones_Backend/Controllers/MemberController.cs:125-126 | the update test: some stored member is `==` to the body and carries an id other than the body's |
| MemberController.MemberController.CreateMember | Milestones_Backend/Controllers/MemberController.cs:87-104 | null body, missing name and duplicate fail in that order without change; otherwise the member is appended under its own id, or the generated one when it has none, and an id already stored faults uncaught without change; no duplicates is preserved |
| MemberController.MemberController.UpdateMember | Milestones_Backend/Controllers/MemberController.cs:115-139 | unknown id, null body (caught), missing name, duplicate of another, and a body id other than the route id fail without change; otherwise only the route-id record is replaced; no duplicates is preserved |
| MemberController.MemberController.DeleteMember | Milestones_Backend/Controllers/MemberController.cs:150-156 | an unknown id fails without change; otherwise exactly that member is removed and milestones are untouched |
| MilestoneController.AllMembersExist | Milestones_Backend/Controllers/MilestoneController.cs:224-232 | the flag loop reports whether every embedded member resolves by id and `==` |
| MilestoneController.CreateVerdict | Milestones_Backend/Controllers/MilestoneController.cs:209-247 | the create response: null body (uncaught fault), missing properties, unknown project, duplicate or throwing comparison (uncaught fault), unresolved members, start after end, taken id (uncaught fault), in that order, else `Created` with the stored id |
| MilestoneController.UpdateVerdict | Milestones_Backend/Controllers/MilestoneController.cs:258-302 | the update response: unknown id, null body, unknown project, null member list, unresolved members, missing properties, duplicate with another id or throwing comparison, start after end, changed id, in that order, every exception caught, else `Succeeded` |
| MilestoneController.CreateSucceedsExactlyWhenValid | Milestones_Backend/Controllers/MilestoneController.cs:211-246 | a create succeeds exactly when the milestone is complete, its project exists, it equals no stored one, its members resolve, start ≤ end and the id it is stored under (its own, else the generated one) is not taken; the response carries that id |
| MilestoneController.UpdateSucceedsExactlyWhenValid | Milestones_Backend/Controllers/MilestoneController.cs:262-296 | an update succeeds exactly when the id exists, the body is complete, carries the route id, references a project, has resolving members, equals no milestone with another id and start ≤ end |
| MilestoneController.UpdateExemptsOnlyTheReplacedRecord | Milestones_Backend/Controllers/MilestoneController.cs:286-290 | after a successful update, no other stored milestone equals the new value |
| MilestoneController.MilestoneController.CreateMilestone | Milestones_Backend/Controllers/MilestoneController.cs:209-247 | a null body and a throwing duplicate comparison fault uncaught; then missing properties, unknown project, duplicate, unresolved members and start after end fail, in that order; a taken id faults uncaught; on success exactly one milestone is appended under the id in the response (its own, else the generated one), otherwise nothing changes |
| MilestoneController.MilestoneController.UpdateMilestone | Milestones_Backend/Controllers/MilestoneController.cs:258-302 | unknown id fails; a null body faults (caught) when any project is stored and otherwise fails the project check; then unknown project, null member list (caught fault), unresolved members, missing properties, a throwing comparison (caught), duplicate with another id, start after end, and a body id other than the route id (refused by the store, caught), in that order; on success only the route-id record is replaced, otherwise nothing changes |
| MilestoneController.MilestoneController.DeleteMilestone | Milestones_Backend/Controllers/MilestoneController.cs:313-318 | an unknown id fails without change; otherwise exactly that milestone is removed |
| ProjectController.AssembledListsEveryProject | Milestones_Backend/Controllers/ProjectController.cs:44-57 | with every list present, `GetAll` returns every project in store order, each with exactly its referencing milestones in store order |
| ProjectController.MemberFound | Milestones_Backend/Controllers/ProjectController.cs:123-128 | the nested member loops report a match, throwing on a null member list or a throwing test |
| ProjectController.SearchByMember | Milestones_Backend/Controllers/ProjectController.cs:120-135 | the per-project scan followed by `RemoveAll` yields the specified member search |
| ProjectController.TaggedKeepsTheMatching | Milestones_Backend/Controllers/ProjectController.cs:130-135 | a scanned project keeps a non-empty list exactly when a member matched, and then carries all its milestones |
| ProjectController.MemberSearchSelects | Milestones_Backend/Controllers/ProjectController.cs:120-136 | a member search returns exactly the projects with a matching member, each with all its milestones |
| ProjectController.NameMatches | Milestones_Backend/Controllers/ProjectController.cs:163 | the in-memory name test throws exactly on a null first name, or a null last name after no first-name match; on complete members it is the server's name filter |
| ProjectController.MemberIdFoundIffQueried | Milestones_Backend/Controllers/ProjectController.cs:124-128 | a project's milestones embed the member exactly when one of them is among the `GetByMemberId` milestones |
| ProjectController.MemberIdScanAgreesWithMilestoneQuery | Milestones_Backend/Controllers/ProjectController.cs:120-136 | with member lists present, the project scan by id agrees with the milestone query by member id |
| ProjectController.RemovalTestsDecideStatus | Milestones_Backend/Controllers/ProjectController.cs:200-208 | with flags set, the `RemoveAll` tests do not throw and decide exactly the derived statuses |
| ProjectController.StatusFilterSelects | Milestones_Backend/Controllers/ProjectController.cs:192-211 | with flags set, COMPLETED keeps exactly the projects with ≥1 milestone all completed; OPENS those ending after now with one not completed; EXPIRED those ending by now with one not completed |
| ProjectController.StatusesExclusive | Milestones_Backend/Controllers/ProjectController.cs:197-211 | the three project statuses are pairwise disjoint, and a project without milestones has none |
| ProjectController.StatusFilter | Milestones_Backend/Controllers/ProjectController.cs:197-211 | the status switch: COMPLETED removes projects with no milestones or one not completed; OPENS removes those ending by now, then those all completed; EXPIRED removes those ending after now, then those all completed; another value keeps all; a null flag or list throws |
| ProjectController.FindDuplicate | Milestones_Backend/Controllers/ProjectController.cs:303-307 | the loop stops at the first stored project `==` to the body, and a throwing comparison ends it |
| ProjectController.InboundMilestonesEscapeTheDuplicateTest | Milestones_Backend/Controllers/ProjectController.cs:302-308 | a body that repeats a stored project but brings a milestone is not a duplicate, yet is stored equal to it |
| ProjectController.InsertGuard | Milestones_Backend/Controllers/ProjectController.cs:336-337 | the guard never throws and is exactly "the id is null or empty" |
| ProjectController.InsertedAreTheIdlessInbound | Milestones_Backend/Controllers/ProjectController.cs:334-341 | exactly the inbound milestones with a null or empty id are inserted, each under its new id |
| ProjectController.InsertedStep | Milestones_Backend/Controllers/ProjectController.cs:334-341 | each pass inserts at most the milestone at its position |
| ProjectController.NextIdIsFresh | Milestones_Backend/Controllers/ProjectController.cs:339 | the id used at each pass is carried by no stored or earlier-inserted milestone |
| ProjectController.NotAmongNext | Milestones_Backend/Controllers/ProjectController.cs:368-369 | a milestone avoids the first i+1 deleted ids exactly when it avoids the first i and the next |
| ProjectController.DeleteStep | Milestones_Backend/Controllers/ProjectController.cs:368-369 | each delete pass removes exactly the next milestone's id |
| ProjectController.DeletingByIdRemovesTheReferencing | Milestones_Backend/Controllers/ProjectController.cs:367-369 | with unique ids, deleting each referencing milestone by id removes exactly the referencing milestones |
| ProjectController.DeleteKeepsReferencesResolved | Milestones_Backend/Controllers/ProjectController.cs:362-371 | if every milestone referenced a stored project before, it still does after the cascade |
| ProjectController.ReplaceKeepsListsPresent | Milestones_Backend/Controllers/ProjectController.cs:343 | replacing a project by one carrying a list keeps every list present |
| ProjectController.ProjectController.GetAll | Milestones_Backend/Controllers/ProjectController.cs:42-58 | the nested loops yield every project with its referencing milestones, throwing on a stored null list |
| ProjectController.ProjectController.GetById | Milestones_Backend/Controllers/ProjectController.cs:68-86 | the failure envelope "Project not exists" exactly for an unknown id; an uncaught fault exactly for a stored null list; otherwise the stored project carrying exactly its referencing milestones |
| ProjectController.ProjectController.GetByName | Milestones_Backend/Controllers/ProjectController.cs:96-106 | the name matches, each with its referencing milestones, throwing on a null list |
| ProjectController.ProjectController.GetByMemberId | Milestones_Backend/Controllers/ProjectController.cs:116-142 | the member search with the id test |
| ProjectController.ProjectController.GetByMemberName | Milestones_Backend/Controllers/ProjectController.cs:152-178 | the member search with the case-insensitive name test |
| ProjectController.ProjectController.GetByStatus | Milestones_Backend/Controllers/ProjectController.cs:188-219 | assembly followed by the status switch evaluated at `now` |
| ProjectController.ProjectController.CreateProject | Milestones_Backend/Controllers/ProjectController.cs:297-311 | a null body faults uncaught; missing properties fail; a duplicate fails and a throwing comparison faults, without change; otherwise the project is appended with an empty list under its own id, or the generated one when it has none, and an id already stored faults uncaught without change; present lists are preserved |
| ProjectController.ProjectController.UpdateProject | Milestones_Backend/Controllers/ProjectController.cs:322-350 | unknown id, null body, missing property and a stored null list end without change; otherwise the idless inbound milestones are inserted, and the project is replaced by the body with the ids written back, or the store refuses a changed id (caught) and the inserts stay |
| ProjectController.ProjectController.InsertIdless | Milestones_Backend/Controllers/ProjectController.cs:334-341 | the loop appends exactly the inserted milestones to the store and returns the inbound list with the new ids written back |
| ProjectController.ProjectController.DeleteEach | Milestones_Backend/Controllers/ProjectController.cs:368-369 | the loop removes exactly the milestones whose ids are among those given |
| ProjectController.ProjectController.DeleteProject | Milestones_Backend/Controllers/ProjectController.cs:359-377 | an unknown id fails without change; otherwise the project and exactly the milestones referencing it are removed, and resolvable references stay resolvable |

## Left out

- The framework's automatic request validation (`[ApiController]` on the three controllers) is not modelled. That includes the non-null body check and the `MinLength(1)`/`MaxLength` limits on names and descriptions, which also reach embedded members and milestones. ASP.NET answers 400 to such requests before any action runs. The handlers are modelled as their action methods on every body, so the null-body and empty-string paths above are behaviour of the action code that no HTTP request reaches.

- Ids the driver generates (ObjectId) are parameters (`newId`, `newIds`) required to be fresh. Parsing of 24-character ids and its `FormatException` paths are not modelled, so neither is the serialisation error for a body id that is not an ObjectId string.
- `async`/`Task`/`.Result` plumbing, HTTP routing and the `CreatedAtAction` envelope shapes are not modelled. `Faulted` does not carry the exception's message.
- Concurrent requests are not modelled, so neither is the race between two creates that both pass the duplicate check. The model is sequential.
- `DateTime.UtcNow` is the parameter `now`. `ProjectController.ProjectController.GetByStatus` reads the clock once per project in the source; the model uses one instant for the whole request.
- Culture-aware `ToLower` and culture-dependent `DateTime.Parse` are not modelled. Only ASCII letters are lower-cased, and the sentinel dates are fixed constants (day-first reading).
- `System.HashCode.Combine` is randomly seeded per process; `Hashing.Combine` fixes the seed. Only "equal values hash alike" is used, and collisions are not modelled.
- Null elements inside the member and milestone lists are not modelled. Lists and fields themselves may be null.
- The pass-through read handlers are not modelled separately: `GetAll`, `GetById` and `GetByName` of the member and milestone controllers, and the milestone controller's remaining queries. Each returns its service query unchanged. The service `GetAll` queries return the whole collection, which is `records`.
- ProjectController `GetByMilestoneName`, `GetByMilestoneDescription`, `GetByStartAfter` and `GetByEndBefore` are not modelled. They are not part of the modelled core; the last two pass `ProjectService` queries through, and those are modelled.
- `MemberService.GetById`, `MilestoneService.GetById` and `ProjectService.GetById` state "a record with that id" rather than "the first". The `GetByIdFindsStored` lemmas close the gap for stores with unique ids, which every `Collection` keeps.
- `MilestoneService.GetByStatus` treats the server-side `!(bool)IsCompleted` as "not completed" (`IsCompleted != true`), as the driver translates it. A null flag is therefore never completed, and the server raises no cast exception.
- `ProjectController.StatusFilterSelects` is stated for stores whose completion flags are all set. With a null flag, the in-memory `(bool)` cast throws, which `StatusFilter` models but the lemma does not describe.
- `Store.Collection.ReplaceOne` applies MongoDB's rule that a replacement may not change a document's `_id`. When nothing matches it changes nothing; the upsert option is not modelled, because no handler uses it.
- Startup, configuration, collection creation and the unused generic search service are not modelled: they contain no rules.
