# In-memory task and user stores, modelled in Dafny

This project models the in-memory core of a small task/user tracker:

- the task store (`TaskManager`);
- the user store (`UserManager`);
- the `User` entity, with its process-wide id counter.

The task store keeps an ordered list of tasks. It can add, look up, update, complete and delete a task. It can filter the tasks by status or by a case-insensitive keyword. It can also link a task and a user both ways. The user store keeps an ordered list of users. It can add, rename, remove and look up a user.

The source changes objects in place, so the model does too. `Task`, `User`, `TaskManager` and `UserManager` are Dafny classes with mutable fields. The stores' lists are `seq` fields of object references, and the methods reassign them. Read-only operations are functions with `reads` clauses. The string built-ins live in `Text`. Lower-casing (`toLowerCase`) is defined character by character. Substring search (`includes`) is a recursive function, proved equal to "the needle occurs at some position". The array built-ins live in `Sequences` and `TaskManagement`. `findIndex` is `Sequences.FirstIndex`, a recursive function, and `find` is `Sequences.Find`, built on it. `filter` is modelled twice: `Sequences.RemoveKey` for removal by id, and `TaskManagement.Select` for the status and keyword filters. Both are recursive, and they are kept apart because one is generic over a key function while the other reads the tasks' mutable fields. Their contracts give membership both ways and order. The lemmas `RemoveKeyCounts` and `SelectCounts` give the multiplicities.

Files and modules:

| file | module | models |
|---|---|---|
| wrappers.dfy | `Wrappers` | `Option`: the `undefined` that every failed lookup returns |
| sequences.dfy | `Sequences` | first-match lookup, removal by id, order preservation (subsequence) |
| text.dfy | `Text` | lower-casing and substring search |
| entities.dfy | `Entities` | `Task`, `User`, the user id counter |
| task_manager.dfy | `TaskManagement` | `TaskManager` and its filters |
| user_manager.dfy | `UserManagement` | `UserManager` |
| scenarios.dfy | `Scenarios` | whole runs of the stores, taken from the repository's tests |

Behaviour the model keeps as the code has it:

- **Task ids can repeat.** A new task's id is the current list length plus one. After a delete, the next task can get an id that a live task already has (`Scenarios.TaskIdReuse`). So there is no task-id uniqueness invariant. Lookups, updates and completion act on the first task with the id. `deleteTask` removes every task with the id.
- **Assignment never succeeds.** The task store's own user list is set to `[]` in its constructor and nothing ever adds to it. So `assignTaskToUser` returns none from every store that can exist, and `getUserTasks` returns `[]` (`Scenarios.AssignFromFreshStore`). The repository's tests at tests/index.test.ts:133-144 and :166-180 expect the opposite. The model follows the code.
- **User ids are never reused.** They come from one counter that every `User` construction increments. Ids are therefore distinct across all user stores that share it (`UserManagement.AddUserAcrossStores`, `Scenarios.UsersAcrossStores`).

## Model

| member | source | states |
|---|---|---|
| `Sequences.FirstIndex` | src/TaskManager.ts:30 | `findIndex` by id returns -1 exactly when no element has the id; otherwise it returns an index whose element has the id, and no earlier element has it |
| `Sequences.Find` | src/TaskManager.ts:19 | `find` by id returns none exactly when no element has the id; otherwise it returns the element at the first index holding that id |
| `Sequences.RemoveKey` | src/TaskManager.ts:53 | `filter(x => x.id !== k)` keeps exactly the elements whose id is not `k`, in their original order; the result is never longer, and it is the same length exactly when no element had the id |
| `Sequences.RemoveKeyCounts` | src/TaskManager.ts:53 | `filter(x => x.id !== k)` keeps every element whose id is not `k` as many times as the list held it, and drops every element whose id is `k` |
| `Sequences.RemoveKeyAbsent` | src/TaskManager.ts:51-55 | removing an id nobody has returns the list unchanged |
| `Sequences.RemoveKeyKeepsDistinct` | src/TaskManager.ts:51-55 | deleting by id keeps the task objects in the list pairwise distinct |
| `Sequences.RemoveKeyKeepsKeysDistinct` | src/UserManager.ts:29-33 | removing by id keeps the user ids in the list pairwise distinct |
| `Sequences.RemoveKeyAtMostOne` | src/UserManager.ts:29-33 | when ids are distinct, removal by id takes out at most one element, and exactly one when the id was present |
| `Text.LowerChar` | src/TaskManager.ts:66 | lower-casing maps `A`-`Z` to `a`-`z` and leaves every other character alone; the result is never an upper-case letter |
| `Text.Lower` | src/TaskManager.ts:66-69 | `toLowerCase` keeps the length and lower-cases each character in place |
| `Text.LowerIdempotent` | src/TaskManager.ts:66-69 | lower-casing a lower-cased string changes nothing |
| `Text.IncludesAt` | src/TaskManager.ts:68-69 | `includes` holds exactly when the needle occurs as a contiguous slice at some position of the haystack |
| `Text.IncludesChar` | src/TaskManager.ts:68-69 | every character of an included string occurs in the haystack |
| `Entities.IdCounter.constructor` | src/User.ts:4 | the user id counter starts at 0 |
| `Entities.Task.constructor` | src/TaskManager.ts:24 | a new task holds the id, title, description, completion flag and due date it is given, and no assigned user |
| `Entities.User.constructor` | src/User.ts:10-14 | constructing a user bumps the counter by exactly one; the new counter value is the id; the user has the given name and an empty task list |
| `Scenarios.FirstUsers` | src/User.ts:4-11 | the first two users ever constructed get ids 1 and 2 |
| `TaskManagement.Select` | src/TaskManager.ts:57-71 | a filter keeps exactly the tasks that pass it, in their original order |
| `TaskManagement.SelectCounts` | src/TaskManager.ts:57-71 | a filter keeps every task that passes it as many times as the list held it, and drops every task that fails it |
| `TaskManagement.SelectAll` | src/TaskManager.ts:67-70 | a filter that every task passes returns the whole list |
| `TaskManagement.EmptyKeywordKeepsAll` | src/TaskManager.ts:65-71 | filtering by the empty keyword returns every task |
| `TaskManagement.CompletedPendingPartition` | src/TaskManager.ts:57-63 | every task is in exactly one of the completed and pending lists, and the two lengths add up to the whole |
| `TaskManagement.KeywordCaseInsensitive` | src/TaskManager.ts:65-71 | keywords that lower-case alike select the same tasks, and a keyword selects what its lower-cased form selects |
| `TaskManagement.CompleteTwice` | src/TaskManager.ts:41-49 | completing twice has exactly the effect of completing once: the same task is returned both times, only that task's flag is set, and no other field changes |
| `TaskManagement.TaskManager.constructor` | src/TaskManager.ts:9-12 | a new task store holds no tasks and no users |
| `TaskManagement.TaskManager.GetTasks` | src/TaskManager.ts:14-16 | `getTasks` returns the store's task list itself |
| `TaskManagement.TaskManager.GetTaskById` | src/TaskManager.ts:18-20 | `getTaskById` returns none exactly when no task has the id; otherwise it returns the first task with that id |
| `TaskManagement.TaskManager.UserById` | src/TaskManager.ts:75 | the store's own user lookup returns none exactly when none of its users has the id; otherwise it returns one of them with that id |
| `TaskManagement.TaskManager.AddTask` | src/TaskManager.ts:22-27 | the new task is appended at the end and every earlier task stays in place; its id is the old length plus one; it is not completed and has the given title, description and due date |
| `TaskManagement.TaskManager.UpdateTask` | src/TaskManager.ts:29-39 | returns the first task with the id and overwrites its title, description and due date (an omitted due date becomes none); its completion flag and user are kept; every other task is unchanged; a missing id returns none and changes nothing |
| `TaskManagement.TaskManager.CompleteTask` | src/TaskManager.ts:41-49 | returns the first task with the id and marks it completed, keeping its other fields; every other task is unchanged; a missing id returns none and changes nothing |
| `TaskManagement.TaskManager.DeleteTask` | src/TaskManager.ts:51-55 | returns true exactly when some task had the id; afterwards no task has it; the others keep their order; a missing id leaves the list as it was |
| `TaskManagement.TaskManager.GetCompletedTasks` | src/TaskManager.ts:57-59 | returns exactly the completed tasks, in list order |
| `TaskManagement.TaskManager.GetPendingTasks` | src/TaskManager.ts:61-63 | returns exactly the tasks not completed, in list order; its length plus the completed list's length is the number of tasks |
| `TaskManagement.TaskManager.FilterTasksByKeyword` | src/TaskManager.ts:65-71 | returns exactly the tasks whose lower-cased title or description includes the lower-cased keyword, in list order; the empty keyword returns every task |
| `TaskManagement.TaskManager.AssignTaskToUser` | src/TaskManager.ts:73-84 | succeeds exactly when both the task and the user are found in the store's own lists; on success the first task with the id points at the user and is appended to that user's tasks, and nothing else changes; on failure nothing changes; with no users in the store it always fails |
| `TaskManagement.TaskManager.GetUserTasks` | src/TaskManager.ts:86-89 | returns the task list of the store's user with the id, or `[]` when there is none; a store with no users always returns `[]` |
| `UserManagement.UserManager.constructor` | src/UserManager.ts:7-9 | a new user store is empty |
| `UserManagement.UserManager.AddUser` | src/UserManager.ts:11-15 | appends exactly one fresh user at the end, with the given name, no tasks, and the next counter value as id, larger than every id already held; ids stay distinct |
| `UserManagement.UserManager.UpdateUser` | src/UserManager.ts:17-27 | renames the user with the id and returns it, leaving its tasks and every other user unchanged; a missing id returns none and changes nothing |
| `UserManagement.AddUserAcrossStores` | src/User.ts:4-11 | with two stores on one shared counter, a user added to the first gets an id that no user of the second has, the second store is unchanged, and both stay valid |
| `UserManagement.UserManager.RemoveUser` | src/UserManager.ts:29-33 | returns true exactly when a user had the id; then exactly one user is gone, none with the id remains, and the others keep their order; a missing id leaves the list unchanged |
| `UserManagement.UserManager.GetAllUsers` | src/UserManager.ts:35-37 | `getAllUsers` returns the store's user list itself, which `AddUser` keeps in insertion order |
| `UserManagement.UserManager.GetUserById` | src/UserManager.ts:39-41 | returns none exactly when no user has the id; otherwise it returns a user with that id, and the only one when ids are distinct |
| `Scenarios.CompleteFirstOfTwo` | tests/index.test.ts:67-85 | two added tasks get ids 1 and 2; after the first is completed, the completed list is `[first]` and the pending list is `[second]` |
| `Scenarios.TaskIdReuse` | src/TaskManager.ts:22-27 | after adding two tasks and deleting task 1, the next task also gets id 2, and a lookup by 2 finds the older task |
| `Scenarios.AssignFromFreshStore` | tests/index.test.ts:133-144 | assigning from a freshly built task store fails even when the user exists in a user store; the store reports no tasks for that user |
| `Scenarios.UserLifecycle` | tests/index.test.ts:214-248 | adding "alice" gives id 1; looking up 1 finds her; removing 1 succeeds; looking up 1 again finds nobody |
| `Scenarios.UsersAcrossStores` | src/User.ts:4-11 | two user stores that share the counter hand out ids 1, 2, 3 in creation order, never the same id twice; the first store lists its two users and the second its one, each in insertion order |
| `Scenarios.FilterByExactTitle` | tests/index.test.ts:101-107 | filtering by the first task's exact title returns only that task |
| `Scenarios.FilterByPartialKeyword` | tests/index.test.ts:109-123 | filtering by "Test", and by "test task" in another letter case than the titles, returns both tasks in order |
| `Scenarios.FilterByMissingKeyword` | tests/index.test.ts:125-131 | a keyword found in no title or description returns no tasks |

## Left out

- The HTTP adapter (src/UserRoutes.ts) is not modelled. It parses path parameters, builds JSON responses and maps a failed lookup to a 404. All of this is I/O over a library outside the core.
- The server bootstrap and demo script (src/app.ts) are not modelled. They only start a server and log to the console.
- src/Task.ts is not part of this model. The `Task` fields come from the constructor call at src/TaskManager.ts:24 and the `user` write at src/TaskManager.ts:78.
- Task and user ids are `const` fields. No code in the core writes an id after construction.
- The static `User.counter` is an explicit `IdCounter` object. Every `User` construction is given it, and every `UserManager` holds it. The source's single process-wide counter is the case where all stores share one such object.
- Due dates are an opaque `Date` value. The stores only store and return it.
- `Text.Lower`: lower-cases only the ASCII letters A-Z. JavaScript's `toLowerCase` follows full Unicode case mapping, which the model does not capture.
- Ids are unbounded integers. JavaScript numbers, `NaN` and floating-point ids are not modelled. `NaN` only reaches the stores through the HTTP adapter.
- `TaskManagement.TaskManager.GetTasks`: returns the list as a value. The source returns the live array, and a caller that pushes onto it changes the store; the model does not capture that aliasing.
- `UserManagement.UserManager.GetAllUsers`: returns the list as a value, without the live-array aliasing that the source has.
- `TaskManagement.TaskManager.GetUserTasks`: returns the user's task list as a value, without the live-array aliasing that the source has.
- `TaskManagement.TaskManager.AssignTaskToUser`: does not promise that a task appears only once in a user's task list. The code appends on every successful call, so assigning the same task twice lists it twice.
- JSON serialisation, and the task→user→tasks reference cycle it would meet, are not modelled.
- The tests compare objects with Jest's structural `toEqual`. The model compares object identity, which is stronger.
