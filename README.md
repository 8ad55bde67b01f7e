# In-memory users and tasks of the Vue MVC demo, in Dafny

This project models the model and controller layers of a small Vue.js demo
application built on the Model-View-Controller pattern. It covers three pieces:

- **`User` and `UserStore`** (`users.dfy`). A user is a record with an id, a name,
  an e-mail, a role and an avatar. `updateInfo` edits a user in place. It trims
  its arguments and ignores blank ones. The store keeps an ordered list of users,
  seeded with five example users. It assigns each new user the largest id plus
  one. It accepts a user only when the e-mail matches the pattern
  `^[^\s@]+@[^\s@]+\.[^\s@]+$`. It also removes, looks up, filters and counts
  users by id and by role.
- **`UserController`** (`user_controller.dfy`). It rejects an add whose arguments
  are not all given. It delegates to the store and reports statistics and the
  roles in use. It calls its listeners after every successful add, every update
  of an existing id (even one that changes no field) and every delete.
- **`TaskController`** (`task_controller.dfy`). It works over a task store
  (`tasks.dfy`). It rejects blank task text and toggles a task only when its id
  is found. It asks for confirmation before clearing, filters tasks into active
  and completed, and notifies the same way. The task store's own source
  (`models/Task.js`) is not part of this model. Its behaviour is an assumed
  contract, the one `TaskController` relies on:
  - an ordered list of `{id, text, done}`;
  - a new task gets the largest id plus one (1 when empty) and starts not done;
  - removal keeps the other tasks in order;
  - lookup finds the first task with an id;
  - the counts are taken over `done`;
  - `clearAll` empties the list.

The supporting modules are:

- `text.dfy`: ECMAScript whitespace and `String.prototype.trim`.
- `email.dfy`: the e-mail pattern, defined by where the `@` and the `.` fall, and
  the check that computes it.
- `seqs.dfy`: order-preserving filters, first-occurrence search,
  `Math.max(...xs, 0)` and `Array.from(new Set(xs))`.
- `notify.dfy`: the listener list both controllers keep.

Users and tasks are classes whose mutable fields the methods update in place. A
controller reaches a stored user through the store and changes it there. The id
(and a user's avatar, a task's text) are `const`, because nothing in the code
reassigns them. The stores hold a `seq` field that their methods reassign. Each
store has an invariant, `Valid()`: ids are unique. `Rows()` is the store's
abstract state, the list of record values.

A listener is represented by a handle. Calling it appends the handle to a log
(`calls`), and `rounds` counts notification rounds. So "notified exactly once"
(`NotifiedOnce`: one more round, every registered listener called once, in
order) and "not notified" (`unchanged(listeners)`) can both be stated.

`\s` and `trim()` use the ECMAScript whitespace set, written out in
`Text.IsSpace`:

- tab, LF, VT, FF, CR and space;
- U+00A0 and U+1680;
- U+2000–U+200A;
- U+2028 and U+2029;
- U+202F, U+205F and U+3000;
- U+FEFF.

A JavaScript argument that is `undefined`, `null` or `''` is modelled as the
empty string. Every test in the code (`!x`, `x && x.trim()`) treats these alike.

## Model

| member | source | states |
|---|---|---|
| Text.Trim | models/User.js:21-23 | `trim()` yields the part of the input between its leading and trailing whitespace: an infix with only whitespace around it, with no whitespace at either end, and empty exactly when the input is all whitespace |
| Text.TrimIdempotent | models/User.js:21-23 | trimming a trimmed value changes nothing |
| EmailFormat.IsValidEmail | models/User.js:36-39 | the computed check (split at the first `@`) holds iff the string matches `^[^\s@]+@[^\s@]+\.[^\s@]+$`: a non-empty local part, `@`, and a domain with a `.` that has a non-empty run on each side, no part holding whitespace or another `@` |
| EmailFormat.WithoutAtRejected | models/User.js:36-39 | a string without `@` is refused |
| Users.UpdatedFields | models/User.js:20-24 | `updateInfo` keeps id and avatar; each of name, e-mail and role becomes its trimmed argument exactly when that argument is not blank, and is then non-blank and already trimmed; all-blank arguments change nothing |
| Users.User.constructor | models/User.js:8-15 | a new user holds exactly the given fields |
| Users.User.UpdateInfo | models/User.js:20-24 | the user's new record is the old record edited field by field as `UpdatedFields` describes |
| Users.User.DisplayName | models/User.js:29-31 | the name when it is non-empty, `"Anonymous"` otherwise; never empty |
| Users.User.IsValidEmail | models/User.js:36-39 | holds iff the user's e-mail matches the pattern |
| Users.UserStore.constructor | models/User.js:62-65 | a new store satisfies the unique-id invariant and holds the five seed records |
| Users.UserStore.InitializeDefaultUsers | models/User.js:130-138 | the store holds fresh users whose records are the five seed rows, ids 1 to 5, and the ids are unique |
| Users.DefaultEmailsValid | models/User.js:130-138 | every seeded e-mail passes the format check, although seeding bypasses it |
| Users.UserStore.GenerateId | models/User.js:123-125 | the result is 1 on an empty store and otherwise exceeds every stored id (it is one more than an existing id), so a new id is never a duplicate |
| Seqs.MaxOrZero | models/User.js:124 | `Math.max(...xs, 0)` is non-negative, bounds every element and is 0 or an element |
| Users.UserStore.AddUser | models/User.js:69-76 | with a matching e-mail: returns a fresh user with id `GenerateId()` and the given fields, appended at the end and nothing else changed; otherwise returns null and leaves the list as it was; ids stay unique either way |
| Users.UserStore.RemoveUser | models/User.js:81-83 | the list becomes the users whose id differs, in their order; ids stay unique |
| Users.WithoutId | models/User.js:81-83 | the kept users are an order-preserving subsequence holding exactly the users with another id, and the whole list when the id is absent; `Users.WithoutIdCounts` gives the multiplicities |
| Users.WithoutIdCounts | models/User.js:81-83 | removal by id keeps every occurrence of a user with another id and no occurrence of a user with the id |
| Seqs.Filter | models/User.js:82 | `filter` keeps, in order, exactly the elements that pass, and everything when all pass; `Seqs.FilterCounts` gives the multiplicities |
| Seqs.FilterCounts | models/User.js:82 | `filter` keeps every occurrence of an element that passes and none of one that fails |
| Users.UserStore.GetUser | models/User.js:88-90 | null iff no user holds the id; otherwise the user at the first position whose id is the id |
| Seqs.FirstIndex | models/User.js:89 | the first position holding the value, or the length when it is absent |
| Users.UserStore.UsersByRole | models/User.js:102-104 | an order-preserving subsequence holding exactly the users with that role |
| Users.WithRole | models/User.js:102-104 | the same filter over any list of users, never longer than the list; `Users.WithRoleCounts` gives the multiplicities |
| Users.WithRoleCounts | models/User.js:102-104 | the role filter keeps every occurrence of a user with the role and no occurrence of any other user |
| Users.UserStore.CountByRole | models/User.js:116-118 | equals the length of `UsersByRole(role)` and never exceeds the total count |
| Users.UserStore.ClearAll | models/User.js:143-145 | the list is empty afterwards |
| Users.DistinctRolesBounded | controllers/UserController.js:100-107 | for three different roles, the sizes of the three role groups add up to at most the number of users |
| Notify.Listeners.constructor | controllers/UserController.js:9-12 | a new listener list is empty, with no calls made |
| Notify.Listeners.Subscribe | controllers/UserController.js:17-19 | the listener is appended to the registrations; no call is made |
| Notify.Listeners.NotifyAll | controllers/UserController.js:24-26 | one round: every registered listener is called exactly once, in registration order, and the registrations stay (TaskController.js:17-26 is the same code) |
| Notify.CallsToAppend | controllers/UserController.js:24-26 | calls counted over a log joined to a round add up, so each listener gets as many calls per round as it has subscriptions, and an unsubscribed one gets none |
| UserControl.UserController.constructor | controllers/UserController.js:9-12 | the controller holds the given store and a fresh, empty listener list |
| UserControl.UserController.HandleAddUser | controllers/UserController.js:32-45 | an empty argument gives null with no change and no notification; a refused e-mail gives null with no change and no notification; otherwise the appended user with the next id is returned and listeners are notified once |
| UserControl.RejectedAddress | controllers/UserController.js:32-45 | on the seeded store, adding `'A', 'not-an-email', 'Developer', 'A'` returns null and the total in the statistics stays the same |
| UserControl.UserController.HandleDeleteUser | controllers/UserController.js:51-54 | the list becomes the users with another id, and listeners are notified once whether or not a user was removed |
| UserControl.UserController.HandleUpdateUser | controllers/UserController.js:60-70 | the list of user objects is the same; the records become `UpdateById` of the old records (the first user with the id is edited in place, every other record unchanged); null and no notification iff no user has the id; otherwise the edited user, with that id, and one notification |
| Users.UpdateById | controllers/UserController.js:60-70 | edits the records by id: length and ids kept, and every record with another id unchanged |
| Users.UpdateByIdAt | controllers/UserController.js:60-70 | the record edited is the one at the first position holding the id, and nothing changes when no record holds it |
| Users.UpdateByIdTwice | controllers/UserController.js:60-70 | sending the same edit twice leaves what sending it once left |
| UserControl.UserController.GetUserStats | controllers/UserController.js:100-107 | total is the store's size; each role figure is the size of that role's group; developers + designers + managers never exceed total |
| UserControl.UserController.GetAvailableRoles | controllers/UserController.js:113-117 | no role twice; every role listed is some user's role and every user's role is listed; roles come in the order they first occur |
| Seqs.Distinct | controllers/UserController.js:115-116 | `Array.from(new Set(xs))`: no duplicates, the same members as the input, in first-occurrence order |
| UserControl.UserController.ValidateEmail | controllers/UserController.js:123-126 | holds iff the argument matches the e-mail pattern |
| UserControl.ValidateEmailAgrees | controllers/UserController.js:123-126 | the controller's check and `User.isValidEmail` agree on a user's own address |
| Tasks.Task.constructor | controllers/TaskController.js:37 | a new task holds the given id and text and is not done (assumed store contract) |
| Tasks.Task.ToggleDone | controllers/TaskController.js:58 | `done` flips; id and text stay |
| Tasks.TaskStore.constructor | app.js:16 | a store with nothing saved starts empty and valid (assumed store contract) |
| Tasks.TaskStore.NextId | controllers/TaskController.js:37 | 1 on an empty store, otherwise above every stored id (assumed store contract) |
| Tasks.TaskStore.AddTask | controllers/TaskController.js:37 | appends one fresh, not-done task with the next id, above every earlier id, and keeps ids unique (assumed store contract) |
| Tasks.TaskStore.RemoveTask | controllers/TaskController.js:47 | keeps exactly the tasks with another id, in order, and keeps ids unique (assumed store contract) |
| Tasks.WithoutId | controllers/TaskController.js:47 | the kept tasks are an order-preserving subsequence holding exactly the tasks with another id, and the whole list when the id is absent (assumed store contract) |
| Tasks.WithoutIdCounts | controllers/TaskController.js:47 | removal by id keeps every occurrence of a task with another id and no occurrence of a task with the id (assumed store contract) |
| Tasks.TaskStore.GetTask | controllers/TaskController.js:56 | null iff no task holds the id; otherwise the first task with it (assumed store contract) |
| Tasks.TaskStore.CompletedCount | controllers/TaskController.js:79 | the number of done tasks, at most the total (assumed store contract) |
| Tasks.TaskStore.RemainingCount | controllers/TaskController.js:80 | the number of tasks not done, which is the total less the completed count (assumed store contract) |
| Tasks.TaskStore.ClearAll | controllers/TaskController.js:90 | the list is empty afterwards (assumed store contract) |
| TaskControl.TaskController.constructor | controllers/TaskController.js:9-12 | the controller holds the given store and a fresh, empty listener list |
| TaskControl.TaskController.HandleAddTask | controllers/TaskController.js:32-40 | blank text (empty or only whitespace) gives null with no change and no notification; other text appends one new, not-done task with the next id and notifies once |
| TaskControl.TaskController.HandleDeleteTask | controllers/TaskController.js:46-49 | the list becomes the tasks with another id, and listeners are notified once even when the id is absent |
| TaskControl.TaskController.HandleToggleTask | controllers/TaskController.js:55-62 | the list of task objects is the same; the records become `ToggleById` of the old records (only the first task with the id flips); one notification when the id is present, none otherwise |
| Tasks.ToggleById | controllers/TaskController.js:55-62 | flips records by id: length, ids and texts kept, every record with another id unchanged |
| Tasks.ToggleByIdAt | controllers/TaskController.js:55-62 | the record flipped is the one at the first position holding the id, and nothing changes when no record holds it |
| Tasks.ToggleByIdTwice | controllers/TaskController.js:55-62 | toggling the same id twice restores every record |
| TaskControl.TaskController.GetTaskStats | controllers/TaskController.js:76-82 | total, completed and remaining are the store's size, the done tasks and the tasks not done; completed + remaining = total |
| TaskControl.TaskController.HandleClearAllTasks | controllers/TaskController.js:88-95 | when confirmed: returns true, the store is empty and listeners are notified once; otherwise returns false with no change and no notification |
| TaskControl.TaskController.GetFilteredTasks | controllers/TaskController.js:101-112 | `"active"` gives exactly the tasks not done and `"completed"` exactly the done ones, each an order-preserving subsequence; every other value gives the whole list |
| Tasks.Active | controllers/TaskController.js:106 | an order-preserving subsequence holding exactly the tasks not done |
| Tasks.Completed | controllers/TaskController.js:108 | an order-preserving subsequence holding exactly the done tasks |
| Tasks.ActiveCompletedPartition | controllers/TaskController.js:105-108 | active and completed tasks together are all tasks, each exactly as often as in the list, so their sizes add up to the total |
| TaskControl.FilteredPartition | controllers/TaskController.js:101-112 | the `"active"` and `"completed"` views partition `getAllTasks()` |
| TaskControl.BuyMilk | controllers/TaskController.js:32-82 | on an empty store, adding "Buy milk" gives stats (1, 0, 1), toggling task 1 gives (1, 1, 0), and deleting task 1 gives (0, 0, 0) |

## Left out

- `models/Task.js` is not part of this model. The task store in `tasks.dfy` is an assumed contract, the one `TaskController` relies on. Persistence is not modelled: `saveToLocalStorage`, loading a snapshot at construction, and the snapshot round trip.
- `window.confirm` is host interaction. `HandleClearAllTasks` takes its answer as the parameter `confirmed`.
- `createdAt = new Date()` and `toJSON` are left out. They concern the wall clock and serialisation.
- Listeners are closures in the code. Here a listener is a handle, and calling it is recorded in a log. What a listener does when called, including any call back into the controller, is not modelled.
- The views (`views/components.js`) and the wiring in `app.js` are UI and framework plumbing.
- The controller pass-throughs `getAllUsers`, `getUser` and `getUsersByRole` (UserController.js:76-94) and `getAllTasks` (TaskController.js:68-70) are not modelled as members of their own. Clients use the store members they forward to (`GetAllUsers`, `GetUser`, `UsersByRole`, `GetAllTasks`).
- `GetAllUsers`, `GetAllTasks` and `TotalCount` are plain accessors without contracts of their own. A Dafny `seq` is a value, so the defensive copy `[...this.users]` needs nothing.
- `getFilteredTasks()` called with no argument defaults to `'all'`. Dafny has no default arguments; that call is `GetFilteredTasks("all")`, which falls in the "every other value" case.
- Strings are sequences of Unicode scalar values, not UTF-16 code units. Lone surrogates are therefore not represented.
- `undefined`, `null` and non-string arguments are modelled as the empty string. A non-string truthy argument (for which `.trim()` would throw) is not represented.
- Ids are unbounded integers. Number precision above 2^53 and the argument-count limit of `Math.max(...ids)` are not modelled.
- `id` and `avatar` (User) and `id` and `text` (Task) are `const`. Nothing in the code reassigns them, but JavaScript would allow it.
- `HandleAddUser`, `HandleDeleteUser`, `HandleUpdateUser`, and the task handlers and store methods require the unique-id invariant `Valid()` of the store. Every constructor and mutator establishes it, but a store whose list was assigned from outside is not covered.
