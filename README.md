# Task tracker: accounts, per-user tasks, current and completed lists

A model of the request handlers of a small Django task tracker
(`task/views.py`). The model keeps one in-memory store:

- `users`: username to credential. The credential is opaque and compared for
  equality only.
- `tasks`: task id to a `Task` record (owner, title, memo, important,
  `datecompleted`).
- `nextId`: the id the next created task receives.
- `session`: the user the session is logged in as, if any.

A task is *current* while `datecompleted` is `None` and *completed* once it
holds a time. Signup, login, logout, create, update, complete and delete are
methods of the class `Views.Store`. Each method states its whole new state, and
each failed request leaves the store unchanged. Every handler on an existing
task (update, complete, delete) goes through the ownership lookup `Tasks.Lookup`, the model of
`get_object_or_404(Task, pk=..., user=request.user)`. That lookup cannot tell a
task owned by someone else from a task that does not exist.

The two list views are pure functions over the task map. `Tasks.CurrentTasks`
filters a user's tasks with a null completion time. `Tasks.CompletedTasks`
filters the ones with a completion time and sorts them newest first (an
insertion sort proved to give a permutation). Lemmas show the following:

- the two lists partition a user's tasks;
- a user's lists depend only on that user's tasks and their completion times,
  so what other users do never changes them;
- a new task goes to the end of its owner's current list;
- a task owned by someone else is invisible to every lookup and list of the user;
- the lookup succeeds exactly for the ids on the user's two lists.

Layout: `tasks.dfy` (module `Tasks`: the record, the lookup, the lists and
their lemmas), `views.dfy` (module `Views`: the store and its handlers),
`scenarios.dfy` (module `Scenarios`: a client that signs up two users and runs
the handlers, using only their contracts).

Two behaviours worth knowing:

- A completion time might be expected to stay fixed once set. The code
  overwrites it when an already completed task is completed again
  (`task/views.py:88`), and so does the model.
- The current list has no ordering in the code. The model lists current tasks
  in increasing id order.

## Model

| member | source | states |
|---|---|---|
| `Tasks.LookupMatchesLists` | task/views.py:65-102 | the ownership lookup used by view, complete and delete succeeds exactly for the ids on the user's current or completed list |
| `Tasks.CurrentTasks` | task/views.py:67 | an id is listed exactly when it is below the bound and names a task of the user with no completion time; the list is strictly increasing, so no task appears twice |
| `Tasks.CompletedFilter` | task/views.py:101 | an id is kept exactly when it names a task of the user that has a completion time; strictly increasing |
| `Tasks.InsertByDate` | task/views.py:101 | inserting into a newest-first list adds exactly that id (as a multiset) and keeps the list newest first |
| `Tasks.SortNewestFirst` | task/views.py:101 | the result is a permutation of the input whose completion times never increase |
| `Tasks.CompletedTasks` | task/views.py:100-101 | an id is listed exactly when it names a completed task of the user; no id twice; ordered by completion time, newest first |
| `Tasks.ListsPartition` | task/views.py:65-102 | no task is on both lists of a user, and every task the user owns is on one of them |
| `Tasks.ListsSameStatus` | task/views.py:65-102 | two stores that agree on which tasks a user owns and on their completion times give that user the same current and the same completed list |
| `Tasks.CreateAppendsToCurrent` | task/views.py:57-60 | storing a new, not completed task of a user under the next id appends that id to the user's current list and leaves the completed list unchanged |
| `Tasks.CreateLeavesOthers` | task/views.py:57-60 | the same new task leaves both lists of every other user unchanged |
| `Tasks.ForeignTaskInvisible` | task/views.py:65-102 | removing a task owned by someone else changes no lookup and no list of the user |
| `Views.AuthenticateAfterSignup` | task/views.py:20-33 | once an account is stored with a credential, login for that name accepts exactly that credential, and every other name authenticates as before |
| `Views.Store.SignupUser` | task/views.py:17-27 | unequal passwords fail first and change nothing; a taken username fails and keeps the existing credential; otherwise exactly that user is added, can then authenticate with the password, and becomes the session user |
| `Views.Store.LoginUser` | task/views.py:32-38 | login succeeds exactly when the credentials match a user; on success the session is that user, on failure the session is unchanged; nothing else changes |
| `Views.Store.LogoutUser` | task/views.py:40-44 | a POST ends the session; any other method gives no response and changes nothing |
| `Views.Store.CreateTask` | task/views.py:51-63 | a valid form adds exactly one task under a fresh id, owned by the requesting user, with the given fields and no completion time; it is found by the owner's lookup and ends the owner's current list; an invalid form changes nothing; other users' lists never change |
| `Views.Store.UpdateTask` | task/views.py:70-82 | not found when the lookup fails, invalid on a bad form (no change either way); otherwise title, memo and important of that task take the form's values and no list changes |
| `Views.Store.CompleteTask` | task/views.py:84-90 | not found when the lookup fails; on an owned task with POST the completion time becomes `now` even if it was already set, the task leaves the current list and joins the completed one, and no other task changes; a non-POST request changes nothing |
| `Views.Store.DeleteTask` | task/views.py:92-97 | not found when the lookup fails; on an owned task with POST exactly that id is removed and every later lookup of it fails; a non-POST request changes nothing; other users' lists never change |

## Left out

- Template rendering, `redirect`, the static `home` page and the GET branches that only render an empty form (`task/views.py:15-16`, `30-31`, `48-49`, `53-54`). The GET branch of `viewtask` is the lookup `Tasks.Lookup` itself.
- Sessions, cookies and the `@login_required` redirect. The authenticated user of a task request is an explicit parameter. `Views.Store.CreateTask` requires that user to exist, which is what the decorator guarantees. The session field is only set by signup and login and cleared by logout.
- Password hashing in `create_user` and `authenticate`: credentials are compared for equality. `authenticate` also rejects inactive accounts; accounts carry no such flag here.
- Views.Store.SignupUser: usernames are stored and compared exactly as given. `create_user` stores the NFKC-normalised name and the database may compare names under its collation, so a name that differs from an existing one only in Unicode form is reported as taken by the source but accepted by the model, and a new name that is not in NFKC form can no longer authenticate as typed in the source; neither normalisation nor collation is modelled.
- `create_user` raises an uncaught `ValueError` for an empty username. That check is library code, so the model accepts any username.
- Form validation: `TaskForm` lives in `task/forms.py`, which is not part of this model. A form's outcome is a valid/invalid flag plus the values of title, memo and important.
- Views.Store.UpdateTask: assumes the form edits title, memo and important and keeps the owner and the completion time. The form's field list is not part of this model.
- The task model (`task/models.py`) is not part of this model: its creation timestamp and any default ordering are left out. Lists return task ids, and the records are read from the task map.
- Tasks.CurrentTasks: the source leaves the order of the current list to the database; the model fixes increasing id order.
- Tasks.CompletedTasks: tasks completed at the same time may come in any order in the source; the model fixes one order.
- Views.Store.CompleteTask: a non-POST request makes the view return nothing, which Django reports as a server error; the model returns `NoResponse` and changes nothing. The same holds for `Views.Store.DeleteTask` and `Views.Store.LogoutUser`.
- Database persistence, transactions and concurrent requests (two updates of one task: the last write wins). The unique-username `IntegrityError` is a membership test on the user map.
- The clock: `timezone.now()` is the integer parameter `now`, and timestamps need not be distinct.
- The URL table `toggle_task/urls.py` and the admin site: routing configuration with no logic of its own.
- Incident reporting to an external ticketing service: its code is not part of this model.
