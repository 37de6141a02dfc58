# To-do pages, registration form and admin dashboard: a verified model

This project models the client-side state logic of a small task-tracking web
application written in React. Four pages hold that logic:

- the signed-in home page (`src/pages/Home.jsx`), which keeps a user's to-do
  list;
- an unauthenticated prototype of the same page (`src/App.jsx`);
- the registration form (`src/pages/Register.jsx`);
- the admin dashboard (`src/pages/AdminDashboard.jsx`), which lists users and
  blocks or unblocks them.

Every state change on these pages replaces the whole value, with a reply, a
literal, a spread, a `map` or a `filter`, and none mutates a value in place.
Derived values are filters, lengths and conditionals. So the model is pure: datatypes for the state, and functions from the old state to
the new one. The reply of each HTTP request is a parameter: a response body
or a failure that the handler's `catch` swallowed. Lemmas relate the
operations to one another and to the invariants they keep.

Modules:

- `Seqs` (`seqs.dfy`): JavaScript `filter` and `map` on sequences, a
  subsequence predicate, and the facts about them: what a filter keeps, how
  often, and in what order; that a filter and its complement partition a
  sequence; that a filter distributes over concatenation.
- `JsText` (`js_text.dfy`): `String.prototype.trim` over the exact
  ECMAScript white-space set, and `length` counted in UTF-16 code units. A
  Dafny `char` is a Unicode scalar value, so a character above U+FFFF counts
  twice.
- `Replies` (`replies.dfy`): `Option`, the request outcome `Reply`, and the
  signed-in user held by the authentication context.
- `Todos` (`todos.dfy`): the `Todo(id, text, completed)` item and the list
  operations the handlers are made of: find by id, replace by id, delete by
  id, the active, completed and visible items, and the counts.
- `TodoPage` (`todo_page.dfy`): the page state (list, input text, filter) and
  its handlers: fetch, add, toggle, delete, clear completed. `Step` runs one
  page event. Both to-do pages run these same updates. `src/App.jsx` repeats
  the handlers of `src/pages/Home.jsx` expression for expression, apart from
  the authorization header and the endpoint paths. So the handlers are
  defined once, and the table cites `src/App.jsx` for them.
- `HomePage` (`home_page.dfy`): the user guard of the signed-in page, its
  mount effect, and what it renders.
- `Register` (`register.dfy`): the ordered validation guards, the submit
  outcome, the server-error fallback and the password-strength indicator.
- `AdminDashboard` (`admin_dashboard.dfy`): the admin-only mount guard, the
  block/unblock table update, and the Status and Action cells.

Some behaviour rests on the server, which is not part of this repository. The
model takes the client's side of it:

- Toggle returns before sending anything when the id is not on the page.
  Delete sends its request unguarded, so the server is expected to answer an
  unknown id with an error, which the client swallows.
- Clear-completed waits for all its deletions together and changes the list
  only if every one succeeded. It does not count or report how many the
  server removed.
- A new task is whatever item the server returns for the add request. The
  client neither sets nor checks its `completed` field or its id.
- Duplicate e-mail checks, blocked-account denial, task ownership, and the
  rule that an admin cannot be blocked are left to the server. On the client,
  the only protection for admin rows is that they get no Block button.
- The registration minimum of 6 is checked against the JavaScript length,
  which counts UTF-16 code units.

## Model

| member | source | states |
|---|---|---|
| `JsText.Trim` | src/pages/Home.jsx:36 | the trimmed text is empty exactly when every character of the input is ECMAScript white space, and otherwise starts and ends with a character that is not |
| `JsText.TrimKeepsMiddle` | src/pages/Home.jsx:44 | the trimmed text is the run of the input that starts where its leading white space ends |
| `JsText.TrimRemovesOnlySpace` | src/pages/Home.jsx:44 | every character before and after that run is ECMAScript white space |
| `JsText.TrimUnique` | src/pages/Home.jsx:44 | any run left by cutting only white space from the two ends, and empty or not starting or ending with white space, is the trimmed text |
| `JsText.Utf16Length` | src/pages/Register.jsx:30 | a string's JavaScript length lies between its number of characters and twice that, and is zero only for the empty string |
| `JsText.Utf16LengthCounts` | src/pages/Register.jsx:30 | a string's JavaScript length is its number of characters plus the number of its characters above U+FFFF |
| `JsText.Utf16LengthOfBmp` | src/pages/Register.jsx:30 | on text without characters above U+FFFF, the JavaScript length is the number of characters |
| `Todos.FindById` | src/pages/Home.jsx:55 | `find` gives nothing exactly when no item carries the id, and otherwise an item of the list that carries it |
| `Todos.FindByIdIsFirst` | src/pages/Home.jsx:55 | `find` gives the first item that carries the id |
| `Todos.ReplaceById` | src/pages/Home.jsx:67 | the `map` keeps the length, puts the reply at every position whose item carries the id, and leaves every other position as it was |
| `Todos.ReplaceUnknownId` | src/pages/Home.jsx:67 | replacing by an id no item carries leaves the list unchanged |
| `Todos.ReplaceUniqueId` | src/pages/Home.jsx:67 | with unique ids, replacing by item i's id changes position i and nothing else |
| `Todos.ReplaceKeepsUniqueIds` | src/pages/Home.jsx:67 | a reply carrying the same id keeps every position's id and keeps the ids unique |
| `Todos.WithoutIdRemovesExactly` | src/pages/Home.jsx:79 | the delete `filter` leaves no item with the id, keeps every other item exactly as often as it occurred, and keeps their order |
| `Todos.WithoutId` | src/pages/Home.jsx:79 | the delete `filter` is no longer than the list and holds no item with the id; `WithoutIdRemovesExactly` states exactly what it keeps |
| `Todos.WithoutUnknownId` | src/pages/Home.jsx:79 | deleting an id no item carries leaves the list unchanged |
| `Todos.WithoutUniqueId` | src/pages/Home.jsx:79 | with unique ids, deleting item i's id gives the list with exactly position i cut out |
| `Todos.ActiveCompletedPartition` | src/App.jsx:88-90 | active items are all not completed and completed items all completed; each is in list order; together they hold every item exactly as often as the list; total = active + completed |
| `Todos.Active` | src/pages/Home.jsx:96 | every item kept by the not-completed `filter` is not completed; `ActiveCompletedPartition` states what it keeps and in what order |
| `Todos.Completed` | src/pages/Home.jsx:86 | every item kept by the completed `filter` is completed; `ActiveCompletedPartition` states what it keeps and in what order |
| `Todos.TotalCount` | src/App.jsx:88 | the list's length is the number of active items plus the number of completed items |
| `Todos.ActiveCount` | src/App.jsx:89 | the number of active items is at most the list's length |
| `Todos.CompletedCount` | src/App.jsx:90 | the number of completed items is at most the list's length; `CompletedCountPositive` states when it is positive |
| `Todos.ActiveOfAllActive` | src/pages/Home.jsx:96 | on a list without completed items, keeping the active items keeps the list whole, and the completed count is 0 |
| `Todos.CompletedCountPositive` | src/pages/Home.jsx:113 | the completed count is positive exactly when some item is completed |
| `Todos.ViewAgreesWithFilter` | src/App.jsx:82-86 | the visible items keep list order; they are the active items under `'active'`, the completed items under `'completed'`, and the whole list under any other filter value |
| `Todos.View` | src/App.jsx:82-86 | the visible items are no more than the list and each is one the filter shows; `ViewAgreesWithFilter` states which they are |
| `Todos.ClearRequests` | src/pages/Home.jsx:86-95 | clear-completed sends one delete per completed item, for that item's id, in list order; there are as many requests as the completed count |
| `TodoPage.Initial` | src/App.jsx:8-10 | the page starts with no items, an empty input, and a filter that shows every item |
| `TodoPage.FetchTodos` | src/App.jsx:17-24 | a fetched list replaces the page's list; a failed fetch keeps it; input and filter are untouched |
| `TodoPage.AddRequest` | src/App.jsx:27-32 | no request is sent exactly when the input is all white space; otherwise the text sent is the trimmed input, which is non-empty and neither starts nor ends with white space |
| `TodoPage.AddTodo` | src/App.jsx:26-38 | blank input or a failed request leaves the page unchanged; a successful add puts the server's item in front of the old list and empties the input |
| `TodoPage.AddPrepends` | src/App.jsx:33-34 | a successful add grows the list by exactly one, the new item first and the old items behind it in their order, and clears the input |
| `TodoPage.ToggleRequest` | src/App.jsx:41-47 | no request is sent exactly when no item carries the id; otherwise it asks for the negation of the first matching item's `completed` |
| `TodoPage.ToggleTodo` | src/App.jsx:40-52 | an unknown id or a failed request leaves the page unchanged; otherwise length and order are kept, every item with the id becomes the reply, and every other item stays |
| `TodoPage.DeleteTodo` | src/App.jsx:54-61 | a failed request changes nothing; a successful one removes every item with the id and keeps every other item exactly as often and in order |
| `TodoPage.ClearCompleted` | src/App.jsx:63-76 | if any deletion fails the page is unchanged; if all succeed, no completed item is left, every active item is kept as often as before and in order, and exactly the completed count of items is gone |
| `TodoPage.ClearCompletedIdempotent` | src/App.jsx:72 | clearing completed items a second time changes nothing more |
| `TodoPage.ToggleTwiceRestores` | src/App.jsx:45-48 | with unique ids and a server that flips what it is asked to flip, toggling the same item twice restores the page |
| `TodoPage.StepKeepsUniqueIds` | src/App.jsx:17-76 | every page event keeps the ids on the page unique, provided fetched lists have unique ids, an added item has a new id, and a toggled item keeps its id |
| `TodoPage.Step` | src/App.jsx:104-127 | typing replaces only the input and a filter button replaces only the filter; no other event changes the filter, and only typing and a successful add change the input; each of the other events runs the handler of that name: fetch, add, toggle, delete or clear completed |
| `HomePage.OnMount` | src/pages/Home.jsx:15-21 | the mount effect redirects to the login page exactly when there is no user, and requests the list exactly when there is one |
| `HomePage.Render` | src/pages/Home.jsx:115-167 | without a user nothing is rendered; with one the page greets the user and shows the admin link only to an admin; the filter bar appears only when there are items; the listed items agree with the filter; clear-completed appears, with the completed count, exactly when some item is completed |
| `HomePage.HomeStep` | src/pages/Home.jsx:35-100 | without a user no event changes the page; with one the page handlers apply |
| `HomePage.HomeStepKeepsUniqueIds` | src/pages/Home.jsx:47-96 | signed in or not, no event breaks the uniqueness of ids on the page while the server keeps its side |
| `Register.ValidationError` | src/pages/Register.jsx:25-33 | submission passes the guards exactly when the passwords agree and have at least 6 code units; a mismatch gives "Passwords do not match" whatever the length; a short matching password gives the minimum-length message |
| `Register.FailureMessage` | src/pages/Register.jsx:42 | the shown error is the server's error text when present and non-empty, otherwise the fixed fallback; it is never empty |
| `Register.HandleSubmit` | src/pages/Register.jsx:20-46 | the request, carrying the e-mail and password, is sent exactly when validation passes; the user is signed in exactly when it is sent and succeeds; an error is shown exactly when no one is signed in, and it is the guard's message when a guard stopped the submission, and the server's error or the fallback (`FailureMessage`) when the server refused |
| `Register.SubmitsOnlyValidPasswords` | src/pages/Register.jsx:25-35 | a request goes out exactly when the passwords are equal and at least 6 long; the mismatch check comes before the length check |
| `Register.PasswordStrength` | src/pages/Register.jsx:66-71 | the indicator is one of the four values, and empty exactly for an empty password |
| `Register.StrengthBands` | src/pages/Register.jsx:66-71 | the indicator is empty at length 0, Weak from 1 to 5, Medium from 6 to 9 and Strong from 10 on |
| `Register.StrengthMonotone` | src/pages/Register.jsx:66-71 | a password that is not shorter never rates lower |
| `Register.SubmittedPasswordIsNotWeak` | src/pages/Register.jsx:30-70 | every password that passes validation rates Medium or Strong |
| `AdminDashboard.OnMount` | src/pages/AdminDashboard.jsx:13-19 | the user list is requested exactly for a signed-in admin; an absent user or any other role is redirected |
| `AdminDashboard.FetchUsers` | src/pages/AdminDashboard.jsx:21-31 | a fetched list replaces the table; a failed fetch keeps it |
| `AdminDashboard.ToggleBlockUser` | src/pages/AdminDashboard.jsx:33-47 | a failed request changes nothing; otherwise the length is kept, rows with another id are unchanged, and each row with the id gets `isBlocked` set to the negation of the passed status, keeping its id, e-mail and role |
| `AdminDashboard.StatusLabel` | src/pages/AdminDashboard.jsx:67 | the Status cell reads "Blocked" exactly when the user is blocked, and "Active" otherwise |
| `AdminDashboard.BlockAction` | src/pages/AdminDashboard.jsx:69-72 | a button appears exactly on rows whose role is not admin; it reads "Unblock" for a blocked user and "Block" otherwise |
| `AdminDashboard.ClickBlock` | src/pages/AdminDashboard.jsx:70 | a click on row i passes that row's id and status: a failed request keeps the table, a successful one flips row i's `isBlocked` and keeps its other fields; `ClickFlipsOne` states that no other row changes |
| `AdminDashboard.ClickFlipsOne` | src/pages/AdminDashboard.jsx:43 | with unique ids, a successful click flips `isBlocked` of the clicked row only and keeps its other fields; a failed click changes nothing; admin rows never change |
| `AdminDashboard.ClickTwiceRestores` | src/pages/AdminDashboard.jsx:43 | with unique ids, clicking the same row twice successfully restores the table |

## Left out

- HTTP requests: the axios calls, the bearer header, `API_URL` and the
  endpoint paths are not modelled. What a request returns is a parameter
  (`Reply`, `RegisterReply`, or a success flag where the body is unused).
- Lone surrogates: a JavaScript string is a sequence of UTF-16 code units and
  may hold an unpaired surrogate, while a Dafny `string` holds Unicode scalar
  values and cannot. Input with a lone surrogate cannot be represented. On
  such input `trim` keeps the surrogate and `length` counts it as 1.
- React plumbing: hooks, effect scheduling, navigation and JSX are not
  modelled. The mount effects are returned as values (`Mount`). Of the
  rendered output, the model covers the signed-in home page's `Screen`, the
  admin table's Status and Action cells, and the registration form's
  password-strength indicator. The render of `src/App.jsx` is not modelled
  separately; it shows its filter bar and clear-completed button under the
  same conditions as the home page.
- Clear-completed concurrency: its deletions run concurrently under
  `Promise.all`, and the model collapses them into one all-or-nothing flag.
  When some deletions succeed on the server and another fails, the page keeps
  items the server no longer has. The model does not represent server state,
  so that divergence is not captured.
- Stale closures: toggle, delete and clear-completed read the list as it was
  when the page last rendered, while add uses a functional update. The admin
  dashboard's `toggleBlockUser` likewise maps over the `users` captured at
  render. The model
  applies every update to the current page, so interleavings of overlapping
  requests are not captured.
- TodoPage.ToggleTwiceRestores: holds only for a server that answers a
  toggle with the item flipped. The client never checks the reply and shows
  whatever the server returns.
- TodoPage.StepKeepsUniqueIds: holds only for a server that sends lists with
  unique ids, gives an added item a new id, and keeps a toggled item's id.
  The client checks none of this.
- Register.HandleSubmit: models the submit handler, not the form around it.
  The browser does not fire `onSubmit` when the e-mail field is empty or not
  e-mail-shaped (`type="email"`, `required`), or when either password field
  is empty (`required`), so `handleSubmit` never runs in those cases. The
  model sends a request for an empty e-mail and reports a mismatch for an
  empty confirmation; its "exactly when" clauses hold of the handler, not of
  the form.
- Register.FailureMessage: models the server's `error` field as an optional
  string. A truthy non-string value in that field is not modelled.
- Register's `loading` flag is not modelled. It is set while a request is
  pending and disables the inputs, the submit button and the admin-login
  button, so a second submission cannot start before the first one ends. The
  model has no overlapping submissions: each submission runs to its outcome.
- The show/hide password toggles are not modelled. They change only how the
  fields are displayed.
- `handleAdminLogin` in `src/pages/Register.jsx` is not modelled. It is a
  fixed-credential login request.
- `src/pages/Login.jsx` is not part of this model. It consists of requests and
  an error fallback.
- `src/components/LoadingSpinner.jsx` is not part of this model. It selects a
  class name and holds unrelated server start-up code.
- The authentication context (`src/context/AuthContext`) is not part of this
  model. Its user is a parameter (`Option<SessionUser>`).
- Server-side authentication, token verification, task ownership and the
  rule that an admin cannot be blocked are not modelled. That code is not
  part of this repository's client.
- The local-storage prototype under `Desktop/Internship/To-Do List/` is not
  part of this model.
- Console logging in the `catch` blocks is not modelled. It changes no state.
