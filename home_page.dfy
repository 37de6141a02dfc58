/** The signed-in home page: the to-do page guarded by the user held in the
    authentication context. Without a user it sends the browser to the login
    page and renders nothing; with one it shows the list and runs the to-do
    handlers, each request carrying the user's token. */
module HomePage {
  import opened Replies
  import opened Seqs
  import opened Todos
  import opened TodoPage

  /** What the mount effect does. */
  datatype Mount = RedirectToLogin | LoadTodos

  /** The mount effect: no user means a redirect to the login page and no
      request for the list. */
  function OnMount(user: Option<SessionUser>): (m: Mount)
    ensures m == RedirectToLogin <==> user.None?
    ensures m == LoadTodos <==> user.Some?
  {
    if user.None? then RedirectToLogin else LoadTodos
  }

  /** What the page renders: nothing, or the list screen with the parts whose
      presence depends on the state. */
  datatype Screen =
    | Blank
    | Tasks(email: string, adminLink: bool, filterBar: bool, items: seq<Todo>, clearButton: Option<nat>)

  /** The rendered page. Without a user it is blank. With one it greets the
      user, links to the admin page only for an admin, offers the filter bar
      only when there are items, lists the items the filter shows, and offers
      clear-completed, with the number it would clear, only when some item is
      completed. */
  function Render(user: Option<SessionUser>, p: Page): (s: Screen)
    ensures s.Blank? <==> user.None?
    ensures s.Tasks? ==> s.email == user.value.email
    ensures s.Tasks? ==> (s.adminLink <==> user.value.role == "admin")
    ensures s.Tasks? ==> (s.filterBar <==> p.todos != [])
    ensures s.Tasks? ==> IsSubsequence(s.items, p.todos)
    ensures s.Tasks? && p.filter == "active" ==> s.items == Active(p.todos)
    ensures s.Tasks? && p.filter == "completed" ==> s.items == Completed(p.todos)
    ensures s.Tasks? && p.filter != "active" && p.filter != "completed" ==> s.items == p.todos
    ensures s.Tasks? ==> (s.clearButton.Some? <==> exists t | t in p.todos :: t.completed)
    ensures s.Tasks? && s.clearButton.Some? ==> s.clearButton.value == CompletedCount(p.todos)
  {
    ViewAgreesWithFilter(p.todos, p.filter);
    CompletedCountPositive(p.todos);
    match user
    case None => Blank
    case Some(u) =>
      var completedCount := CompletedCount(p.todos);
      Tasks(u.email, u.role == "admin", TotalCount(p.todos) > 0, View(p.todos, p.filter),
            if completedCount > 0 then Some(completedCount) else None)
  }

  /** The page after an event. With a user, the to-do handlers run. Without
      one nothing is rendered, so no input, checkbox or button exists to raise
      an event, and a handler that did run would throw while building its
      authorization header inside its `try` and change nothing. */
  function HomeStep(user: Option<SessionUser>, p: Page, e: Event): (r: Page)
    ensures user.None? ==> r == p
    ensures user.Some? ==> r == Step(p, e)
  {
    if user.None? then p else Step(p, e)
  }

  /** Signed in or not, no event breaks the uniqueness of the ids on the
      page while the server keeps its side. */
  lemma HomeStepKeepsUniqueIds(user: Option<SessionUser>, p: Page, e: Event)
    requires UniqueIds(p.todos) && ServerKeepsIds(p, e)
    ensures UniqueIds(HomeStep(user, p, e).todos)
  {
    if user.Some? {
      StepKeepsUniqueIds(p, e);
    }
  }
}
