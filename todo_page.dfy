/** The state of a to-do page (the list, the text in the input box and the
    chosen filter) and what each of its handlers does to it, with the reply of
    the handler's request as a parameter. The unauthenticated page and the
    signed-in home page run these same updates. */
module TodoPage {
  import opened Replies
  import opened Seqs
  import opened JsText
  import opened Todos

  datatype Page = Page(todos: seq<Todo>, input: string, filter: string)

  /** The page as first rendered: no items, an empty input, and filter
      `'all'`, under which every item is shown. */
  function Initial(): (p: Page)
    ensures p.todos == [] && p.input == ""
    ensures p.filter != "active" && p.filter != "completed"
  {
    Page([], "", "all")
  }

  /** `fetchTodos`: the list becomes the server's list; on failure it stays. */
  function FetchTodos(p: Page, reply: Reply<seq<Todo>>): (r: Page)
    ensures r.input == p.input && r.filter == p.filter
    ensures r.todos == if reply.Success? then reply.data else p.todos
  {
    match reply
    case Success(list) => p.(todos := list)
    case Failure => p
  }

  /** The text the add request carries, or `None` when the guard returns
      before any request: the input trimmed, sent only when that is not empty. */
  function AddRequest(input: string): (r: Option<string>)
    ensures r.None? <==> forall k :: 0 <= k < |input| ==> IsJsSpace(input[k])
    ensures r.Some? ==> r.value == Trim(input) && IsTrimmed(r.value)
  {
    var text := Trim(input);
    if text == [] then None else Some(text)
  }

  /** `addTodo`: blank input changes nothing; otherwise a successful request
      puts the server's item in front of the list and empties the input, and a
      failed one changes nothing. */
  function AddTodo(p: Page, reply: Reply<Todo>): (r: Page)
    ensures AddRequest(p.input).None? || reply.Failure? ==> r == p
    ensures AddRequest(p.input).Some? && reply.Success? ==>
      r == p.(todos := [reply.data] + p.todos, input := "")
  {
    if AddRequest(p.input).None? then p
    else match reply
      case Success(item) => p.(todos := [item] + p.todos, input := "")
      case Failure => p
  }

  /** The `completed` value the toggle request sends, or `None` when no item
      carries the id and the handler returns before any request. */
  function ToggleRequest(ts: seq<Todo>, id: Id): (r: Option<bool>)
    ensures r.None? <==> !HasId(ts, id)
    ensures forall i :: 0 <= i < |ts| && ts[i].id == id && (forall j :: 0 <= j < i ==> ts[j].id != id) ==>
      r == Some(!ts[i].completed)
  {
    match FindById(ts, id)
    case None => None
    case Some(t) =>
      assert forall i :: 0 <= i < |ts| && ts[i].id == id && (forall j :: 0 <= j < i ==> ts[j].id != id) ==>
        t == ts[i] by {
        forall i | 0 <= i < |ts| && ts[i].id == id && (forall j :: 0 <= j < i ==> ts[j].id != id)
          ensures t == ts[i]
        {
          FindByIdIsFirst(ts, id, i);
        }
      }
      Some(!t.completed)
  }

  /** `toggleTodo`: an unknown id changes nothing; otherwise a successful
      request puts the server's item in place of every item that carries the
      id, and a failed one changes nothing. */
  function ToggleTodo(p: Page, id: Id, reply: Reply<Todo>): (r: Page)
    ensures !HasId(p.todos, id) || reply.Failure? ==> r == p
    ensures r.input == p.input && r.filter == p.filter
    ensures |r.todos| == |p.todos|
    ensures forall i :: 0 <= i < |p.todos| && p.todos[i].id != id ==> r.todos[i] == p.todos[i]
    ensures reply.Success? ==>
      forall i :: 0 <= i < |p.todos| && p.todos[i].id == id ==> r.todos[i] == reply.data
  {
    if ToggleRequest(p.todos, id).None? then p
    else match reply
      case Success(item) => p.(todos := ReplaceById(p.todos, id, item))
      case Failure => p
  }

  /** `deleteTodo`: after a successful request every item that carries the id
      is gone and every other item is kept, in order; a failed request changes
      nothing. No guard runs before the request. */
  function DeleteTodo(p: Page, id: Id, ok: bool): (r: Page)
    ensures !ok ==> r == p
    ensures r.input == p.input && r.filter == p.filter
    ensures ok ==> forall t | t in r.todos :: t.id != id
    ensures ok ==> forall t :: multiset(r.todos)[t] == if t.id == id then 0 else multiset(p.todos)[t]
    ensures IsSubsequence(r.todos, p.todos)
  {
    WithoutIdRemovesExactly(p.todos, id);
    SubsequenceOfItself(p.todos);
    if ok then p.(todos := WithoutId(p.todos, id)) else p
  }

  /** `clearCompleted`: one delete request per completed item (`ClearRequests`)
      and, only when every one of them succeeds, the list keeps exactly its
      active items, in order, having lost `CompletedCount` items; if any
      request fails the list stays as it was. */
  function ClearCompleted(p: Page, allOk: bool): (r: Page)
    ensures !allOk ==> r == p
    ensures r.input == p.input && r.filter == p.filter
    ensures allOk ==> forall t | t in r.todos :: !t.completed
    ensures allOk ==> forall t | t in p.todos && !t.completed :: multiset(r.todos)[t] == multiset(p.todos)[t]
    ensures allOk ==> |p.todos| - |r.todos| == CompletedCount(p.todos)
    ensures IsSubsequence(r.todos, p.todos)
  {
    ActiveCompletedPartition(p.todos);
    SubsequenceOfItself(p.todos);
    if allOk then
      assert forall t | t in p.todos && !t.completed :: multiset(Active(p.todos))[t] == multiset(p.todos)[t] by {
        forall t | t in p.todos && !t.completed
          ensures multiset(Active(p.todos))[t] == multiset(p.todos)[t]
        {
          FilterCount(p.todos, IsActive, t);
        }
      }
      p.(todos := Active(p.todos))
    else p
  }

  /** A list is a subsequence of itself. */
  lemma {:induction false} SubsequenceOfItself(s: seq<Todo>)
    ensures IsSubsequence(s, s)
    decreases |s|
  {
    if s != [] {
      SubsequenceOfItself(s[1..]);
    }
  }

  /** The events of a to-do page: typing, choosing a filter, and the
      handlers with the outcomes of their requests. */
  datatype Event =
    | Fetched(list: Reply<seq<Todo>>)
    | Typed(text: string)
    | AddClicked(added: Reply<Todo>)
    | Toggled(id: Id, toggled: Reply<Todo>)
    | DeleteClicked(id: Id, deleted: bool)
    | ClearClicked(allDeleted: bool)
    | FilterChosen(filter: string)

  /** The page after one event. */
  function Step(p: Page, e: Event): (r: Page)
    ensures e.Typed? ==> r == p.(input := e.text)
    ensures e.FilterChosen? ==> r == p.(filter := e.filter)
    ensures !e.FilterChosen? ==> r.filter == p.filter
    ensures !e.Typed? && !e.AddClicked? ==> r.input == p.input
    ensures e.Fetched? ==> r == FetchTodos(p, e.list)
    ensures e.AddClicked? ==> r == AddTodo(p, e.added)
    ensures e.Toggled? ==> r == ToggleTodo(p, e.id, e.toggled)
    ensures e.DeleteClicked? ==> r == DeleteTodo(p, e.id, e.deleted)
    ensures e.ClearClicked? ==> r == ClearCompleted(p, e.allDeleted)
  {
    match e
    case Fetched(list) => FetchTodos(p, list)
    case Typed(text) => p.(input := text)
    case AddClicked(added) => AddTodo(p, added)
    case Toggled(id, toggled) => ToggleTodo(p, id, toggled)
    case DeleteClicked(id, deleted) => DeleteTodo(p, id, deleted)
    case ClearClicked(allDeleted) => ClearCompleted(p, allDeleted)
    case FilterChosen(filter) => p.(filter := filter)
  }

  /** What the server is expected to answer: a fetched list with unique ids,
      an added item under an id not yet on the page, and a toggled item under
      the id it was asked to toggle. */
  predicate ServerKeepsIds(p: Page, e: Event) {
    match e
    case Fetched(list) => list.Success? ==> UniqueIds(list.data)
    case AddClicked(added) => added.Success? ==> !HasId(p.todos, added.data.id)
    case Toggled(id, toggled) => toggled.Success? ==> toggled.data.id == id
    case _ => true
  }

  /** Every event keeps the ids on the page unique, as long as the server
      keeps its side. */
  lemma StepKeepsUniqueIds(p: Page, e: Event)
    requires UniqueIds(p.todos) && ServerKeepsIds(p, e)
    ensures UniqueIds(Step(p, e).todos)
  {
    match e
    case AddClicked(added) =>
      if added.Success? && AddRequest(p.input).Some? {
        var ts := [added.data] + p.todos;
        forall i, j | 0 <= i < j < |ts| ensures ts[i].id != ts[j].id {
          if i == 0 {
            assert p.todos[j - 1] in p.todos;
          }
        }
      }
    case Toggled(id, toggled) =>
      if toggled.Success? {
        ReplaceKeepsUniqueIds(p.todos, id, toggled.data);
      }
    case DeleteClicked(id, deleted) =>
      SubsequenceKeepsUniqueIds(Step(p, e).todos, p.todos);
    case ClearClicked(allDeleted) =>
      SubsequenceKeepsUniqueIds(Step(p, e).todos, p.todos);
    case _ =>
  }

  /** A subsequence of a list with unique ids has unique ids. */
  lemma {:induction false} SubsequenceKeepsUniqueIds(a: seq<Todo>, b: seq<Todo>)
    requires IsSubsequence(a, b) && UniqueIds(b)
    ensures UniqueIds(a)
    ensures forall t | t in a :: t in b
    decreases |b|
  {
    if a != [] && b != [] {
      assert forall t | t in b[1..] :: t in b;
      if a[0] == b[0] {
        SubsequenceKeepsUniqueIds(a[1..], b[1..]);
        assert forall t | t in a :: t == a[0] || t in a[1..];
        forall j | 0 < j < |a| ensures a[0].id != a[j].id {
          assert a[j] in a[1..];
          var k :| 1 <= k < |b| && b[k] == a[j];
        }
      } else {
        SubsequenceKeepsUniqueIds(a, b[1..]);
      }
    }
  }

  /** The item the server answers a toggle with when it does what was asked:
      the item with `completed` flipped. */
  function Flipped(t: Todo): (u: Todo)
    ensures u.id == t.id && u.text == t.text && u.completed != t.completed
  {
    t.(completed := !t.completed)
  }

  /** With unique ids and a server that flips what it is asked to flip,
      toggling the same item twice gives back the page it started from. */
  lemma ToggleTwiceRestores(p: Page, i: nat)
    requires UniqueIds(p.todos) && i < |p.todos|
    ensures var id := p.todos[i].id;
      var once := ToggleTodo(p, id, Success(Flipped(p.todos[i])));
      ToggleTodo(once, id, Success(Flipped(once.todos[i]))) == p
  {
    var id := p.todos[i].id;
    assert p.todos[i] in p.todos;
    var once := ToggleTodo(p, id, Success(Flipped(p.todos[i])));
    ReplaceUniqueId(p.todos, i, Flipped(p.todos[i]));
    assert once.todos == p.todos[i := Flipped(p.todos[i])];
    assert UniqueIds(once.todos);
    assert once.todos[i] in once.todos;
    ReplaceUniqueId(once.todos, i, Flipped(once.todos[i]));
  }

  /** Clearing the completed items twice is clearing them once. */
  lemma ClearCompletedIdempotent(p: Page)
    ensures ClearCompleted(ClearCompleted(p, true), true) == ClearCompleted(p, true)
  {
    FilterIdempotent(p.todos, IsActive);
  }

  /** A successful add grows the list by exactly one item and keeps the old
      items, in order, behind it. */
  lemma AddPrepends(p: Page, item: Todo)
    requires AddRequest(p.input).Some?
    ensures |AddTodo(p, Success(item)).todos| == |p.todos| + 1
    ensures AddTodo(p, Success(item)).todos[0] == item
    ensures AddTodo(p, Success(item)).todos[1..] == p.todos
    ensures AddTodo(p, Success(item)).input == ""
  {
  }
}
