/** The to-do list as both to-do pages hold it, and the list operations their
    handlers and their derived values are made of: `find`, the `map` that
    swaps in a server reply, the `filter`s that delete by id, keep the active
    items, keep the completed items and select the visible items, and the
    counts. */
module Todos {
  import opened Replies
  import opened Seqs

  /** The server's identifier of a to-do item (its `_id`). */
  type Id = string

  datatype Todo = Todo(id: Id, text: string, completed: bool)

  predicate IsActive(t: Todo) { !t.completed }

  predicate IsCompleted(t: Todo) { t.completed }

  /** Some item of `ts` carries `id`. */
  predicate HasId(ts: seq<Todo>, id: Id) {
    exists t | t in ts :: t.id == id
  }

  /** No two items of `ts` carry the same id. */
  predicate UniqueIds(ts: seq<Todo>) {
    forall i, j | 0 <= i < j < |ts| :: ts[i].id != ts[j].id
  }

  /** `ts.find(t => t._id === id)`. */
  function FindById(ts: seq<Todo>, id: Id): (r: Option<Todo>)
    ensures r.None? <==> !HasId(ts, id)
    ensures r.Some? ==> r.value in ts && r.value.id == id
    decreases |ts|
  {
    if ts == [] then None
    else if ts[0].id == id then Some(ts[0])
    else
      var r := FindById(ts[1..], id);
      assert forall t | t in ts[1..] :: t in ts;
      assert HasId(ts, id) ==> HasId(ts[1..], id) by {
        if HasId(ts, id) {
          var t :| t in ts && t.id == id;
          assert t in ts[1..] by { assert t != ts[0]; }
        }
      }
      r
  }

  /** `find` returns the first item that carries the id. */
  lemma {:induction false} FindByIdIsFirst(ts: seq<Todo>, id: Id, i: nat)
    requires i < |ts| && ts[i].id == id
    requires forall j :: 0 <= j < i ==> ts[j].id != id
    ensures FindById(ts, id) == Some(ts[i])
    decreases i
  {
    if i > 0 {
      FindByIdIsFirst(ts[1..], id, i - 1);
    }
  }

  /** `ts.map(t => (t._id === id ? reply : t))`: every item that carries `id`
      is replaced by `reply`; all others stay, in place. */
  function ReplaceById(ts: seq<Todo>, id: Id, reply: Todo): (r: seq<Todo>)
    ensures |r| == |ts|
    ensures forall i :: 0 <= i < |ts| && ts[i].id == id ==> r[i] == reply
    ensures forall i :: 0 <= i < |ts| && ts[i].id != id ==> r[i] == ts[i]
  {
    Map(ts, (t: Todo) => if t.id == id then reply else t)
  }

  /** Replacing by an id that no item carries changes nothing. */
  lemma ReplaceUnknownId(ts: seq<Todo>, id: Id, reply: Todo)
    requires !HasId(ts, id)
    ensures ReplaceById(ts, id, reply) == ts
  {
    var r := ReplaceById(ts, id, reply);
    forall i | 0 <= i < |ts| ensures r[i] == ts[i] {
      assert ts[i] in ts;
    }
  }

  /** With unique ids, replacing by the id of item `i` replaces that one item. */
  lemma ReplaceUniqueId(ts: seq<Todo>, i: nat, reply: Todo)
    requires UniqueIds(ts) && i < |ts|
    ensures ReplaceById(ts, ts[i].id, reply) == ts[i := reply]
  {
  }

  /** A reply that keeps the id keeps the ids unique. */
  lemma ReplaceKeepsUniqueIds(ts: seq<Todo>, id: Id, reply: Todo)
    requires UniqueIds(ts) && reply.id == id
    ensures UniqueIds(ReplaceById(ts, id, reply))
    ensures forall i :: 0 <= i < |ts| ==> ReplaceById(ts, id, reply)[i].id == ts[i].id
  {
  }

  /** `ts.filter(t => t._id !== id)`. */
  function WithoutId(ts: seq<Todo>, id: Id): (r: seq<Todo>)
    ensures |r| <= |ts|
    ensures forall t | t in r :: t.id != id
  {
    FilterKeeps(ts, (t: Todo) => t.id != id);
    Filter(ts, (t: Todo) => t.id != id)
  }

  /** Deleting by id removes every item that carries the id and keeps every
      other item, as often as it occurs and in its original order. */
  lemma WithoutIdRemovesExactly(ts: seq<Todo>, id: Id)
    ensures forall t | t in WithoutId(ts, id) :: t.id != id
    ensures forall t :: multiset(WithoutId(ts, id))[t] == if t.id == id then 0 else multiset(ts)[t]
    ensures IsSubsequence(WithoutId(ts, id), ts)
  {
    FilterKeeps(ts, (t: Todo) => t.id != id);
    FilterIsSubsequence(ts, (t: Todo) => t.id != id);
    forall t ensures multiset(WithoutId(ts, id))[t] == if t.id == id then 0 else multiset(ts)[t] {
      FilterCount(ts, (t: Todo) => t.id != id, t);
    }
  }

  /** Deleting an id that no item carries leaves the list as it is. */
  lemma WithoutUnknownId(ts: seq<Todo>, id: Id)
    requires !HasId(ts, id)
    ensures WithoutId(ts, id) == ts
  {
    FilterAll(ts, (t: Todo) => t.id != id);
  }

  /** With unique ids, the id of item `i` occurs neither before nor after it. */
  lemma UniqueIdApart(ts: seq<Todo>, i: nat)
    requires UniqueIds(ts) && i < |ts|
    ensures !HasId(ts[..i], ts[i].id) && !HasId(ts[i + 1..], ts[i].id)
  {
    forall t | t in ts[..i] ensures t.id != ts[i].id {
      var j :| 0 <= j < i && ts[..i][j] == t;
      assert ts[j] == t;
    }
    forall t | t in ts[i + 1..] ensures t.id != ts[i].id {
      var j :| 0 <= j < |ts| - i - 1 && ts[i + 1..][j] == t;
      assert ts[i + 1 + j] == t;
    }
  }

  /** With unique ids, deleting the id of item `i` removes that one item and
      closes the gap. */
  lemma WithoutUniqueId(ts: seq<Todo>, i: nat)
    requires UniqueIds(ts) && i < |ts|
    ensures WithoutId(ts, ts[i].id) == ts[..i] + ts[i + 1..]
  {
    UniqueIdApart(ts, i);
    assert ts == ts[..i] + [ts[i]] + ts[i + 1..];
    WithoutOnlyMatch(ts[..i], ts[i], ts[i + 1..]);
  }

  /** Deleting the id of an item that no other item carries cuts that item out. */
  lemma WithoutOnlyMatch(before: seq<Todo>, t: Todo, after: seq<Todo>)
    requires !HasId(before, t.id) && !HasId(after, t.id)
    ensures WithoutId(before + [t] + after, t.id) == before + after
  {
    var keep := (u: Todo) => u.id != t.id;
    WithoutUnknownId(before, t.id);
    WithoutUnknownId(after, t.id);
    assert Filter([t], keep) == [] by {
      assert [t][1..] == [];
    }
    FilterConcat([t], after, keep);
    assert Filter([t] + after, keep) == after;
    FilterConcat(before, [t] + after, keep);
    assert before + [t] + after == before + ([t] + after);
  }

  /** `ts.filter(t => !t.completed)`. */
  function Active(ts: seq<Todo>): (r: seq<Todo>)
    ensures forall t | t in r :: !t.completed
  {
    FilterKeeps(ts, IsActive);
    Filter(ts, IsActive)
  }

  /** `ts.filter(t => t.completed)`. */
  function Completed(ts: seq<Todo>): (r: seq<Todo>)
    ensures forall t | t in r :: t.completed
  {
    FilterKeeps(ts, IsCompleted);
    Filter(ts, IsCompleted)
  }

  /** `todos.length`: the active and the completed items together. */
  function TotalCount(ts: seq<Todo>): (n: nat)
    ensures n == ActiveCount(ts) + CompletedCount(ts)
  {
    FilterPartition(ts, IsActive, IsCompleted);
    |ts|
  }

  /** The number of items not completed. */
  function ActiveCount(ts: seq<Todo>): (n: nat)
    ensures n <= |ts|
  {
    |Active(ts)|
  }

  /** The number of completed items. */
  function CompletedCount(ts: seq<Todo>): (n: nat)
    ensures n <= |ts|
  {
    |Completed(ts)|
  }

  /** The active items and the completed items split the list: each keeps
      its own kind in the original order, the two together hold every item
      exactly as often as the list does, and so the counts add up. */
  lemma ActiveCompletedPartition(ts: seq<Todo>)
    ensures forall t | t in Active(ts) :: !t.completed
    ensures forall t | t in Completed(ts) :: t.completed
    ensures IsSubsequence(Active(ts), ts) && IsSubsequence(Completed(ts), ts)
    ensures multiset(Active(ts)) + multiset(Completed(ts)) == multiset(ts)
    ensures TotalCount(ts) == ActiveCount(ts) + CompletedCount(ts)
  {
    FilterKeeps(ts, IsActive);
    FilterKeeps(ts, IsCompleted);
    FilterIsSubsequence(ts, IsActive);
    FilterIsSubsequence(ts, IsCompleted);
    FilterPartition(ts, IsActive, IsCompleted);
  }

  /** There is something to clear exactly when some item is completed. */
  lemma CompletedCountPositive(ts: seq<Todo>)
    ensures CompletedCount(ts) > 0 <==> exists t | t in ts :: t.completed
  {
    if t :| t in ts && t.completed {
      FilterCount(ts, IsCompleted, t);
      assert t in multiset(ts);
    }
    if CompletedCount(ts) > 0 {
      FilterKeeps(ts, IsCompleted);
      FilterCount(ts, IsCompleted, Completed(ts)[0]);
      assert Completed(ts)[0] in multiset(Completed(ts));
    }
  }

  /** Keeping the active items of a list that has no completed item keeps it whole. */
  lemma ActiveOfAllActive(ts: seq<Todo>)
    requires forall t | t in ts :: !t.completed
    ensures Active(ts) == ts && CompletedCount(ts) == 0
  {
    FilterAll(ts, IsActive);
    ActiveCompletedPartition(ts);
  }

  /** Whether the item is shown under the chosen filter: `'active'` shows the
      items not completed, `'completed'` the completed ones, any other value
      every item. */
  predicate Shows(filter: string, t: Todo) {
    if filter == "active" then !t.completed
    else if filter == "completed" then t.completed
    else true
  }

  /** `filteredTodos`: the items shown under the chosen filter. */
  function View(ts: seq<Todo>, filter: string): (r: seq<Todo>)
    ensures |r| <= |ts|
    ensures forall t | t in r :: Shows(filter, t)
  {
    FilterKeeps(ts, t => Shows(filter, t));
    Filter(ts, t => Shows(filter, t))
  }

  /** The view keeps list order and is the active items, the completed items
      or the whole list, as the filter says. */
  lemma ViewAgreesWithFilter(ts: seq<Todo>, filter: string)
    ensures IsSubsequence(View(ts, filter), ts)
    ensures filter == "active" ==> View(ts, filter) == Active(ts)
    ensures filter == "completed" ==> View(ts, filter) == Completed(ts)
    ensures filter != "active" && filter != "completed" ==> View(ts, filter) == ts
  {
    var shows := t => Shows(filter, t);
    FilterIsSubsequence(ts, shows);
    if filter == "active" {
      FilterExt(ts, shows, IsActive);
    } else if filter == "completed" {
      FilterExt(ts, shows, IsCompleted);
    } else {
      FilterAll(ts, shows);
    }
  }

  /** The ids clear-completed sends a delete request for, one per completed
      item, in list order. */
  function ClearRequests(ts: seq<Todo>): (ids: seq<Id>)
    ensures |ids| == CompletedCount(ts)
    ensures forall k :: 0 <= k < |ids| ==> Completed(ts)[k].id == ids[k]
  {
    Map(Completed(ts), (t: Todo) => t.id)
  }
}
