/** The admin dashboard: who may see it, the table of users it shows, and how
    a Block or Unblock click updates that table. */
module AdminDashboard {
  import opened Replies
  import opened Seqs

  /** One user as the admin user list returns it. */
  datatype UserRow = UserRow(id: string, email: string, role: string, isBlocked: bool)

  /** No two rows carry the same id. */
  predicate UniqueUserIds(users: seq<UserRow>) {
    forall i, j | 0 <= i < j < |users| :: users[i].id != users[j].id
  }

  /** What the mount effect does. */
  datatype Mount = RedirectHome | LoadUsers

  /** The mount effect: the user list is requested only for a signed-in admin;
      anyone else is sent to the home page. */
  function OnMount(user: Option<SessionUser>): (m: Mount)
    ensures m == LoadUsers <==> user.Some? && user.value.role == "admin"
  {
    if user.None? || user.value.role != "admin" then RedirectHome else LoadUsers
  }

  /** `fetchUsers`: the table becomes the server's list; on failure it stays. */
  function FetchUsers(users: seq<UserRow>, reply: Reply<seq<UserRow>>): (r: seq<UserRow>)
    ensures r == if reply.Success? then reply.data else users
  {
    match reply
    case Success(list) => list
    case Failure => users
  }

  /** `toggleBlockUser(id, currentStatus)` after its request: when the request
      succeeds, every row that carries `id` gets `isBlocked` set to the
      negation of `currentStatus`, keeping its other fields, and every other
      row stays in place; when it fails nothing changes. */
  function ToggleBlockUser(users: seq<UserRow>, id: string, currentStatus: bool, ok: bool): (r: seq<UserRow>)
    ensures !ok ==> r == users
    ensures |r| == |users|
    ensures forall i :: 0 <= i < |users| && users[i].id != id ==> r[i] == users[i]
    ensures ok ==> forall i :: 0 <= i < |users| && users[i].id == id ==>
      r[i].isBlocked == !currentStatus &&
      r[i].id == users[i].id && r[i].email == users[i].email && r[i].role == users[i].role
  {
    if ok then Map(users, (u: UserRow) => if u.id == id then u.(isBlocked := !currentStatus) else u)
    else users
  }

  /** The Status cell. */
  function StatusLabel(u: UserRow): (s: string)
    ensures s == "Blocked" <==> u.isBlocked
    ensures s == "Active" <==> !u.isBlocked
  {
    if u.isBlocked then "Blocked" else "Active"
  }

  /** The Action cell: a button only for rows whose role is not admin, labelled
      for the change it makes. */
  function BlockAction(u: UserRow): (a: Option<string>)
    ensures a.Some? <==> u.role != "admin"
    ensures a.Some? ==> (a.value == "Unblock" <==> u.isBlocked) && (a.value == "Block" <==> !u.isBlocked)
  {
    if u.role != "admin" then Some(if u.isBlocked then "Unblock" else "Block") else None
  }

  /** A click on the button of row `i`, which passes that row's id and its
      current `isBlocked`; only rows with a button can be clicked. */
  function ClickBlock(users: seq<UserRow>, i: nat, ok: bool): (r: seq<UserRow>)
    requires i < |users| && BlockAction(users[i]).Some?
    ensures |r| == |users|
    ensures !ok ==> r == users
    ensures ok ==> r[i] == users[i].(isBlocked := !users[i].isBlocked)
  {
    ToggleBlockUser(users, users[i].id, users[i].isBlocked, ok)
  }

  /** With unique ids, a successful click flips `isBlocked` of the clicked row
      and of no other, keeps the clicked row's other fields, and leaves every
      admin row as it was; a failed click changes nothing. */
  lemma ClickFlipsOne(users: seq<UserRow>, i: nat, ok: bool)
    requires UniqueUserIds(users) && i < |users| && BlockAction(users[i]).Some?
    ensures ok ==> ClickBlock(users, i, ok) == users[i := users[i].(isBlocked := !users[i].isBlocked)]
    ensures !ok ==> ClickBlock(users, i, ok) == users
    ensures forall j :: 0 <= j < |users| && users[j].role == "admin" ==> ClickBlock(users, i, ok)[j] == users[j]
  {
  }

  /** With unique ids, clicking the same row twice, both times successfully,
      gives back the table it started from. */
  lemma ClickTwiceRestores(users: seq<UserRow>, i: nat)
    requires UniqueUserIds(users) && i < |users| && BlockAction(users[i]).Some?
    ensures var once := ClickBlock(users, i, true);
      BlockAction(once[i]).Some? && ClickBlock(once, i, true) == users
  {
    ClickFlipsOne(users, i, true);
    var once := ClickBlock(users, i, true);
    assert UniqueUserIds(once) by {
      forall j, k | 0 <= j < k < |once| ensures once[j].id != once[k].id {
        assert once[j].id == users[j].id && once[k].id == users[k].id;
      }
    }
    ClickFlipsOne(once, i, true);
  }
}
