/** The user directory: listing everyone else, the caller's profile, avatar
    upload, the administrator listing, and account deletion with its cascade. */
module Users {
  import opened Base
  import opened Tables
  import opened Schema
  import opened Db
  import opened Friends

  /** The public directory entry of a user: its id and username. */
  datatype Brief = Brief(id: Id, username: string)

  function BriefOf(u: User): Brief
  {
    Brief(u.id, u.username)
  }

  function BriefKey(b: Brief): Id
  {
    b.id
  }

  /** Every user row except the caller's. */
  function NotCaller(caller: Id): User -> bool
  {
    (u: User) => u.id != caller
  }

  /** getAllUsers: every user but the caller, in table order, as id and name; with
      distinct ids, each other user exactly once. */
  function GetAllUsers(st: Store, caller: Id): (r: seq<Brief>)
    ensures forall b :: b in r <==> exists u :: u in st.users && u.id != caller && b == BriefOf(u)
    ensures |r| <= |st.users|
    ensures Distinct(st.users, UserKey) ==> Distinct(r, BriefKey)
    ensures Distinct(st.users, UserKey) ==>
      |r| == |st.users| - (if caller in UserIds(st.users) then 1 else 0)
  {
    var others := Filter(st.users, NotCaller(caller));
    FilterDistinct(st.users, NotCaller(caller), UserKey);
    OthersCount(st.users, caller);
    var r := seq(|others|, i requires 0 <= i < |others| => BriefOf(others[i]));
    forall b | b in r ensures exists u :: u in st.users && u.id != caller && b == BriefOf(u) {
      var i :| 0 <= i < |others| && b == r[i];
      assert others[i] in st.users && b == BriefOf(others[i]);
    }
    forall u | u in st.users && u.id != caller ensures BriefOf(u) in r {
      var i :| 0 <= i < |others| && others[i] == u;
      assert r[i] == BriefOf(u);
    }
    r
  }

  /** With distinct ids, leaving out the caller leaves out at most one row. */
  lemma {:induction false} OthersCount(users: seq<User>, caller: Id)
    ensures Distinct(users, UserKey) ==>
      |Filter(users, NotCaller(caller))| == |users| - (if caller in UserIds(users) then 1 else 0)
  {
    if users != [] && Distinct(users, UserKey) {
      assert Distinct(users[1..], UserKey) by {
        forall i, j | 0 <= i < j < |users[1..]| ensures UserKey(users[1..][i]) != UserKey(users[1..][j]) {
          assert users[1..][i] == users[i + 1] && users[1..][j] == users[j + 1];
        }
      }
      OthersCount(users[1..], caller);
      KeysCons(users, UserKey);
      TailIdsDiffer(users);
      if users[0].id == caller {
        assert caller !in UserIds(users[1..]);
      }
    }
  }

  /** The caller's own profile: id, username and avatar URL. */
  datatype Profile = Profile(id: Id, username: string, avatarUrl: Option<string>)

  /** getMe: the caller's profile; nothing (an empty body) when the row is gone. */
  function GetMe(st: Store, caller: Id): (r: Option<Profile>)
    ensures r.None? <==> caller !in UserIds(st.users)
    ensures r.Some? ==> exists u :: u in st.users && u.id == caller && r.value == Profile(u.id, u.username, u.avatarUrl)
  {
    match FindUser(st.users, caller)
    case None =>
      assert caller !in UserIds(st.users);
      None
    case Some(u) =>
      assert UserKey(u) == caller;
      Some(Profile(u.id, u.username, u.avatarUrl))
  }

  /** uploadAvatar: without a file, 400 and no change; otherwise the caller's
      avatar points at the stored file, and nothing else changes. */
  function UploadAvatar(st: Store, caller: Id, file: Option<Upload>): (r: Step<string>)
    ensures file.None? ==> r == Step(st, Fail(BadRequest, "No file uploaded"))
    ensures file.Some? ==> r.reply == Ok(UploadUrl(file.value)) && r.st == SetAvatar(st, caller, UploadUrl(file.value))
    ensures Valid(st) ==> Valid(r.st)
  {
    match file
    case None => Step(st, Fail(BadRequest, "No file uploaded"))
    case Some(f) => Step(SetAvatar(st, caller, UploadUrl(f)), Ok(UploadUrl(f)))
  }

  /** After an upload, the caller's profile shows the new avatar and every other
      profile is as it was. */
  lemma UploadThenGetMe(st: Store, caller: Id, f: Upload, other: Id)
    requires Valid(st) && caller in UserIds(st.users)
    ensures var s := UploadAvatar(st, caller, Some(f)).st;
      && GetMe(s, caller).Some? && GetMe(s, caller).value.avatarUrl == Some(UploadUrl(f))
      && (other != caller ==> GetMe(s, other) == GetMe(st, other))
  {
    var s := UploadAvatar(st, caller, Some(f)).st;
    var u := TheUser(st.users, caller);
    var i :| 0 <= i < |st.users| && st.users[i] == u;
    assert s.users[i] == u.(avatarUrl := Some(UploadUrl(f)));
    FindUserUnique(s.users, caller, s.users[i]);
    if other != caller {
      FindUserSameRows(st.users, s.users, other);
    }
  }

  /** A row of the administrator's listing: id, username, role, location and creation time. */
  datatype AdminRow = AdminRow(id: Id, username: string, role: UserRole, geo: Option<Geo>, createdAt: nat)

  function AdminRowOf(u: User): AdminRow
  {
    AdminRow(u.id, u.username, u.role, u.geo, u.createdAt)
  }

  function NegAdminCreatedAt(a: AdminRow): int
  {
    0 - a.createdAt
  }

  /** getAllUsersAdmin: every user, newest account first. The handler does not
      look at the caller's role. */
  function GetAllUsersAdmin(st: Store): (r: seq<AdminRow>)
    ensures |r| == |st.users|
    ensures multiset(r) == multiset(seq(|st.users|, i requires 0 <= i < |st.users| => AdminRowOf(st.users[i])))
    ensures forall i, j :: 0 <= i < j < |r| ==> r[i].createdAt >= r[j].createdAt
  {
    var rows := seq(|st.users|, i requires 0 <= i < |st.users| => AdminRowOf(st.users[i]));
    var sorted := SortBy(rows, NegAdminCreatedAt);
    assert forall i, j :: 0 <= i < j < |sorted| ==> NegAdminCreatedAt(sorted[i]) <= NegAdminCreatedAt(sorted[j]);
    sorted
  }

  /** Every user appears in the administrator listing. */
  lemma AdminListsEveryone(st: Store, u: User)
    requires u in st.users
    ensures AdminRowOf(u) in GetAllUsersAdmin(st)
  {
    var rows := seq(|st.users|, i requires 0 <= i < |st.users| => AdminRowOf(st.users[i]));
    var i :| 0 <= i < |st.users| && st.users[i] == u;
    assert rows[i] == AdminRowOf(u);
    assert AdminRowOf(u) in multiset(rows);
  }

  /** deleteUser: delete the account; the foreign keys cascade to its memberships,
      sent messages and friend requests. No role check, and an unknown id is
      still a success. */
  function DeleteUserHandler(st: Store, id: Id): (r: Step<string>)
    ensures r.reply == Ok("User deleted successfully")
    ensures forall u :: u in r.st.users <==> u in st.users && u.id != id
    ensures forall m :: m in r.st.members <==> m in st.members && m.userId != id
    ensures forall m :: m in r.st.messages <==> m in st.messages && m.senderId != id
    ensures forall q :: q in r.st.requests <==> q in st.requests && q.senderId != id && q.receiverId != id
    ensures r.st.conversations == st.conversations && r.st.reactions == st.reactions && r.st.typing == st.typing
    ensures Valid(st) ==> Valid(r.st)
  {
    Step(DeleteUser(st, id), Ok("User deleted successfully"))
  }

  /** After deletion the account is gone from every view: nobody lists it, it is
      nobody's friend, it belongs to no conversation and has no profile. */
  lemma DeletedUserVanishes(st: Store, id: Id, viewer: Id, now: nat)
    ensures var s := DeleteUserHandler(st, id).st;
      && (forall b :: b in GetAllUsers(s, viewer) ==> b.id != id)
      && GetMe(s, id).None?
      && !AreFriends(s, viewer, id)
      && forall c :: !IsMember(s, id, c)
  {
    var s := DeleteUserHandler(st, id).st;
  }

  /** Deleting a user keeps the friend-request table tidy. */
  lemma DeleteKeepsTidy(st: Store, id: Id)
    requires Tidy(st.requests)
    ensures Tidy(DeleteUserHandler(st, id).st.requests)
  {
    FilterDistinct(st.requests, (q: FriendRequest) => q.senderId != id && q.receiverId != id, LinkKey);
  }
}
