/** Accounts: registration (with the assistant's welcome conversation), login,
    logout and password change. Hashing, verification and the geolocation lookup
    are parameters: `hash` stands for bcrypt.hash, `matches(p, h)` for
    bcrypt.compare, and `geo` for whatever the lookup produced. */
module Auth {
  import opened Base
  import opened Tables
  import opened Schema
  import opened Db
  import opened Presence
  import opened Directory
  import opened Friends
  import opened MessageStore

  const WelcomeText: string := "Hello! I am Nebula AI. You can ask me anything."

  /** The ids register draws: the user, then the bootstrap's request, conversation,
      the two membership rows and the welcome message. */
  datatype RegisterIds = RegisterIds(user: Id, request: Id, conversation: Id, userMember: Id, botMember: Id, welcome: Id)

  function WelcomeRequest(ids: RegisterIds, t: nat): FriendRequest
  {
    FriendRequest(ids.request, BotId, ids.user, Accepted, t)
  }

  function WelcomeMessage(ids: RegisterIds, t: nat): Message
  {
    Message(ids.welcome, ids.conversation, BotId, WelcomeText, Text, None, false, t)
  }

  /** The store after the first k of the bootstrap's five inserts. */
  function Staged(st: Store, ids: RegisterIds, t: nat, k: nat): Store
    requires k <= 5
  {
    st.(requests := st.requests + (if k >= 1 then [WelcomeRequest(ids, t)] else []),
        conversations := st.conversations + (if k >= 2 then [Conversation(ids.conversation, None, t)] else []),
        members := st.members
          + (if k >= 3 then [Membership(ids.userMember, ids.user, ids.conversation, PlainMember, t)] else [])
          + (if k >= 4 then [Membership(ids.botMember, BotId, ids.conversation, PlainMember, t)] else []),
        messages := st.messages + (if k >= 5 then [WelcomeMessage(ids, t)] else []))
  }

  /** Everything the bootstrap needs to run to the end. */
  predicate BootstrapFits(st: Store, ids: RegisterIds)
  {
    && BotId in UserIds(st.users)
    && ids.user in UserIds(st.users) && ids.user != BotId
    && ids.request !in Keys(st.requests, RequestKey)
    && (BotId, ids.user) !in Keys(st.requests, RequestPairKey)
    && ids.conversation !in ConversationIds(st.conversations)
    && ids.userMember !in Keys(st.members, MembershipKey)
    && ids.botMember !in Keys(st.members, MembershipKey)
    && ids.userMember != ids.botMember
    && ids.welcome !in Keys(st.messages, MessageKey)
  }

  /** The assistant bootstrap: when the assistant's account exists, an accepted
      request from it, an untitled conversation with the two of them, and an unread
      welcome message. The inserts are not in a transaction: the first one that
      throws stops the rest and the earlier ones stay. */
  function Bootstrap(st: Store, ids: RegisterIds, t: nat): (r: Store)
    ensures r.users == st.users && r.reactions == st.reactions && r.typing == st.typing
    ensures BotId !in UserIds(st.users) ==> r == st
    ensures exists k :: 0 <= k <= 5 && r == Staged(st, ids, t, k)
    ensures Valid(st) && BootstrapFits(st, ids) ==> r == Staged(st, ids, t, 5)
    ensures Valid(st) ==> Valid(r)
  {
    if BotId !in UserIds(st.users) then
      assert st == Staged(st, ids, t, 0);
      st
    else
      var conv := Conversation(ids.conversation, None, t);
      var m1 := Membership(ids.userMember, ids.user, ids.conversation, PlainMember, t);
      var m2 := Membership(ids.botMember, BotId, ids.conversation, PlainMember, t);
      match InsertRequest(st, WelcomeRequest(ids, t))
      case None =>
        assert st == Staged(st, ids, t, 0);
        st
      case Some(s1) =>
        assert s1 == Staged(st, ids, t, 1);
        NewConversationHasNoMembers(s1, conv, ids.user, BotId, m1);
        match InsertConversation(s1, conv)
        case None => s1
        case Some(s2) =>
          assert s2 == Staged(st, ids, t, 2);
          match InsertMember(s2, m1)
          case None => s2
          case Some(s3) =>
            assert s3 == Staged(st, ids, t, 3);
            match InsertMember(s3, m2)
            case None => s3
            case Some(s4) =>
              assert s4 == Staged(st, ids, t, 4);
              match InsertMessage(s4, WelcomeMessage(ids, t))
              case None => s4
              case Some(s5) =>
                assert s5 == Staged(st, ids, t, 5);
                s5
  }

  /** The new account: a regular user, never seen online, with no avatar. */
  function NewUser(ids: RegisterIds, username: string, hashed: string, geo: Option<Geo>, t: nat): User
  {
    User(ids.user, username, hashed, RegularUser, geo, None, None, t)
  }

  /** register: both fields must be truthy, the username unused; then the user row
      and the bootstrap. The reply carries the new id. */
  function Register(st: Store, username: Option<string>, password: Option<string>, hash: string -> string,
                    geo: Option<Geo>, ids: RegisterIds, now: nat): (r: Step<Id>)
    ensures !Truthy(username) || !Truthy(password) ==>
      r == Step(st, Fail(BadRequest, "Username and password are required"))
    ensures Truthy(username) && Truthy(password) && FindByName(st.users, username.value).Some? ==>
      r == Step(st, Fail(BadRequest, "Username already exists"))
    ensures r.reply.Ok? <==>
      && Truthy(username) && Truthy(password)
      && FindByName(st.users, username.value).None?
      && ids.user !in UserIds(st.users)
    ensures r.reply.Fail? ==> r.st == st
    ensures r.reply.Ok? ==>
      && r.reply.value == ids.user
      && r.st == Bootstrap(st.(users := st.users + [NewUser(ids, username.value, hash(password.value), geo, DbTime(now))]),
                           ids, DbTime(now))
    ensures Valid(st) ==> Valid(r.st)
  {
    if !Truthy(username) || !Truthy(password) then
      Step(st, Fail(BadRequest, "Username and password are required"))
    else if FindByName(st.users, username.value).Some? then
      Step(st, Fail(BadRequest, "Username already exists"))
    else
      var t := DbTime(now);
      NoSuchName(st.users, username.value);
      match InsertUser(st, NewUser(ids, username.value, hash(password.value), geo, t))
      case None => Step(st, Fail(ServerError, "Internal server error"))
      case Some(s) => Step(Bootstrap(s, ids, t), Ok(ids.user))
  }

  lemma NoSuchName(users: seq<User>, name: string)
    requires FindByName(users, name).None?
    ensures name !in Keys(users, UsernameKey)
  {
  }

  /** A successful registration, in a valid store holding the assistant and with
      fresh ids for the bootstrap, leaves the newcomer friends with the assistant
      and sharing with it a conversation of exactly two members that holds one
      message, unread by the newcomer. */
  lemma NewUserMeetsBot(st: Store, username: Option<string>, password: Option<string>, hash: string -> string,
                        geo: Option<Geo>, ids: RegisterIds, now: nat)
    requires Valid(st) && BotId in UserIds(st.users)
    requires ids.request !in Keys(st.requests, RequestKey)
    requires ids.conversation !in ConversationIds(st.conversations)
    requires ids.userMember !in Keys(st.members, MembershipKey) && ids.botMember !in Keys(st.members, MembershipKey)
    requires ids.userMember != ids.botMember
    requires ids.welcome !in Keys(st.messages, MessageKey)
    ensures var r := Register(st, username, password, hash, geo, ids, now);
      r.reply.Ok? ==>
        && AreFriends(r.st, ids.user, BotId)
        && IsMember(r.st, ids.user, ids.conversation) && IsMember(r.st, BotId, ids.conversation)
        && (forall m :: m in r.st.members && m.conversationId == ids.conversation ==> m.userId in {ids.user, BotId})
        && UnreadCount(r.st.messages, ids.conversation, ids.user) == 1
  {
    var r := Register(st, username, password, hash, geo, ids, now);
    if r.reply.Ok? {
      var t := DbTime(now);
      var s := st.(users := st.users + [NewUser(ids, username.value, hash(password.value), geo, t)]);
      NoSuchName(st.users, username.value);
      ValidAfterInsertUser(st, NewUser(ids, username.value, hash(password.value), geo, t));
      assert BootstrapFits(s, ids);
      assert r.st == Staged(s, ids, t, 5);
      Bootstrapped(s, ids, t);
    }
  }

  /** What a completed bootstrap leaves behind for the newcomer. */
  lemma Bootstrapped(s: Store, ids: RegisterIds, t: nat)
    requires Valid(s) && ids.user != BotId && ids.conversation !in ConversationIds(s.conversations)
    ensures var b := Staged(s, ids, t, 5);
      && AreFriends(b, ids.user, BotId)
      && IsMember(b, ids.user, ids.conversation) && IsMember(b, BotId, ids.conversation)
      && (forall m :: m in b.members && m.conversationId == ids.conversation ==> m.userId in {ids.user, BotId})
      && UnreadCount(b.messages, ids.conversation, ids.user) == 1
  {
    var b := Staged(s, ids, t, 5);
    assert WelcomeRequest(ids, t) in b.requests;
    var m1 := Membership(ids.userMember, ids.user, ids.conversation, PlainMember, t);
    var m2 := Membership(ids.botMember, BotId, ids.conversation, PlainMember, t);
    assert b.members == s.members + [m1] + [m2];
    assert m1 in b.members && m2 in b.members;
    assert forall m :: m in s.members ==> m.conversationId in ConversationIds(s.conversations);
    assert MemberPairKey(m1) == (ids.user, ids.conversation) && MemberPairKey(m2) == (BotId, ids.conversation);
    NoUnreadInNewConversation(s.messages, s.users, s.conversations, ids.conversation, ids.user);
    assert b.messages == s.messages + [WelcomeMessage(ids, t)];
    UnreadCountAppend(s.messages, WelcomeMessage(ids, t), ids.conversation, ids.user);
  }

  lemma NoUnreadInNewConversation(ms: seq<Message>, users: seq<User>, convs: seq<Conversation>, conv: Id, viewer: Id)
    requires MessagesOk(ms, users, convs) && conv !in ConversationIds(convs)
    ensures UnreadCount(ms, conv, viewer) == 0
  {
    UnreadCountZero(ms, conv, viewer);
  }

  /** Registration keeps the friend-request table tidy: the welcome request is
      the newcomer's only one. */
  lemma RegisterKeepsTidy(st: Store, username: Option<string>, password: Option<string>, hash: string -> string,
                          geo: Option<Geo>, ids: RegisterIds, now: nat)
    requires Valid(st) && Tidy(st.requests)
    ensures Tidy(Register(st, username, password, hash, geo, ids, now).st.requests)
  {
    var r := Register(st, username, password, hash, geo, ids, now);
    if r.reply.Ok? {
      var t := DbTime(now);
      var q := WelcomeRequest(ids, t);
      var s := st.(users := st.users + [NewUser(ids, username.value, hash(password.value), geo, t)]);
      NewcomerUnlinked(st, q);
      BootstrapKeepsTidy(s, ids, t);
    }
  }

  /** The bootstrap adds at most the welcome request, so a fresh pair keeps the table tidy. */
  lemma BootstrapKeepsTidy(s: Store, ids: RegisterIds, t: nat)
    requires Tidy(s.requests) && LinkKey(WelcomeRequest(ids, t)) !in Keys(s.requests, LinkKey)
    ensures Tidy(Bootstrap(s, ids, t).requests)
  {
    var k :| 0 <= k <= 5 && Bootstrap(s, ids, t) == Staged(s, ids, t, k);
    if k >= 1 {
      AppendDistinct'(s.requests, WelcomeRequest(ids, t), LinkKey);
    }
  }

  /** A request naming a user who has no row yet links no pair already linked. */
  lemma NewcomerUnlinked(st: Store, q: FriendRequest)
    requires Valid(st) && q.receiverId !in UserIds(st.users)
    ensures LinkKey(q) !in Keys(st.requests, LinkKey)
  {
  }

  // ---------------------------------------------------------------- login

  /** What login hands back: the token's claims, which are also the user object
      in the reply. Signing the token is left out. */
  datatype Claims = Claims(id: Id, username: string, role: UserRole)

  /** login: the first user with that name, then the password check. An unknown
      name and a wrong password get the same answer; an absent password makes the
      comparison throw. */
  function Login(st: Store, username: Option<string>, password: Option<string>,
                 matches: (string, string) -> bool): (r: Reply<Claims>)
    ensures r.Ok? <==>
      && username.Some? && FindByName(st.users, username.value).Some?
      && password.Some? && matches(password.value, FindByName(st.users, username.value).value.password)
    ensures r.Ok? ==>
      exists u :: u in st.users && u.username == username.value && r.value == Claims(u.id, u.username, u.role)
    ensures r.Fail? ==> r == Fail(BadRequest, "Invalid credentials") || r == Fail(ServerError, "Internal server error")
    ensures r == Fail(ServerError, "Internal server error") <==>
      username.Some? && FindByName(st.users, username.value).Some? && password.None?
  {
    var found := if username.Some? then FindByName(st.users, username.value) else None;
    match found
    case None => Fail(BadRequest, "Invalid credentials")
    case Some(u) =>
      if password.None? then Fail(ServerError, "Internal server error")
      else if !matches(password.value, u.password) then Fail(BadRequest, "Invalid credentials")
      else Ok(Claims(u.id, u.username, u.role))
  }

  /** A caller cannot tell an unknown username from a wrong password. */
  lemma LoginHidesWhichFailed(st: Store, unknown: string, known: string, p1: Option<string>, p2: string,
                              matches: (string, string) -> bool)
    requires FindByName(st.users, unknown).None?
    requires FindByName(st.users, known).Some? && !matches(p2, FindByName(st.users, known).value.password)
    ensures Login(st, Some(unknown), p1, matches) == Login(st, Some(known), Some(p2), matches)
  {
  }

  lemma FindByNameAppend(users: seq<User>, u: User)
    requires FindByName(users, u.username).None?
    ensures FindByName(users + [u], u.username) == Some(u)
  {
    if users != [] {
      assert (users + [u])[1..] == users[1..] + [u];
      FindByNameAppend(users[1..], u);
    }
  }

  /** Whoever registers can log in with the same password, given that the
      comparison accepts a password against its own hash. */
  lemma RegisterThenLogin(st: Store, username: Option<string>, password: Option<string>, hash: string -> string,
                          matches: (string, string) -> bool, geo: Option<Geo>, ids: RegisterIds, now: nat)
    requires forall p :: matches(p, hash(p))
    ensures var r := Register(st, username, password, hash, geo, ids, now);
      r.reply.Ok? ==> Login(r.st, username, password, matches) == Ok(Claims(ids.user, username.value, RegularUser))
  {
    var r := Register(st, username, password, hash, geo, ids, now);
    if r.reply.Ok? {
      var u := NewUser(ids, username.value, hash(password.value), geo, DbTime(now));
      FindByNameAppend(st.users, u);
    }
  }

  // ---------------------------------------------------------------- logout

  /** logout: clear the caller's last-activity stamp, so they show offline at once. */
  function Logout(st: Store, caller: Option<Id>): (r: Step<string>)
    ensures r.reply == Ok("Logged out successfully")
    ensures caller.None? ==> r.st == st
    ensures caller.Some? ==>
      && r.st == st.(users := r.st.users)
      && |r.st.users| == |st.users|
      && forall i :: 0 <= i < |st.users| ==>
           if st.users[i].id == caller.value
           then r.st.users[i] == st.users[i].(lastActiveAt := None)
           else r.st.users[i] == st.users[i]
    ensures Valid(st) ==> Valid(r.st)
  {
    if caller.Some? then Step(SetLastActive(st, caller.value, None), Ok("Logged out successfully"))
    else Step(st, Ok("Logged out successfully"))
  }

  /** After logout the caller is offline at every later moment (unless the caller
      is the assistant, which is always online), until some request touches them again. */
  lemma LogoutGoesOffline(st: Store, caller: Id, now: nat)
    requires caller != BotId
    ensures forall u :: u in Logout(st, Some(caller)).st.users && u.id == caller ==> !IsOnline(u, now)
  {
    var s := Logout(st, Some(caller)).st;
    forall u | u in s.users && u.id == caller ensures !IsOnline(u, now) {
      var i :| 0 <= i < |s.users| && s.users[i] == u;
    }
  }

  // ---------------------------------------------------------------- password change

  /** changePassword: both fields truthy, the caller's row present, the current
      password accepted; then only the caller's hash changes. */
  function ChangePassword(st: Store, caller: Id, current: Option<string>, next: Option<string>,
                          hash: string -> string, matches: (string, string) -> bool): (r: Step<string>)
    ensures !Truthy(current) || !Truthy(next) ==> r == Step(st, Fail(BadRequest, "All fields are required"))
    ensures Truthy(current) && Truthy(next) && caller !in UserIds(st.users) ==>
      r == Step(st, Fail(NotFound, "User not found"))
    ensures r.reply.Fail? ==> r.st == st
    ensures r.reply.Ok? <==>
      && Truthy(current) && Truthy(next)
      && caller in UserIds(st.users)
      && matches(current.value, FindUser(st.users, caller).value.password)
    ensures r.reply.Ok? ==> r.st == SetPassword(st, caller, hash(next.value))
    ensures Valid(st) ==> Valid(r.st)
  {
    if !Truthy(current) || !Truthy(next) then Step(st, Fail(BadRequest, "All fields are required"))
    else
      match FindUser(st.users, caller)
      case None =>
        NoSuchUser(st.users, caller);
        Step(st, Fail(NotFound, "User not found"))
      case Some(u) =>
        assert UserKey(u) == caller;
        if !matches(current.value, u.password) then Step(st, Fail(BadRequest, "Incorrect current password"))
        else Step(SetPassword(st, caller, hash(next.value)), Ok("Password updated successfully"))
  }

  lemma NoSuchUser(users: seq<User>, id: Id)
    requires FindUser(users, id).None?
    ensures id !in UserIds(users)
  {
  }

  /** After a password change the caller logs in with the new password, and, when
      the comparison accepts exactly a password's own hash, no longer with the old. */
  lemma ChangeThenLogin(st: Store, caller: User, current: string, next: string,
                        hash: string -> string, matches: (string, string) -> bool)
    requires Valid(st) && caller in st.users
    requires forall p :: matches(p, hash(p))
    ensures var r := ChangePassword(st, caller.id, Some(current), Some(next), hash, matches);
      r.reply.Ok? ==> Login(r.st, Some(caller.username), Some(next), matches).Ok?
    ensures var r := ChangePassword(st, caller.id, Some(current), Some(next), hash, matches);
      r.reply.Ok? && (forall p, q :: matches(p, hash(q)) ==> p == q) && current != next ==>
        Login(r.st, Some(caller.username), Some(current), matches) == Fail(BadRequest, "Invalid credentials")
  {
    var r := ChangePassword(st, caller.id, Some(current), Some(next), hash, matches);
    if r.reply.Ok? {
      var i :| 0 <= i < |st.users| && st.users[i] == caller;
      var changed := caller.(password := hash(next));
      assert r.st.users[i] == changed;
      assert Valid(r.st);
      FindByNameUnique(r.st.users, changed);
    }
  }

  /** With unique usernames, the user found by name is the row itself. */
  lemma FindByNameUnique(users: seq<User>, u: User)
    requires Distinct(users, UsernameKey) && u in users
    ensures FindByName(users, u.username) == Some(u)
  {
    var r := FindByName(users, u.username);
    assert UsernameKey(u) in Keys(users, UsernameKey);
    if r.None? {
      assert false;
    }
    DistinctSame(users, UsernameKey, u, r.value);
  }
}
