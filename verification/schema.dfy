/** The rows of the messenger database and the process-local typing map, held
    together in one immutable Store, with the integrity constraints the schema
    declares (primary keys, the two UNIQUE KEYs, the foreign keys) plus the
    one-reaction-per-(message, user) rule that the reaction toggle maintains. */
module Schema {
  import opened Base
  import opened Tables

  datatype UserRole = RegularUser | AdminUser

  /** Result of the geolocation lookup made at registration. */
  datatype Geo = Geo(country: string, lat: real, lng: real)

  /** `lastActiveAt` is None when never seen or explicitly logged out. */
  datatype User = User(
    id: Id,
    username: string,
    password: string,
    role: UserRole,
    geo: Option<Geo>,
    avatarUrl: Option<string>,
    lastActiveAt: Option<nat>,
    createdAt: nat)

  /** A conversation whose title is truthy is rendered as a group. */
  datatype Conversation = Conversation(id: Id, title: Option<string>, createdAt: nat)

  datatype MemberRole = GroupAdmin | PlainMember

  datatype Membership = Membership(
    id: Id,
    userId: Id,
    conversationId: Id,
    role: MemberRole,
    joinedAt: nat)

  datatype Kind = Text | Image | Audio | File

  datatype Message = Message(
    id: Id,
    conversationId: Id,
    senderId: Id,
    content: string,
    kind: Kind,
    mediaUrl: Option<string>,
    isRead: bool,
    createdAt: nat)

  datatype Reaction = Reaction(id: Id, messageId: Id, userId: Id, reaction: string)

  datatype RequestStatus = Pending | Accepted | Rejected

  datatype FriendRequest = FriendRequest(
    id: Id,
    senderId: Id,
    receiverId: Id,
    status: RequestStatus,
    createdAt: nat)

  /** conversation id -> (user id -> millisecond timestamp of the last typing signal). */
  type TypingMap = map<Id, map<Id, nat>>

  /** Tables are sequences in insertion order; SQL gives no row order, so
      contracts never depend on the position of a row unless an ORDER BY fixes it. */
  datatype Store = Store(
    users: seq<User>,
    conversations: seq<Conversation>,
    members: seq<Membership>,
    messages: seq<Message>,
    reactions: seq<Reaction>,
    requests: seq<FriendRequest>,
    typing: TypingMap)

  // Keys of the tables.
  function UserKey(u: User): Id { u.id }
  function UsernameKey(u: User): string { u.username }
  function ConversationKey(c: Conversation): Id { c.id }
  function MembershipKey(m: Membership): Id { m.id }
  function MemberPairKey(m: Membership): (Id, Id) { (m.userId, m.conversationId) }
  function MessageKey(m: Message): Id { m.id }
  function ReactionKey(r: Reaction): Id { r.id }
  function ReactionPairKey(r: Reaction): (Id, Id) { (r.messageId, r.userId) }
  function RequestKey(r: FriendRequest): Id { r.id }
  function RequestPairKey(r: FriendRequest): (Id, Id) { (r.senderId, r.receiverId) }

  function UserIds(users: seq<User>): set<Id> { Keys(users, UserKey) }
  function ConversationIds(convs: seq<Conversation>): set<Id> { Keys(convs, ConversationKey) }

  predicate UsersOk(users: seq<User>)
  {
    Distinct(users, UserKey) && Distinct(users, UsernameKey)
  }

  predicate ConversationsOk(convs: seq<Conversation>)
  {
    Distinct(convs, ConversationKey)
  }

  /** Primary key, UNIQUE KEY unique_member (userId, conversationId), and both foreign keys. */
  predicate MembersOk(members: seq<Membership>, users: seq<User>, convs: seq<Conversation>)
  {
    && Distinct(members, MembershipKey)
    && Distinct(members, MemberPairKey)
    && forall m :: m in members ==> m.userId in UserIds(users) && m.conversationId in ConversationIds(convs)
  }

  predicate MessagesOk(messages: seq<Message>, users: seq<User>, convs: seq<Conversation>)
  {
    && Distinct(messages, MessageKey)
    && forall m :: m in messages ==> m.senderId in UserIds(users) && m.conversationId in ConversationIds(convs)
  }

  /** Primary key, UNIQUE KEY unique_request (senderId, receiverId), and both foreign keys. */
  predicate RequestsOk(requests: seq<FriendRequest>, users: seq<User>)
  {
    && Distinct(requests, RequestKey)
    && Distinct(requests, RequestPairKey)
    && forall r :: r in requests ==> r.senderId in UserIds(users) && r.receiverId in UserIds(users)
  }

  /** At most one reaction row per (message, user). */
  predicate ReactionsOk(reactions: seq<Reaction>)
  {
    Distinct(reactions, ReactionKey) && Distinct(reactions, ReactionPairKey)
  }

  predicate Valid(st: Store)
  {
    && UsersOk(st.users)
    && ConversationsOk(st.conversations)
    && MembersOk(st.members, st.users, st.conversations)
    && MessagesOk(st.messages, st.users, st.conversations)
    && RequestsOk(st.requests, st.users)
    && ReactionsOk(st.reactions)
  }

  /** A handler's effect: the store afterwards and the reply sent. */
  datatype Step<+T> = Step(st: Store, reply: Reply<T>)

  /** A file received by the upload middleware. */
  datatype Upload = Upload(filename: string, mimetype: string)

  /** The public URL under which an uploaded file is served. */
  function UploadUrl(f: Upload): string
  {
    "http://localhost:3000/uploads/" + f.filename
  }

  /** The empty database a fresh deployment starts from. */
  const Empty: Store := Store([], [], [], [], [], [], map[])

  // Lookups used by several handlers.

  /** A ConversationMember row links the user to the conversation. */
  predicate IsMember(st: Store, user: Id, conv: Id)
  {
    (user, conv) in Keys(st.members, MemberPairKey)
  }

  predicate HasUser(st: Store, id: Id)
  {
    exists u :: u in st.users && u.id == id
  }

  /** The first user row, in table order, with the given id. */
  function FindUser(users: seq<User>, id: Id): (r: Option<User>)
    ensures r.Some? ==> r.value in users && r.value.id == id
    ensures r.None? ==> forall u :: u in users ==> u.id != id
  {
    if users == [] then None
    else if users[0].id == id then Some(users[0])
    else FindUser(users[1..], id)
  }

  /** A lookup by id cannot tell apart two tables that agree on every row with that id. */
  lemma {:induction false} FindUserSameRows(xs: seq<User>, ys: seq<User>, id: Id)
    requires |xs| == |ys|
    requires forall i :: 0 <= i < |xs| ==> (xs[i].id == id || ys[i].id == id) ==> xs[i] == ys[i]
    ensures FindUser(xs, id) == FindUser(ys, id)
  {
    if xs != [] && xs[0].id != id {
      FindUserSameRows(xs[1..], ys[1..], id);
    }
  }

  /** The first user row with the given username. */
  function FindByName(users: seq<User>, name: string): (r: Option<User>)
    ensures r.Some? ==> r.value in users && r.value.username == name
    ensures r.None? ==> forall u :: u in users ==> u.username != name
  {
    if users == [] then None
    else if users[0].username == name then Some(users[0])
    else FindByName(users[1..], name)
  }

  /** The user row a successful foreign-key check guarantees. */
  function TheUser(users: seq<User>, id: Id): (u: User)
    requires id in UserIds(users)
    ensures u in users && u.id == id
  {
    if users[0].id == id then users[0]
    else
      assert id in UserIds(users[1..]) by {
        var v :| v in users && UserKey(v) == id;
        assert v != users[0];
      }
      TheUser(users[1..], id)
  }

  /** With distinct ids, the row found is the only row with that id. */
  lemma FindUserUnique(users: seq<User>, id: Id, u: User)
    requires Distinct(users, UserKey)
    requires u in users && u.id == id
    ensures FindUser(users, id) == Some(u)
  {
    if users[0] != u {
      assert u in users[1..];
      var k :| 0 <= k < |users[1..]| && users[1..][k] == u;
      assert users[k + 1] == u;
      assert UserKey(users[0]) != UserKey(users[k + 1]);
      assert Distinct(users[1..], UserKey) by {
        forall i, j | 0 <= i < j < |users[1..]|
          ensures UserKey(users[1..][i]) != UserKey(users[1..][j])
        {
          assert users[1..][i] == users[i + 1] && users[1..][j] == users[j + 1];
        }
      }
      FindUserUnique(users[1..], id, u);
    }
  }
}
