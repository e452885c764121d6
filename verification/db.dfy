/** The SQL statements the handlers issue, one function each. An INSERT that
    would violate a primary key, a UNIQUE KEY or a foreign key yields None (the
    statement throws); UPDATE and DELETE never fail. Every statement keeps the
    store Valid, so every handler built from them does too. */
module Db {
  import opened Base
  import opened Tables
  import opened Schema

  // ---------------------------------------------------------------- INSERT

  /** INSERT INTO User: the id is the primary key and username is UNIQUE. */
  function InsertUser(st: Store, u: User): (r: Option<Store>)
    ensures r.Some? <==> u.id !in UserIds(st.users) && u.username !in Keys(st.users, UsernameKey)
    ensures r.Some? ==> r.value == st.(users := st.users + [u])
    ensures r.Some? ==> UserIds(r.value.users) == UserIds(st.users) + {u.id}
    ensures Valid(st) && r.Some? ==> Valid(r.value)
  {
    if u.id in UserIds(st.users) || u.username in Keys(st.users, UsernameKey) then None
    else
      ValidAfterInsertUser(st, u);
      Some(st.(users := st.users + [u]))
  }

  lemma ValidAfterInsertUser(st: Store, u: User)
    requires u.id !in UserIds(st.users) && u.username !in Keys(st.users, UsernameKey)
    ensures UserIds(st.users + [u]) == UserIds(st.users) + {u.id}
    ensures Valid(st) ==> Valid(st.(users := st.users + [u]))
  {
    if Valid(st) {
      AppendDistinct(st.users, u, UsernameKey);
    }
    AppendDistinct'(st.users, u, UserKey);
  }

  /** The key set grows by the appended key (needs no distinctness). */
  lemma AppendDistinct'<T, K>(xs: seq<T>, x: T, key: T -> K)
    ensures Keys(xs + [x], key) == Keys(xs, key) + {key(x)}
    ensures Distinct(xs, key) && key(x) !in Keys(xs, key) ==> Distinct(xs + [x], key)
  {
    var r := xs + [x];
    forall k | k in Keys(r, key) ensures k in Keys(xs, key) + {key(x)} {
      var y :| y in r && key(y) == k;
      if y != x { assert y in xs; }
    }
    if Distinct(xs, key) && key(x) !in Keys(xs, key) {
      AppendDistinct(xs, x, key);
    }
  }

  /** INSERT INTO Conversation: the id is the primary key. */
  function InsertConversation(st: Store, c: Conversation): (r: Option<Store>)
    ensures r.Some? <==> c.id !in ConversationIds(st.conversations)
    ensures r.Some? ==> r.value == st.(conversations := st.conversations + [c])
    ensures Valid(st) && r.Some? ==> Valid(r.value)
  {
    if c.id in ConversationIds(st.conversations) then None
    else
      AppendDistinct'(st.conversations, c, ConversationKey);
      Some(st.(conversations := st.conversations + [c]))
  }

  /** INSERT INTO ConversationMember: primary key, UNIQUE (userId, conversationId),
      and both columns reference existing rows. */
  function InsertMember(st: Store, m: Membership): (r: Option<Store>)
    ensures r.Some? <==>
      && m.id !in Keys(st.members, MembershipKey)
      && (m.userId, m.conversationId) !in Keys(st.members, MemberPairKey)
      && m.userId in UserIds(st.users)
      && m.conversationId in ConversationIds(st.conversations)
    ensures r.Some? ==> r.value == st.(members := st.members + [m])
    ensures Valid(st) && r.Some? ==> Valid(r.value)
  {
    if m.id in Keys(st.members, MembershipKey)
      || (m.userId, m.conversationId) in Keys(st.members, MemberPairKey)
      || m.userId !in UserIds(st.users)
      || m.conversationId !in ConversationIds(st.conversations)
    then None
    else
      AppendDistinct'(st.members, m, MembershipKey);
      AppendDistinct'(st.members, m, MemberPairKey);
      Some(st.(members := st.members + [m]))
  }

  /** INSERT INTO Message: primary key; sender and conversation must exist. */
  function InsertMessage(st: Store, m: Message): (r: Option<Store>)
    ensures r.Some? <==>
      && m.id !in Keys(st.messages, MessageKey)
      && m.senderId in UserIds(st.users)
      && m.conversationId in ConversationIds(st.conversations)
    ensures r.Some? ==> r.value == st.(messages := st.messages + [m])
    ensures Valid(st) && r.Some? ==> Valid(r.value)
  {
    if m.id in Keys(st.messages, MessageKey)
      || m.senderId !in UserIds(st.users)
      || m.conversationId !in ConversationIds(st.conversations)
    then None
    else
      AppendDistinct'(st.messages, m, MessageKey);
      Some(st.(messages := st.messages + [m]))
  }

  /** INSERT INTO FriendRequest: primary key, UNIQUE (senderId, receiverId),
      and both parties must exist. */
  function InsertRequest(st: Store, q: FriendRequest): (r: Option<Store>)
    ensures r.Some? <==>
      && q.id !in Keys(st.requests, RequestKey)
      && (q.senderId, q.receiverId) !in Keys(st.requests, RequestPairKey)
      && q.senderId in UserIds(st.users)
      && q.receiverId in UserIds(st.users)
    ensures r.Some? ==> r.value == st.(requests := st.requests + [q])
    ensures Valid(st) && r.Some? ==> Valid(r.value)
  {
    if q.id in Keys(st.requests, RequestKey)
      || (q.senderId, q.receiverId) in Keys(st.requests, RequestPairKey)
      || q.senderId !in UserIds(st.users)
      || q.receiverId !in UserIds(st.users)
    then None
    else
      AppendDistinct'(st.requests, q, RequestKey);
      AppendDistinct'(st.requests, q, RequestPairKey);
      Some(st.(requests := st.requests + [q]))
  }

  /** INSERT INTO MessageReaction: the id is taken to be the primary key; no other
      constraint is declared, so uniqueness per (message, user) is the caller's job. */
  function InsertReaction(st: Store, x: Reaction): (r: Option<Store>)
    ensures r.Some? <==> x.id !in Keys(st.reactions, ReactionKey)
    ensures r.Some? ==> r.value == st.(reactions := st.reactions + [x])
    ensures Valid(st) && r.Some? && (x.messageId, x.userId) !in Keys(st.reactions, ReactionPairKey)
      ==> Valid(r.value)
  {
    if x.id in Keys(st.reactions, ReactionKey) then None
    else
      AppendDistinct'(st.reactions, x, ReactionKey);
      AppendDistinct'(st.reactions, x, ReactionPairKey);
      Some(st.(reactions := st.reactions + [x]))
  }

  // ---------------------------------------------------------------- UPDATE

  /** Replacing the user rows by rows with the same ids and usernames keeps the store valid. */
  lemma ValidAfterUserRewrite(st: Store, users: seq<User>)
    requires |users| == |st.users|
    requires forall i :: 0 <= i < |users| ==>
      users[i].id == st.users[i].id && users[i].username == st.users[i].username
    ensures UserIds(users) == UserIds(st.users)
    ensures Valid(st) ==> Valid(st.(users := users))
  {
    SameKeys(st.users, users, UserKey);
    SameKeys(st.users, users, UsernameKey);
  }

  /** Sets the last-activity stamp of the user rows with this id; nothing else changes. */
  function SetLastActive(st: Store, id: Id, at: Option<nat>): (r: Store)
    ensures |r.users| == |st.users|
    ensures forall i :: 0 <= i < |st.users| ==>
      r.users[i] == if st.users[i].id == id then st.users[i].(lastActiveAt := at) else st.users[i]
    ensures r == st.(users := r.users)
    ensures Valid(st) ==> Valid(r)
  {
    var users := seq(|st.users|, i requires 0 <= i < |st.users| =>
      if st.users[i].id == id then st.users[i].(lastActiveAt := at) else st.users[i]);
    ValidAfterUserRewrite(st, users);
    st.(users := users)
  }

  /** Replaces the password hash of the user rows with this id; nothing else changes. */
  function SetPassword(st: Store, id: Id, hash: string): (r: Store)
    ensures |r.users| == |st.users|
    ensures forall i :: 0 <= i < |st.users| ==>
      r.users[i] == if st.users[i].id == id then st.users[i].(password := hash) else st.users[i]
    ensures r == st.(users := r.users)
    ensures Valid(st) ==> Valid(r)
  {
    var users := seq(|st.users|, i requires 0 <= i < |st.users| =>
      if st.users[i].id == id then st.users[i].(password := hash) else st.users[i]);
    ValidAfterUserRewrite(st, users);
    st.(users := users)
  }

  /** Replaces the avatar URL of the user rows with this id; nothing else changes. */
  function SetAvatar(st: Store, id: Id, url: string): (r: Store)
    ensures |r.users| == |st.users|
    ensures forall i :: 0 <= i < |st.users| ==>
      r.users[i] == if st.users[i].id == id then st.users[i].(avatarUrl := Some(url)) else st.users[i]
    ensures r == st.(users := r.users)
    ensures Valid(st) ==> Valid(r)
  {
    var users := seq(|st.users|, i requires 0 <= i < |st.users| =>
      if st.users[i].id == id then st.users[i].(avatarUrl := Some(url)) else st.users[i]);
    ValidAfterUserRewrite(st, users);
    st.(users := users)
  }

  /** Sets the status of the request rows with this id; nothing else changes. */
  function SetRequestStatus(st: Store, id: Id, status: RequestStatus): (r: Store)
    ensures |r.requests| == |st.requests|
    ensures forall i :: 0 <= i < |st.requests| ==>
      r.requests[i] == if st.requests[i].id == id then st.requests[i].(status := status) else st.requests[i]
    ensures r == st.(requests := r.requests)
    ensures Valid(st) ==> Valid(r)
  {
    var requests := seq(|st.requests|, i requires 0 <= i < |st.requests| =>
      if st.requests[i].id == id then st.requests[i].(status := status) else st.requests[i]);
    ValidAfterRequestRewrite(st, requests);
    st.(requests := requests)
  }

  /** Rewriting request rows in place without touching ids or parties keeps validity. */
  lemma ValidAfterRequestRewrite(st: Store, requests: seq<FriendRequest>)
    requires |requests| == |st.requests|
    requires forall i :: 0 <= i < |requests| ==>
      && requests[i].id == st.requests[i].id
      && requests[i].senderId == st.requests[i].senderId
      && requests[i].receiverId == st.requests[i].receiverId
    ensures Valid(st) ==> Valid(st.(requests := requests))
  {
    SameKeys(st.requests, requests, RequestKey);
    SameKeys(st.requests, requests, RequestPairKey);
    if Valid(st) {
      forall q | q in requests ensures q.senderId in UserIds(st.users) && q.receiverId in UserIds(st.users) {
        var i :| 0 <= i < |requests| && requests[i] == q;
        assert st.requests[i] in st.requests;
      }
    }
  }

  /** A message's row after the bulk read update of conversation `conv` seen by `viewer`. */
  function ReadBy(m: Message, conv: Id, viewer: Id): Message
  {
    if m.conversationId == conv && m.senderId != viewer then m.(isRead := true) else m
  }

  /** Marks as read every message of the conversation that the viewer did not send. */
  function MarkRead(st: Store, conv: Id, viewer: Id): (r: Store)
    ensures |r.messages| == |st.messages|
    ensures forall i :: 0 <= i < |st.messages| ==> r.messages[i] == ReadBy(st.messages[i], conv, viewer)
    ensures r == st.(messages := r.messages)
    ensures Valid(st) ==> Valid(r)
  {
    var messages := seq(|st.messages|, i requires 0 <= i < |st.messages| => ReadBy(st.messages[i], conv, viewer));
    ValidAfterMessageRewrite(st, messages);
    st.(messages := messages)
  }

  /** Rewriting message rows in place without touching ids, senders or conversations keeps validity. */
  lemma ValidAfterMessageRewrite(st: Store, messages: seq<Message>)
    requires |messages| == |st.messages|
    requires forall i :: 0 <= i < |messages| ==>
      && messages[i].id == st.messages[i].id
      && messages[i].senderId == st.messages[i].senderId
      && messages[i].conversationId == st.messages[i].conversationId
    ensures Valid(st) ==> Valid(st.(messages := messages))
  {
    SameKeys(st.messages, messages, MessageKey);
    if Valid(st) {
      forall m | m in messages
        ensures m.senderId in UserIds(st.users) && m.conversationId in ConversationIds(st.conversations)
      {
        var i :| 0 <= i < |messages| && messages[i] == m;
        assert st.messages[i] in st.messages;
      }
    }
  }

  // ---------------------------------------------------------------- DELETE

  /** Removes the request rows with this id. */
  function DeleteRequest(st: Store, id: Id): (r: Store)
    ensures forall q :: q in r.requests <==> q in st.requests && q.id != id
    ensures r == st.(requests := r.requests)
    ensures Valid(st) ==> Valid(r)
  {
    var requests := Filter(st.requests, (q: FriendRequest) => q.id != id);
    FilterDistinct(st.requests, (q: FriendRequest) => q.id != id, RequestKey);
    FilterDistinct(st.requests, (q: FriendRequest) => q.id != id, RequestPairKey);
    st.(requests := requests)
  }

  /** Removes the reaction rows with this id. */
  function DeleteReaction(st: Store, id: Id): (r: Store)
    ensures forall x :: x in r.reactions <==> x in st.reactions && x.id != id
    ensures r.reactions == Filter(st.reactions, (x: Reaction) => x.id != id)
    ensures r == st.(reactions := r.reactions)
    ensures Valid(st) ==> Valid(r)
  {
    var reactions := Filter(st.reactions, (x: Reaction) => x.id != id);
    FilterDistinct(st.reactions, (x: Reaction) => x.id != id, ReactionKey);
    FilterDistinct(st.reactions, (x: Reaction) => x.id != id, ReactionPairKey);
    st.(reactions := reactions)
  }

  /** Removes the user rows with this id, and through ON DELETE CASCADE their membership,
      message and friend-request foreign keys. Reactions and conversations have
      no cascading key and stay. */
  function DeleteUser(st: Store, id: Id): (r: Store)
    ensures forall u :: u in r.users <==> u in st.users && u.id != id
    ensures forall m :: m in r.members <==> m in st.members && m.userId != id
    ensures forall m :: m in r.messages <==> m in st.messages && m.senderId != id
    ensures forall q :: q in r.requests <==> q in st.requests && q.senderId != id && q.receiverId != id
    ensures r.conversations == st.conversations && r.reactions == st.reactions && r.typing == st.typing
    ensures Valid(st) ==> Valid(r)
  {
    var users := Filter(st.users, (u: User) => u.id != id);
    var members := Filter(st.members, (m: Membership) => m.userId != id);
    var messages := Filter(st.messages, (m: Message) => m.senderId != id);
    var requests := Filter(st.requests, (q: FriendRequest) => q.senderId != id && q.receiverId != id);
    var r := st.(users := users, members := members, messages := messages, requests := requests);
    ValidAfterDeleteUser(st, id, r);
    r
  }

  lemma ValidAfterDeleteUser(st: Store, id: Id, r: Store)
    requires r.users == Filter(st.users, (u: User) => u.id != id)
    requires r.members == Filter(st.members, (m: Membership) => m.userId != id)
    requires r.messages == Filter(st.messages, (m: Message) => m.senderId != id)
    requires r.requests == Filter(st.requests, (q: FriendRequest) => q.senderId != id && q.receiverId != id)
    requires r.conversations == st.conversations && r.reactions == st.reactions
    ensures Valid(st) ==> Valid(r)
  {
    if Valid(st) {
      FilterDistinct(st.users, (u: User) => u.id != id, UserKey);
      FilterDistinct(st.users, (u: User) => u.id != id, UsernameKey);
      FilterDistinct(st.members, (m: Membership) => m.userId != id, MembershipKey);
      FilterDistinct(st.members, (m: Membership) => m.userId != id, MemberPairKey);
      FilterDistinct(st.messages, (m: Message) => m.senderId != id, MessageKey);
      FilterDistinct(st.requests, (q: FriendRequest) => q.senderId != id && q.receiverId != id, RequestKey);
      FilterDistinct(st.requests, (q: FriendRequest) => q.senderId != id && q.receiverId != id, RequestPairKey);
      forall x: Id | x in UserIds(st.users) && x != id ensures x in UserIds(r.users) {
        var u :| u in st.users && UserKey(u) == x;
        assert u in r.users;
      }
    }
  }
}
