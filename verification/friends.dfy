/** Friend requests: sending one by username, listing the pending ones, accepting
    and declining by id, and the friend list with unread counts and presence. */
module Friends {
  import opened Base
  import opened Tables
  import opened Schema
  import opened Db
  import opened Presence

  // ---------------------------------------------------------------- links

  /** The unordered pair a request connects. */
  function LinkKey(q: FriendRequest): set<Id>
  {
    {q.senderId, q.receiverId}
  }

  /** The request connects a and b, in either direction. */
  predicate Links(q: FriendRequest, a: Id, b: Id)
  {
    (q.senderId == a && q.receiverId == b) || (q.senderId == b && q.receiverId == a)
  }

  lemma LinkKeyIff(q: FriendRequest, a: Id, b: Id)
    ensures LinkKey(q) == {a, b} <==> Links(q, a, b)
  {
    if LinkKey(q) == {a, b} {
      assert a in LinkKey(q) && b in LinkKey(q);
      assert q.senderId in {a, b} && q.receiverId in {a, b};
    }
  }

  /** At most one request row per unordered pair of users. The unique key only
      covers the ordered pair; the handlers keep the rest. */
  predicate OneLinkPerPair(requests: seq<FriendRequest>)
  {
    Distinct(requests, LinkKey)
  }

  /** No handler ever writes the 'rejected' status: declining deletes the row. */
  predicate NoRejected(requests: seq<FriendRequest>)
  {
    forall q :: q in requests ==> q.status != Rejected
  }

  /** The invariant the friend handlers maintain on the request table. */
  predicate Tidy(requests: seq<FriendRequest>)
  {
    OneLinkPerPair(requests) && NoRejected(requests)
  }

  /** The first request row, in table order, between a and b in either direction. */
  function FindLink(requests: seq<FriendRequest>, a: Id, b: Id): (r: Option<FriendRequest>)
    ensures r.Some? ==> r.value in requests && Links(r.value, a, b)
    ensures r.None? <==> forall q :: q in requests ==> !Links(q, a, b)
  {
    if requests == [] then None
    else if Links(requests[0], a, b) then Some(requests[0])
    else
      assert forall q :: q in requests ==> q == requests[0] || q in requests[1..];
      FindLink(requests[1..], a, b)
  }

  /** With one row per pair, the row found is the only one linking the two. */
  lemma FindLinkUnique(requests: seq<FriendRequest>, a: Id, b: Id, q: FriendRequest)
    requires OneLinkPerPair(requests) && q in requests && Links(q, a, b)
    ensures FindLink(requests, a, b) == Some(q)
  {
    var r := FindLink(requests, a, b).value;
    LinkKeyIff(q, a, b);
    LinkKeyIff(r, a, b);
    DistinctSame(requests, LinkKey, q, r);
  }

  /** a and b are friends: an accepted request links them. */
  predicate AreFriends(st: Store, a: Id, b: Id)
  {
    exists q :: q in st.requests && q.status == Accepted && Links(q, a, b)
  }

  // ---------------------------------------------------------------- send

  /** sendRequest: look the receiver up by username; refuse oneself, an existing
      friendship and a pending request in either direction (judged on the first
      linking row); otherwise insert a pending request. */
  function SendRequest(st: Store, sender: Id, receiverName: string, reqId: Id, now: nat): (r: Step<string>)
    ensures FindByName(st.users, receiverName).None? ==> r == Step(st, Fail(NotFound, "User not found"))
    ensures FindByName(st.users, receiverName).Some? && FindByName(st.users, receiverName).value.id == sender ==>
      r == Step(st, Fail(BadRequest, "Cannot add yourself"))
    ensures r.reply.Fail? ==> r.st == st
    ensures r.reply.Ok? ==>
      && r.reply.value == "Request sent"
      && FindByName(st.users, receiverName).Some?
      && var b := FindByName(st.users, receiverName).value.id;
      && b != sender
      && r.st == st.(requests := st.requests + [FriendRequest(reqId, sender, b, Pending, DbTime(now))])
      && (FindLink(st.requests, sender, b).None? || FindLink(st.requests, sender, b).value.status == Rejected)
    ensures Valid(st) && FindByName(st.users, receiverName).Some? ==>
      var b := FindByName(st.users, receiverName).value.id;
      && b != sender && sender in UserIds(st.users)
      && FindLink(st.requests, sender, b).None? && reqId !in Keys(st.requests, RequestKey) ==>
        r.reply.Ok?
    ensures FindByName(st.users, receiverName).Some? ==>
      var b := FindByName(st.users, receiverName).value.id;
      var link := FindLink(st.requests, sender, b);
      b != sender && (link.None? || link.value.status == Rejected) ==>
        && (r.reply.Ok? <==>
              && sender in UserIds(st.users)
              && (sender, b) !in Keys(st.requests, RequestPairKey)
              && reqId !in Keys(st.requests, RequestKey))
        && (r.reply.Fail? ==> r == Step(st, Fail(ServerError, "Error sending request")))
    ensures Valid(st) ==> Valid(r.st)
  {
    match FindByName(st.users, receiverName)
    case None => Step(st, Fail(NotFound, "User not found"))
    case Some(u) =>
      var b := u.id;
      if b == sender then Step(st, Fail(BadRequest, "Cannot add yourself"))
      else
        var existing := FindLink(st.requests, sender, b);
        if existing.Some? && existing.value.status == Accepted then Step(st, Fail(BadRequest, "Already friends"))
        else if existing.Some? && existing.value.status == Pending then Step(st, Fail(BadRequest, "Request already pending"))
        else
          var q := FriendRequest(reqId, sender, b, Pending, DbTime(now));
          assert Valid(st) ==> b in UserIds(st.users) by {
            assert UserKey(u) == b;
          }
          match InsertRequest(st, q)
          case None => Step(st, Fail(ServerError, "Error sending request"))
          case Some(s) => Step(s, Ok("Request sent"))
  }

  /** Between two users with a live request, a second request is refused with the
      error naming the state of the first. */
  lemma LiveLinkRefused(st: Store, sender: Id, receiverName: string, reqId: Id, now: nat, q: FriendRequest)
    requires OneLinkPerPair(st.requests)
    requires FindByName(st.users, receiverName).Some?
    requires var b := FindByName(st.users, receiverName).value.id;
      b != sender && q in st.requests && Links(q, sender, b) && q.status != Rejected
    ensures SendRequest(st, sender, receiverName, reqId, now) ==
      Step(st, Fail(BadRequest, if q.status == Accepted then "Already friends" else "Request already pending"))
  {
    FindLinkUnique(st.requests, sender, FindByName(st.users, receiverName).value.id, q);
  }

  /** A rejected request from the other side does not block a new one: the handler
      falls through to the insert, which succeeds when no row of its own direction
      exists and the id is fresh. */
  lemma RejectedFallsThrough(st: Store, sender: Id, receiverName: string, reqId: Id, now: nat, q: FriendRequest)
    requires Valid(st) && OneLinkPerPair(st.requests)
    requires FindByName(st.users, receiverName).Some?
    requires var b := FindByName(st.users, receiverName).value.id;
      b != sender && q in st.requests && q.senderId == b && q.receiverId == sender && q.status == Rejected
    requires sender in UserIds(st.users) && reqId !in Keys(st.requests, RequestKey)
    ensures var b := FindByName(st.users, receiverName).value.id;
      SendRequest(st, sender, receiverName, reqId, now) ==
        Step(st.(requests := st.requests + [FriendRequest(reqId, sender, b, Pending, DbTime(now))]), Ok("Request sent"))
  {
    var b := FindByName(st.users, receiverName).value.id;
    FindLinkUnique(st.requests, sender, b, q);
    if (sender, b) in Keys(st.requests, RequestPairKey) {
      var x :| x in st.requests && RequestPairKey(x) == (sender, b);
      LinkKeyIff(x, sender, b);
      LinkKeyIff(q, sender, b);
      DistinctSame(st.requests, LinkKey, q, x);
      assert false;
    }
  }

  /** A rejected request of one's own to the same user blocks a new one: the check
      lets it through, but the insert violates the unique (sender, receiver) key and
      the handler answers with a server error. */
  lemma OwnRejectedFails(st: Store, sender: Id, receiverName: string, reqId: Id, now: nat, q: FriendRequest)
    requires FindByName(st.users, receiverName).Some?
    requires var b := FindByName(st.users, receiverName).value.id;
      b != sender && FindLink(st.requests, sender, b) == Some(q) && q.senderId == sender && q.status == Rejected
    ensures SendRequest(st, sender, receiverName, reqId, now) == Step(st, Fail(ServerError, "Error sending request"))
  {
  }

  /** sendRequest keeps one row per pair while no row is ever 'rejected'. */
  lemma SendRequestKeepsTidy(st: Store, sender: Id, receiverName: string, reqId: Id, now: nat)
    requires Tidy(st.requests)
    ensures Tidy(SendRequest(st, sender, receiverName, reqId, now).st.requests)
  {
    var r := SendRequest(st, sender, receiverName, reqId, now);
    if r.reply.Ok? {
      var b := FindByName(st.users, receiverName).value.id;
      var q := FriendRequest(reqId, sender, b, Pending, DbTime(now));
      assert FindLink(st.requests, sender, b).None?;
      if LinkKey(q) in Keys(st.requests, LinkKey) {
        var x :| x in st.requests && LinkKey(x) == LinkKey(q);
        LinkKeyIff(x, sender, b);
      }
      AppendDistinct'(st.requests, q, LinkKey);
    }
  }

  // ---------------------------------------------------------------- pending

  /** An incoming request as listed: its id, the sender's username, its time. */
  datatype PendingView = PendingView(id: Id, username: string, createdAt: nat)

  /** The requests' senders joined in, in user-table order. */
  function SendersOf(q: FriendRequest, users: seq<User>): (r: seq<PendingView>)
    ensures forall v :: v in r <==> exists u :: u in users && u.id == q.senderId && v == PendingView(q.id, u.username, q.createdAt)
    ensures Distinct(users, UserKey) ==> |r| <= 1
  {
    if users == [] then []
    else
      assert forall u :: u in users ==> u == users[0] || u in users[1..];
      var rest := SendersOf(q, users[1..]);
      OneSender(q, users, rest);
      (if users[0].id == q.senderId then [PendingView(q.id, users[0].username, q.createdAt)] else []) + rest
  }

  lemma TailIdsDiffer(users: seq<User>)
    requires users != []
    ensures Distinct(users, UserKey) ==> forall u :: u in users[1..] ==> u.id != users[0].id
  {
    forall u | Distinct(users, UserKey) && u in users[1..] ensures u.id != users[0].id {
      var k :| 0 <= k < |users[1..]| && users[1..][k] == u;
      assert users[k + 1] == u;
    }
  }

  /** With distinct user ids, the sender's row is the only one the join can hit. */
  lemma OneSender(q: FriendRequest, users: seq<User>, rest: seq<PendingView>)
    requires users != []
    requires forall v :: v in rest ==> exists u :: u in users[1..] && u.id == q.senderId
    requires Distinct(users[1..], UserKey) ==> |rest| <= 1
    ensures Distinct(users, UserKey) ==> Distinct(users[1..], UserKey)
    ensures Distinct(users, UserKey) && users[0].id == q.senderId ==> rest == []
  {
    if Distinct(users, UserKey) {
      forall i, j | 0 <= i < j < |users[1..]| ensures UserKey(users[1..][i]) != UserKey(users[1..][j]) {
        assert users[1..][i] == users[i + 1] && users[1..][j] == users[j + 1];
      }
      if users[0].id == q.senderId && rest != [] {
        assert rest[0] in rest;
        TailIdsDiffer(users);
        assert false;
      }
    }
  }

  function PendingKey(v: PendingView): Id
  {
    v.id
  }

  /** getPendingRequests: the pending requests addressed to `me`, with their senders,
      each request once in a valid store. */
  function GetPendingRequests(st: Store, me: Id): (r: seq<PendingView>)
    ensures forall v :: v in r <==>
      exists q, u :: q in st.requests && q.receiverId == me && q.status == Pending
                  && u in st.users && u.id == q.senderId && v == PendingView(q.id, u.username, q.createdAt)
    ensures Valid(st) ==> Distinct(r, PendingKey)
  {
    PendingIn(st.requests, st.users, me)
  }

  function PendingIn(requests: seq<FriendRequest>, users: seq<User>, me: Id): (r: seq<PendingView>)
    ensures forall v :: v in r <==>
      exists q, u :: q in requests && q.receiverId == me && q.status == Pending
                  && u in users && u.id == q.senderId && v == PendingView(q.id, u.username, q.createdAt)
    ensures Distinct(requests, RequestKey) && Distinct(users, UserKey) ==> Distinct(r, PendingKey)
  {
    if requests == [] then []
    else
      var q := requests[0];
      assert forall x :: x in requests ==> x == q || x in requests[1..];
      var head := if q.receiverId == me && q.status == Pending then SendersOf(q, users) else [];
      var rest := PendingIn(requests[1..], users, me);
      PendingDistinct(requests, users, head, rest);
      head + rest
  }

  /** The head request's rows carry its id, which no later request has. */
  lemma PendingDistinct(requests: seq<FriendRequest>, users: seq<User>, head: seq<PendingView>, rest: seq<PendingView>)
    requires requests != []
    requires |head| <= 1 || !Distinct(users, UserKey)
    requires forall v :: v in head ==> v.id == requests[0].id
    requires forall v :: v in rest ==> exists q :: q in requests[1..] && q.id == v.id
    requires Distinct(requests[1..], RequestKey) && Distinct(users, UserKey) ==> Distinct(rest, PendingKey)
    ensures Distinct(requests, RequestKey) && Distinct(users, UserKey) ==> Distinct(head + rest, PendingKey)
  {
    if Distinct(requests, RequestKey) && Distinct(users, UserKey) {
      forall i, j | 0 <= i < j < |requests[1..]| ensures RequestKey(requests[1..][i]) != RequestKey(requests[1..][j]) {
        assert requests[1..][i] == requests[i + 1] && requests[1..][j] == requests[j + 1];
      }
      forall x, y | x in head && y in rest ensures PendingKey(x) != PendingKey(y) {
        var q :| q in requests[1..] && q.id == y.id;
        var k :| 0 <= k < |requests[1..]| && requests[1..][k] == q;
        assert requests[k + 1] == q;
      }
      DistinctConcat(head, rest, PendingKey);
    }
  }

  // ---------------------------------------------------------------- accept / decline

  /** acceptRequest: mark the row accepted. Who calls is not checked, and an
      unknown id still answers "Accepted". */
  function AcceptRequest(st: Store, reqId: Id): (r: Step<string>)
    ensures r.reply == Ok("Accepted")
    ensures |r.st.requests| == |st.requests|
    ensures forall i :: 0 <= i < |st.requests| ==>
      && r.st.requests[i].id == st.requests[i].id
      && LinkKey(r.st.requests[i]) == LinkKey(st.requests[i])
      && r.st.requests[i].status == (if st.requests[i].id == reqId then Accepted else st.requests[i].status)
    ensures r.st == st.(requests := r.st.requests)
    ensures Valid(st) ==> Valid(r.st)
  {
    Step(SetRequestStatus(st, reqId, Accepted), Ok("Accepted"))
  }

  /** declineRequest: delete the row; an unknown id still answers "Declined". */
  function DeclineRequest(st: Store, reqId: Id): (r: Step<string>)
    ensures r.reply == Ok("Declined")
    ensures forall q :: q in r.st.requests <==> q in st.requests && q.id != reqId
    ensures r.st == st.(requests := r.st.requests)
    ensures Valid(st) ==> Valid(r.st)
  {
    Step(DeleteRequest(st, reqId), Ok("Declined"))
  }

  /** Accepting a request makes its two parties friends, whichever way round. */
  lemma AcceptMakesFriends(st: Store, q: FriendRequest)
    requires q in st.requests
    ensures var s := AcceptRequest(st, q.id).st;
      AreFriends(s, q.senderId, q.receiverId) && AreFriends(s, q.receiverId, q.senderId)
  {
    var s := AcceptRequest(st, q.id).st;
    var i :| 0 <= i < |st.requests| && st.requests[i] == q;
    var x := s.requests[i];
    assert x == q.(status := Accepted);
    assert x in s.requests && Links(x, q.senderId, q.receiverId) && Links(x, q.receiverId, q.senderId);
  }

  /** An accepted request no longer shows among its receiver's pending ones. */
  lemma AcceptClearsPending(st: Store, reqId: Id, me: Id)
    ensures forall v :: v in GetPendingRequests(AcceptRequest(st, reqId).st, me) ==> v.id != reqId
  {
    var s := AcceptRequest(st, reqId).st;
    forall v | v in GetPendingRequests(s, me) ensures v.id != reqId {
      var x, u :| x in s.requests && x.receiverId == me && x.status == Pending
                  && u in s.users && u.id == x.senderId && v == PendingView(x.id, u.username, x.createdAt);
      var j :| 0 <= j < |s.requests| && s.requests[j] == x;
    }
  }

  /** Accepting changes a status and no pair, so the table stays tidy. */
  lemma AcceptKeepsTidy(st: Store, reqId: Id)
    requires Tidy(st.requests)
    ensures Tidy(AcceptRequest(st, reqId).st.requests)
  {
    var s := AcceptRequest(st, reqId).st;
    SameKeys(st.requests, s.requests, LinkKey);
    forall x | x in s.requests ensures x.status != Rejected {
      var j :| 0 <= j < |s.requests| && s.requests[j] == x;
      assert st.requests[j] in st.requests;
    }
  }

  /** Declining the only request between two users leaves them neither friends
      nor with anything pending between them; the table stays tidy. */
  lemma DeclineUnlinks(st: Store, q: FriendRequest)
    requires Valid(st) && OneLinkPerPair(st.requests) && q in st.requests
    ensures var s := DeclineRequest(st, q.id).st;
      && !AreFriends(s, q.senderId, q.receiverId)
      && FindLink(s.requests, q.senderId, q.receiverId).None?
    ensures Tidy(st.requests) ==> Tidy(DeclineRequest(st, q.id).st.requests)
  {
    var s := DeclineRequest(st, q.id).st;
    forall x | x in s.requests ensures !Links(x, q.senderId, q.receiverId) {
      if Links(x, q.senderId, q.receiverId) {
        LinkKeyIff(x, q.senderId, q.receiverId);
        LinkKeyIff(q, q.senderId, q.receiverId);
        DistinctSame(st.requests, LinkKey, x, q);
      }
    }
    FilterDistinct(st.requests, (x: FriendRequest) => x.id != q.id, LinkKey);
  }

  // ---------------------------------------------------------------- friend list

  /** Unread messages `friend` sent into any conversation `me` belongs to. */
  predicate UnreadFrom(st: Store, m: Message, me: Id, friend: Id)
  {
    m.senderId == friend && IsMember(st, me, m.conversationId) && !m.isRead
  }

  function CountUnreadFrom(st: Store, ms: seq<Message>, me: Id, friend: Id): nat
  {
    if ms == [] then 0
    else (if UnreadFrom(st, ms[0], me, friend) then 1 else 0) + CountUnreadFrom(st, ms[1..], me, friend)
  }

  /** The count is zero exactly when there is no such message. */
  lemma {:induction false} CountUnreadFromZero(st: Store, ms: seq<Message>, me: Id, friend: Id)
    ensures CountUnreadFrom(st, ms, me, friend) == 0 <==> forall m :: m in ms ==> !UnreadFrom(st, m, me, friend)
  {
    if ms != [] {
      CountUnreadFromZero(st, ms[1..], me, friend);
      assert forall m :: m in ms ==> m == ms[0] || m in ms[1..];
    }
  }

  /** A friend as listed. */
  datatype FriendView = FriendView(id: Id, username: string, avatarUrl: Option<string>, unreadCount: nat, isOnline: bool)

  function FriendViewOf(st: Store, me: Id, u: User, now: nat): FriendView
  {
    FriendView(u.id, u.username, u.avatarUrl, CountUnreadFrom(st, st.messages, me, u.id), IsOnline(u, now))
  }

  /** For one request row: a friend entry for each user row of a party to it other than the caller. */
  function OtherParty(st: Store, q: FriendRequest, users: seq<User>, me: Id, now: nat): (r: seq<FriendView>)
    ensures forall v :: v in r <==>
      exists u :: u in users && (u.id == q.senderId || u.id == q.receiverId) && u.id != me && v == FriendViewOf(st, me, u, now)
  {
    if users == [] then []
    else
      var u := users[0];
      assert forall x :: x in users ==> x == u || x in users[1..];
      (if (u.id == q.senderId || u.id == q.receiverId) && u.id != me then [FriendViewOf(st, me, u, now)] else [])
        + OtherParty(st, q, users[1..], me, now)
  }

  function FriendRows(st: Store, requests: seq<FriendRequest>, me: Id, now: nat): (r: seq<FriendView>)
    ensures forall v :: v in r <==>
      exists q, u :: q in requests && q.status == Accepted && (q.senderId == me || q.receiverId == me)
                  && u in st.users && (u.id == q.senderId || u.id == q.receiverId) && u.id != me
                  && v == FriendViewOf(st, me, u, now)
  {
    if requests == [] then []
    else
      var q := requests[0];
      assert forall x :: x in requests ==> x == q || x in requests[1..];
      (if q.status == Accepted && (q.senderId == me || q.receiverId == me) then OtherParty(st, q, st.users, me, now) else [])
        + FriendRows(st, requests[1..], me, now)
  }

  /** getFriends: the other party of every accepted request involving `me`, with
      the unread count of what they sent into `me`'s conversations and whether
      they are online (the bot always is). */
  function GetFriends(st: Store, me: Id, now: nat): (r: seq<FriendView>)
    ensures forall v :: v in r ==>
      exists u :: u in st.users && u.id != me && AreFriends(st, me, u.id) && v == FriendViewOf(st, me, u, now)
    ensures forall u :: u in st.users && u.id != me && AreFriends(st, me, u.id) ==> FriendViewOf(st, me, u, now) in r
  {
    var r := FriendRows(st, st.requests, me, now);
    forall u | u in st.users && u.id != me && AreFriends(st, me, u.id) ensures FriendViewOf(st, me, u, now) in r {
      var q :| q in st.requests && q.status == Accepted && Links(q, me, u.id);
    }
    r
  }

  /** A user other than `me` is on `me`'s list exactly when an accepted request links them. */
  lemma ListedIff(st: Store, me: Id, b: User, now: nat)
    requires b in st.users && b.id != me
    ensures (exists v :: v in GetFriends(st, me, now) && v.id == b.id) <==> AreFriends(st, me, b.id)
  {
    if exists v :: v in GetFriends(st, me, now) && v.id == b.id {
      var v :| v in GetFriends(st, me, now) && v.id == b.id;
      var u :| u in st.users && u.id != me && AreFriends(st, me, u.id) && v == FriendViewOf(st, me, u, now);
    }
    if AreFriends(st, me, b.id) {
      assert FriendViewOf(st, me, b, now) in GetFriends(st, me, now);
    }
  }

  /** Friendship as listed is symmetric: b is on a's list exactly when a is on b's. */
  lemma FriendListSymmetric(st: Store, a: User, b: User, now: nat)
    requires a in st.users && b in st.users && a.id != b.id
    ensures (exists v :: v in GetFriends(st, a.id, now) && v.id == b.id) <==>
            (exists v :: v in GetFriends(st, b.id, now) && v.id == a.id)
  {
    ListedIff(st, a.id, b, now);
    ListedIff(st, b.id, a, now);
    assert AreFriends(st, a.id, b.id) <==> AreFriends(st, b.id, a.id) by {
      if AreFriends(st, a.id, b.id) {
        var q :| q in st.requests && q.status == Accepted && Links(q, a.id, b.id);
        assert Links(q, b.id, a.id);
      }
      if AreFriends(st, b.id, a.id) {
        var q :| q in st.requests && q.status == Accepted && Links(q, b.id, a.id);
        assert Links(q, a.id, b.id);
      }
    }
  }
}
