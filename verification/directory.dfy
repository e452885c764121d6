/** The conversation directory: direct-chat find-or-create, group creation inside
    a transaction, and the per-viewer conversation list. */
module Directory {
  import opened Base
  import opened Tables
  import opened Schema
  import opened Db
  import opened Presence
  import opened MessageStore

  // ---------------------------------------------------------------- find-or-create

  /** Some conversation has both users as members. The title is not consulted, and
      with a == b any conversation of a qualifies (both joins may hit one row). */
  predicate Shared(st: Store, a: Id, b: Id)
  {
    exists c :: c in st.conversations && IsMember(st, a, c.id) && IsMember(st, b, c.id)
  }

  /** The join Conversation x ConversationMember x ConversationMember, first row. */
  function FindShared(st: Store, convs: seq<Conversation>, a: Id, b: Id): (r: Option<Conversation>)
    ensures r.Some? ==> r.value in convs && IsMember(st, a, r.value.id) && IsMember(st, b, r.value.id)
    ensures r.None? <==> forall c :: c in convs ==> !(IsMember(st, a, c.id) && IsMember(st, b, c.id))
  {
    if convs == [] then None
    else if IsMember(st, a, convs[0].id) && IsMember(st, b, convs[0].id) then Some(convs[0])
    else
      assert forall c :: c in convs ==> c == convs[0] || c in convs[1..];
      FindShared(st, convs[1..], a, b)
  }

  /** createConversation answers the existing row, or the id of the new one. */
  datatype ConvRef = Existing(conversation: Conversation) | Created(id: Id)

  /** The three inserts of a new direct conversation; None if one of them throws. */
  function NewDirect(st: Store, sender: Id, recipient: Id, convId: Id, m1Id: Id, m2Id: Id, t: nat): (r: Option<Store>)
    ensures r.Some? ==> r.value == st.(
      conversations := st.conversations + [Conversation(convId, None, t)],
      members := st.members + [Membership(m1Id, sender, convId, PlainMember, t),
                               Membership(m2Id, recipient, convId, PlainMember, t)])
    ensures Valid(st) && r.Some? ==> Valid(r.value)
    ensures Valid(st) ==> (r.Some? <==>
      && convId !in ConversationIds(st.conversations)
      && m1Id !in Keys(st.members, MembershipKey)
      && m2Id !in Keys(st.members, MembershipKey)
      && m1Id != m2Id
      && sender != recipient
      && sender in UserIds(st.users)
      && recipient in UserIds(st.users))
  {
    var m1 := Membership(m1Id, sender, convId, PlainMember, t);
    var m2 := Membership(m2Id, recipient, convId, PlainMember, t);
    NewConversationHasNoMembers(st, Conversation(convId, None, t), sender, recipient, m1);
    match InsertConversation(st, Conversation(convId, None, t))
    case None => None
    case Some(s1) =>
      match InsertMember(s1, m1)
      case None => None
      case Some(s2) =>
        match InsertMember(s2, m2)
        case None => None
        case Some(s3) =>
          assert s2.members + [m2] == st.members + [m1, m2];
          Some(s3)
  }

  /** In a valid store no membership row points at a conversation id not yet taken. */
  lemma NewConversationHasNoMembers(st: Store, c: Conversation, a: Id, b: Id, m1: Membership)
    ensures Valid(st) && c.id !in ConversationIds(st.conversations) ==>
      && (a, c.id) !in Keys(st.members, MemberPairKey)
      && ((b, c.id) !in Keys(st.members + [m1], MemberPairKey) <==> MemberPairKey(m1) != (b, c.id))
    ensures c.id in ConversationIds(st.conversations + [c])
    ensures Keys(st.members + [m1], MembershipKey) == Keys(st.members, MembershipKey) + {m1.id}
  {
    AppendDistinct'(st.conversations, c, ConversationKey);
    AppendDistinct'(st.members, m1, MemberPairKey);
    AppendDistinct'(st.members, m1, MembershipKey);
  }

  /** createConversation: return a conversation already shared by the two users
      (touching nothing), else create an untitled one with exactly the two of them,
      rolling everything back if an insert throws. */
  function CreateConversation(st: Store, sender: Id, recipient: Id, convId: Id, m1Id: Id, m2Id: Id, now: nat)
    : (r: Step<ConvRef>)
    ensures Shared(st, sender, recipient) ==>
      && r.st == st
      && r.reply.Ok? && r.reply.value.Existing?
      && var c := r.reply.value.conversation;
      && c in st.conversations && IsMember(st, sender, c.id) && IsMember(st, recipient, c.id)
    ensures !Shared(st, sender, recipient) && r.reply.Ok? ==>
      && r.reply == Ok(Created(convId))
      && r.st == st.(
           conversations := st.conversations + [Conversation(convId, None, DbTime(now))],
           members := st.members + [Membership(m1Id, sender, convId, PlainMember, DbTime(now)),
                                    Membership(m2Id, recipient, convId, PlainMember, DbTime(now))])
    ensures Valid(st) && !Shared(st, sender, recipient) ==> (r.reply.Ok? <==>
      && convId !in ConversationIds(st.conversations)
      && m1Id !in Keys(st.members, MembershipKey)
      && m2Id !in Keys(st.members, MembershipKey)
      && m1Id != m2Id
      && sender != recipient
      && sender in UserIds(st.users)
      && recipient in UserIds(st.users))
    ensures r.reply.Fail? ==> r.st == st && r.reply == Fail(ServerError, "Could not create conversation")
    ensures Valid(st) ==> Valid(r.st)
  {
    match FindShared(st, st.conversations, sender, recipient)
    case Some(c) => Step(st, Ok(Existing(c)))
    case None =>
      match NewDirect(st, sender, recipient, convId, m1Id, m2Id, DbTime(now))
      case None => Step(st, Fail(ServerError, "Could not create conversation"))
      case Some(s) => Step(s, Ok(Created(convId)))
  }

  /** Calling find-or-create again for the same pair, in either order, returns the
      conversation the first call created and inserts nothing. */
  lemma CreateConversationSettles(st: Store, a: Id, b: Id, convId: Id, m1Id: Id, m2Id: Id, now: nat,
                                   id1: Id, id2: Id, id3: Id, later: nat)
    requires Valid(st)
    ensures var first := CreateConversation(st, a, b, convId, m1Id, m2Id, now);
      first.reply.Ok? ==>
        && CreateConversation(first.st, a, b, id1, id2, id3, later).st == first.st
        && CreateConversation(first.st, b, a, id1, id2, id3, later).st == first.st
  {
    var first := CreateConversation(st, a, b, convId, m1Id, m2Id, now);
    if first.reply.Ok? {
      var s := first.st;
      if first.reply.value.Existing? {
        var c :| c in st.conversations && IsMember(st, a, c.id) && IsMember(st, b, c.id);
        assert Shared(s, b, a);
      } else {
        var c := Conversation(convId, None, DbTime(now));
        assert c in s.conversations;
        var ma := Membership(m1Id, a, convId, PlainMember, DbTime(now));
        var mb := Membership(m2Id, b, convId, PlainMember, DbTime(now));
        assert ma in s.members && mb in s.members;
        assert Shared(s, a, b) && Shared(s, b, a);
      }
    }
  }

  // ---------------------------------------------------------------- groups

  /** The plain membership rows createGroup inserts, one per listed member, with
      ids drawn from the id supply starting at k. */
  function MemberRows(ids: seq<Id>, conv: Id, supply: nat -> Id, k: nat, t: nat): (r: seq<Membership>)
    ensures |r| == |ids|
    ensures forall i :: 0 <= i < |ids| ==> r[i] == Membership(supply(k + i), ids[i], conv, PlainMember, t)
  {
    seq(|ids|, i requires 0 <= i < |ids| => Membership(supply(k + i), ids[i], conv, PlainMember, t))
  }

  /** When every insert of the member loop passes: each listed user exists, none is
      listed twice or already in the conversation, and the membership ids
      supply(k), ..., supply(k + |ids| - 1) are unused and pairwise different. */
  predicate MembersInsertable(st: Store, conv: Id, ids: seq<Id>, supply: nat -> Id, k: nat)
  {
    && (forall i :: 0 <= i < |ids| ==> ids[i] in UserIds(st.users) && (ids[i], conv) !in Keys(st.members, MemberPairKey))
    && (forall i, j :: 0 <= i < j < |ids| ==> ids[i] != ids[j])
    && (forall n :: k <= n < k + |ids| ==> supply(n) !in Keys(st.members, MembershipKey))
    && (forall n, m :: k <= n < m < k + |ids| ==> supply(n) != supply(m))
  }

  /** The loop inserting the listed members; None as soon as one insert throws. */
  function AddMembers(st: Store, conv: Id, ids: seq<Id>, supply: nat -> Id, k: nat, t: nat): (r: Option<Store>)
    ensures r.Some? ==> r.value == st.(members := st.members + MemberRows(ids, conv, supply, k, t))
    ensures Valid(st) && r.Some? ==> Valid(r.value)
    ensures Valid(st) && conv in ConversationIds(st.conversations) ==>
      (r.Some? <==> MembersInsertable(st, conv, ids, supply, k))
    decreases |ids|
  {
    if ids == [] then Some(st)
    else
      var row := Membership(supply(k), ids[0], conv, PlainMember, t);
      MembersInsertableCons(st, conv, ids, supply, k, t);
      match InsertMember(st, row)
      case None => None
      case Some(s) =>
        MemberRowsCons(st.members, ids, conv, supply, k, t);
        AddMembers(s, conv, ids[1..], supply, k + 1, t)
  }

  /** The loop's condition splits into the first insert's and the rest's, judged
      against the store with the first row added. */
  lemma MembersInsertableCons(st: Store, conv: Id, ids: seq<Id>, supply: nat -> Id, k: nat, t: nat)
    requires ids != []
    ensures var row := Membership(supply(k), ids[0], conv, PlainMember, t);
      conv in ConversationIds(st.conversations) ==>
      (MembersInsertable(st, conv, ids, supply, k) <==>
        InsertMember(st, row).Some? &&
        MembersInsertable(st.(members := st.members + [row]), conv, ids[1..], supply, k + 1))
  {
    var row := Membership(supply(k), ids[0], conv, PlainMember, t);
    AppendDistinct'(st.members, row, MemberPairKey);
    AppendDistinct'(st.members, row, MembershipKey);
    InsertableSplits(st, conv, ids, supply, k, t);
    InsertableJoins(st, conv, ids, supply, k, t);
  }

  lemma InsertableSplits(st: Store, conv: Id, ids: seq<Id>, supply: nat -> Id, k: nat, t: nat)
    requires ids != []
    requires var row := Membership(supply(k), ids[0], conv, PlainMember, t);
      && Keys(st.members + [row], MemberPairKey) == Keys(st.members, MemberPairKey) + {(ids[0], conv)}
      && Keys(st.members + [row], MembershipKey) == Keys(st.members, MembershipKey) + {supply(k)}
    ensures var row := Membership(supply(k), ids[0], conv, PlainMember, t);
      MembersInsertable(st, conv, ids, supply, k) ==>
        && supply(k) !in Keys(st.members, MembershipKey)
        && (ids[0], conv) !in Keys(st.members, MemberPairKey)
        && ids[0] in UserIds(st.users)
        && MembersInsertable(st.(members := st.members + [row]), conv, ids[1..], supply, k + 1)
  {
    var row := Membership(supply(k), ids[0], conv, PlainMember, t);
    var s := st.(members := st.members + [row]);
    var rest := ids[1..];
    if MembersInsertable(st, conv, ids, supply, k) {
      assert ids[0] in UserIds(st.users);
      assert supply(k) !in Keys(st.members, MembershipKey);
      forall i | 0 <= i < |rest| ensures rest[i] in UserIds(s.users) && (rest[i], conv) !in Keys(s.members, MemberPairKey) {
        assert rest[i] == ids[i + 1];
        assert ids[0] != ids[i + 1];
      }
      forall i, j | 0 <= i < j < |rest| ensures rest[i] != rest[j] {
        assert rest[i] == ids[i + 1] && rest[j] == ids[j + 1];
      }
      forall n | k + 1 <= n < k + 1 + |rest| ensures supply(n) !in Keys(s.members, MembershipKey) {
        assert supply(k) != supply(n);
      }
    }
  }

  lemma InsertableJoins(st: Store, conv: Id, ids: seq<Id>, supply: nat -> Id, k: nat, t: nat)
    requires ids != []
    requires var row := Membership(supply(k), ids[0], conv, PlainMember, t);
      && Keys(st.members + [row], MemberPairKey) == Keys(st.members, MemberPairKey) + {(ids[0], conv)}
      && Keys(st.members + [row], MembershipKey) == Keys(st.members, MembershipKey) + {supply(k)}
    ensures var row := Membership(supply(k), ids[0], conv, PlainMember, t);
      && supply(k) !in Keys(st.members, MembershipKey)
      && (ids[0], conv) !in Keys(st.members, MemberPairKey)
      && ids[0] in UserIds(st.users)
      && MembersInsertable(st.(members := st.members + [row]), conv, ids[1..], supply, k + 1)
      ==> MembersInsertable(st, conv, ids, supply, k)
  {
    var row := Membership(supply(k), ids[0], conv, PlainMember, t);
    var s := st.(members := st.members + [row]);
    var rest := ids[1..];
    if && supply(k) !in Keys(st.members, MembershipKey)
       && (ids[0], conv) !in Keys(st.members, MemberPairKey)
       && ids[0] in UserIds(st.users)
       && MembersInsertable(s, conv, rest, supply, k + 1)
    {
      forall i, j | 0 <= i < j < |ids| ensures ids[i] != ids[j] {
        if i == 0 {
          assert rest[j - 1] == ids[j];
          assert (rest[j - 1], conv) !in Keys(s.members, MemberPairKey);
        } else {
          assert rest[i - 1] == ids[i] && rest[j - 1] == ids[j];
        }
      }
      forall i | 0 <= i < |ids| ensures ids[i] in UserIds(st.users) && (ids[i], conv) !in Keys(st.members, MemberPairKey) {
        if i > 0 {
          assert rest[i - 1] == ids[i];
          assert (rest[i - 1], conv) !in Keys(s.members, MemberPairKey);
        }
      }
      forall n, m | k <= n < m < k + |ids| ensures supply(n) != supply(m) {
        if n == k {
          assert supply(m) !in Keys(s.members, MembershipKey);
        }
      }
      forall n | k <= n < k + |ids| ensures supply(n) !in Keys(st.members, MembershipKey) {
        if n > k { assert supply(n) !in Keys(s.members, MembershipKey); }
      }
    }
  }

  lemma MemberRowsCons(ms: seq<Membership>, ids: seq<Id>, conv: Id, supply: nat -> Id, k: nat, t: nat)
    requires ids != []
    ensures ms + MemberRows(ids, conv, supply, k, t) ==
      (ms + [Membership(supply(k), ids[0], conv, PlainMember, t)]) + MemberRows(ids[1..], conv, supply, k + 1, t)
  {
    var whole := MemberRows(ids, conv, supply, k, t);
    var rest := MemberRows(ids[1..], conv, supply, k + 1, t);
    assert whole == [whole[0]] + rest by {
      forall i | 1 <= i < |whole| ensures whole[i] == rest[i - 1] {
        assert ids[1..][i - 1] == ids[i];
      }
    }
  }

  /** The member loop fails on a member listed twice and on one already in the
      conversation, because the second insert of a pair violates unique_member. */
  lemma {:induction false} AddMembersRejects(st: Store, conv: Id, ids: seq<Id>, supply: nat -> Id, k: nat, t: nat)
    ensures (exists i, j :: 0 <= i < j < |ids| && ids[i] == ids[j]) ==> AddMembers(st, conv, ids, supply, k, t).None?
    ensures (exists i :: 0 <= i < |ids| && (ids[i], conv) in Keys(st.members, MemberPairKey)) ==>
      AddMembers(st, conv, ids, supply, k, t).None?
    decreases |ids|
  {
    if ids != [] {
      var row := Membership(supply(k), ids[0], conv, PlainMember, t);
      match InsertMember(st, row)
      case None =>
      case Some(s) =>
        AddMembersRejects(s, conv, ids[1..], supply, k + 1, t);
        AppendDistinct'(st.members, row, MemberPairKey);
        assert forall i :: 1 <= i < |ids| ==> ids[1..][i - 1] == ids[i];
        if exists i, j :: 0 <= i < j < |ids| && ids[i] == ids[j] {
          var i, j :| 0 <= i < j < |ids| && ids[i] == ids[j];
          if i == 0 {
            assert (ids[1..][j - 1], conv) in Keys(s.members, MemberPairKey);
          } else {
            assert ids[1..][i - 1] == ids[1..][j - 1];
          }
        }
        if exists i :: 0 <= i < |ids| && (ids[i], conv) in Keys(st.members, MemberPairKey) {
          var i :| 0 <= i < |ids| && (ids[i], conv) in Keys(st.members, MemberPairKey);
          assert i != 0;
          assert (ids[1..][i - 1], conv) in Keys(s.members, MemberPairKey);
        }
    }
  }

  /** When every insert of createGroup passes: the new conversation id is unused,
      the admin and every listed member exist, no member is listed twice or is the
      admin, and the membership ids supply(1), ..., supply(|memberIds| + 1) are
      unused and pairwise different. */
  predicate GroupInsertable(st: Store, admin: Id, memberIds: seq<Id>, supply: nat -> Id)
  {
    && supply(0) !in ConversationIds(st.conversations)
    && admin in UserIds(st.users)
    && (forall i :: 0 <= i < |memberIds| ==> memberIds[i] in UserIds(st.users) && memberIds[i] != admin)
    && (forall i, j :: 0 <= i < j < |memberIds| ==> memberIds[i] != memberIds[j])
    && (forall n :: 1 <= n <= |memberIds| + 1 ==> supply(n) !in Keys(st.members, MembershipKey))
    && (forall n, m :: 1 <= n < m <= |memberIds| + 1 ==> supply(n) != supply(m))
  }

  /** createGroup's condition is that of its three stages in turn: the conversation
      insert, the admin's membership, and the member loop after both. */
  lemma GroupStages(st: Store, admin: Id, title: Option<string>, memberIds: seq<Id>, supply: nat -> Id, t: nat)
    ensures Valid(st) ==>
      var conv := supply(0);
      var s1 := st.(conversations := st.conversations + [Conversation(conv, title, t)]);
      var adminRow := Membership(supply(1), admin, conv, GroupAdmin, t);
      var s2 := s1.(members := st.members + [adminRow]);
      GroupInsertable(st, admin, memberIds, supply) <==>
        && conv !in ConversationIds(st.conversations)
        && InsertMember(s1, adminRow).Some?
        && MembersInsertable(s2, conv, memberIds, supply, 2)
  {
    var conv := supply(0);
    var c := Conversation(conv, title, t);
    var s1 := st.(conversations := st.conversations + [c]);
    var adminRow := Membership(supply(1), admin, conv, GroupAdmin, t);
    var s2 := s1.(members := st.members + [adminRow]);
    if Valid(st) && conv !in ConversationIds(st.conversations) {
      NewConversationHasNoMembers(st, c, admin, admin, adminRow);
      NoMembersYet(st, conv);
      AppendDistinct'(st.members, adminRow, MemberPairKey);
      AppendDistinct'(st.members, adminRow, MembershipKey);
      assert ConversationIds(s1.conversations) == ConversationIds(st.conversations) + {conv} by {
        AppendDistinct'(st.conversations, c, ConversationKey);
      }
      if GroupInsertable(st, admin, memberIds, supply) {
        assert supply(1) !in Keys(st.members, MembershipKey);
        forall n | 2 <= n < 2 + |memberIds| ensures supply(n) !in Keys(s2.members, MembershipKey) {
          assert supply(1) != supply(n);
        }
      }
      if InsertMember(s1, adminRow).Some? && MembersInsertable(s2, conv, memberIds, supply, 2) {
        forall i | 0 <= i < |memberIds| ensures memberIds[i] != admin {
          assert (memberIds[i], conv) !in Keys(s2.members, MemberPairKey);
        }
        forall n | 1 <= n <= |memberIds| + 1 ensures supply(n) !in Keys(st.members, MembershipKey) {
          if n > 1 { assert supply(n) !in Keys(s2.members, MembershipKey); }
        }
        forall n, m | 1 <= n < m <= |memberIds| + 1 ensures supply(n) != supply(m) {
          if n == 1 { assert supply(m) !in Keys(s2.members, MembershipKey); }
        }
      }
    }
  }

  /** In a valid store no membership row points at an unused conversation id. */
  lemma NoMembersYet(st: Store, conv: Id)
    requires Valid(st) && conv !in ConversationIds(st.conversations)
    ensures forall u :: (u, conv) !in Keys(st.members, MemberPairKey)
  {
    forall u ensures (u, conv) !in Keys(st.members, MemberPairKey) {
      NewConversationHasNoMembers(st, Conversation(conv, None, 0), u, u, Membership(conv, u, conv, PlainMember, 0));
    }
  }

  /** createGroup answers the new id and the title. */
  datatype GroupRef = GroupRef(id: Id, title: Option<string>)

  /** createGroup: inside one transaction, a titled conversation, the caller as its
      admin, then every listed member. If any insert throws — a listed member
      that does not exist, a duplicate, or the admin listed again — everything is
      rolled back. */
  function CreateGroup(st: Store, admin: Id, title: Option<string>, memberIds: seq<Id>, supply: nat -> Id, now: nat)
    : (r: Step<GroupRef>)
    ensures r.reply.Ok? ==>
      && r.reply == Ok(GroupRef(supply(0), title))
      && r.st == st.(
           conversations := st.conversations + [Conversation(supply(0), title, DbTime(now))],
           members := st.members + [Membership(supply(1), admin, supply(0), GroupAdmin, DbTime(now))]
                                 + MemberRows(memberIds, supply(0), supply, 2, DbTime(now)))
    ensures r.reply.Fail? ==> r.st == st && r.reply == Fail(ServerError, "Could not create group")
    ensures (exists i, j :: 0 <= i < j < |memberIds| && memberIds[i] == memberIds[j]) ==> r.reply.Fail?
    ensures admin in memberIds ==> r.reply.Fail?
    ensures Valid(st) ==> (r.reply.Ok? <==> GroupInsertable(st, admin, memberIds, supply))
    ensures Valid(st) ==> Valid(r.st)
  {
    var t := DbTime(now);
    GroupStages(st, admin, title, memberIds, supply, t);
    var conv := supply(0);
    var adminRow := Membership(supply(1), admin, conv, GroupAdmin, t);
    match InsertConversation(st, Conversation(conv, title, t))
    case None => Step(st, Fail(ServerError, "Could not create group"))
    case Some(s1) =>
      match InsertMember(s1, adminRow)
      case None => Step(st, Fail(ServerError, "Could not create group"))
      case Some(s2) =>
        AppendDistinct'(s1.members, adminRow, MemberPairKey);
        AddMembersRejects(s2, conv, memberIds, supply, 2, t);
        assert admin in memberIds ==> exists i :: 0 <= i < |memberIds| && (memberIds[i], conv) in Keys(s2.members, MemberPairKey);
        match AddMembers(s2, conv, memberIds, supply, 2, t)
        case None => Step(st, Fail(ServerError, "Could not create group"))
        case Some(s3) => Step(s3, Ok(GroupRef(conv, title)))
  }

  /** A group that was created has exactly the admin and the listed users as members. */
  lemma GroupMembers(st: Store, admin: Id, title: Option<string>, memberIds: seq<Id>, supply: nat -> Id, now: nat)
    requires Valid(st)
    ensures var r := CreateGroup(st, admin, title, memberIds, supply, now);
      r.reply.Ok? ==> forall u :: IsMember(r.st, u, supply(0)) <==> u == admin || u in memberIds
  {
    var r := CreateGroup(st, admin, title, memberIds, supply, now);
    if r.reply.Ok? {
      var conv, t := supply(0), DbTime(now);
      NoMembersYet(st, conv);
      NewGroupPairs(st.members, Membership(supply(1), admin, conv, GroupAdmin, t),
                    memberIds, supply, t);
    }
  }

  /** The (user, conversation) pairs of a fresh conversation after the admin row and
      the member rows are appended. */
  lemma NewGroupPairs(ms: seq<Membership>, adminRow: Membership, memberIds: seq<Id>, supply: nat -> Id, t: nat)
    requires forall u :: (u, adminRow.conversationId) !in Keys(ms, MemberPairKey)
    ensures var conv := adminRow.conversationId;
      forall u :: (u, conv) in Keys(ms + [adminRow] + MemberRows(memberIds, conv, supply, 2, t), MemberPairKey)
        <==> u == adminRow.userId || u in memberIds
  {
    var conv := adminRow.conversationId;
    var rows := MemberRows(memberIds, conv, supply, 2, t);
    var all := ms + [adminRow] + rows;
    forall u ensures (u, conv) in Keys(all, MemberPairKey) <==> u == adminRow.userId || u in memberIds {
      if (u, conv) in Keys(all, MemberPairKey) {
        var x :| x in all && MemberPairKey(x) == (u, conv);
        if x !in ms && x != adminRow {
          assert x in rows;
          var i :| 0 <= i < |rows| && rows[i] == x;
          assert memberIds[i] == u;
        }
      }
      if u == adminRow.userId {
        assert adminRow in all;
      } else if u in memberIds {
        var i :| 0 <= i < |memberIds| && memberIds[i] == u;
        assert rows[i] in all;
      }
    }
  }

  // ---------------------------------------------------------------- listing

  /** A member as the conversation list embeds it. */
  datatype MemberView = MemberView(id: Id, username: string, avatarUrl: Option<string>, lastActiveAt: Option<nat>)

  function MemberViewOf(u: User): MemberView
  {
    MemberView(u.id, u.username, u.avatarUrl, u.lastActiveAt)
  }

  /** One entry of the conversation list: a titled conversation renders as a group
      named by its title; an untitled one renders as its other member. */
  datatype Summary =
    | Group(id: Id, title: string, members: seq<MemberView>, unreadCount: nat, isOnline: bool)
    | Direct(id: Id, username: string, avatarUrl: Option<string>, unreadCount: nat, isOnline: bool, otherUserId: Id)

  /** JavaScript truthiness of the title column. */
  predicate Titled(c: Conversation)
  {
    Truthy(c.title)
  }

  /** The members of a conversation, as the public fields of their user rows, in
      membership-table order; a membership whose user has no row is dropped. */
  function MembersOf(users: seq<User>, ms: seq<Membership>, conv: Id): (r: seq<MemberView>)
    ensures forall v :: v in r ==>
      && (v.id, conv) in Keys(ms, MemberPairKey)
      && v.id in UserIds(users)
      && v == MemberViewOf(TheUser(users, v.id))
    ensures forall u :: (u, conv) in Keys(ms, MemberPairKey) && u in UserIds(users) ==>
      exists v :: v in r && v.id == u
    ensures Distinct(ms, MemberPairKey) ==> Distinct(r, MemberViewKey)
  {
    if ms == [] then []
    else
      var rest := MembersOf(users, ms[1..], conv);
      KeysCons(ms, MemberPairKey);
      if ms[0].conversationId == conv && ms[0].userId in UserIds(users) then
        [MemberViewOf(TheUser(users, ms[0].userId))] + rest
      else rest
  }

  function MemberViewKey(v: MemberView): Id
  {
    v.id
  }

  /** The first listed member who is not the viewer. */
  function FirstOther(vs: seq<MemberView>, viewer: Id): (r: Option<MemberView>)
    ensures r.Some? ==> r.value in vs && r.value.id != viewer
    ensures r.None? <==> forall v :: v in vs ==> v.id == viewer
  {
    if vs == [] then None
    else if vs[0].id != viewer then Some(vs[0])
    else
      assert forall v :: v in vs ==> v == vs[0] || v in vs[1..];
      FirstOther(vs[1..], viewer)
  }

  /** Some member other than the viewer with a user row. */
  predicate HasOther(st: Store, c: Conversation, viewer: Id)
  {
    exists u :: u in st.users && u.id != viewer && IsMember(st, u.id, c.id)
  }

  /** Some member other than the viewer active in the last two minutes. */
  predicate OtherActive(st: Store, c: Conversation, viewer: Id, now: nat)
  {
    exists u :: u in st.users && u.id != viewer && IsMember(st, u.id, c.id) && Recent(u.lastActiveAt, now)
  }

  /** The group branch's online test: some listed member other than the viewer was recently active. */
  predicate AnyOtherRecent(members: seq<MemberView>, viewer: Id, now: nat)
  {
    exists v :: v in members && v.id != viewer && Recent(v.lastActiveAt, now)
  }

  /** The list entry for one conversation, or None when it is omitted. */
  function Summarize(st: Store, viewer: Id, c: Conversation, now: nat): (r: Option<Summary>)
    ensures r.Some? ==> r.value.id == c.id && r.value.unreadCount == UnreadCount(st.messages, c.id, viewer)
    ensures Titled(c) ==> r.Some? && r.value.Group? && r.value.title == c.title.value
    ensures !Titled(c) ==> (r.Some? <==> HasOther(st, c, viewer))
    ensures !Titled(c) && r.Some? ==>
      && r.value.Direct?
      && r.value.otherUserId != viewer
      && IsMember(st, r.value.otherUserId, c.id)
      && r.value.otherUserId in UserIds(st.users)
      && var u := TheUser(st.users, r.value.otherUserId);
      && r.value.username == u.username && r.value.avatarUrl == u.avatarUrl
      && (r.value.isOnline <==> IsOnline(u, now))
    ensures Distinct(st.users, UserKey) && r.Some? && r.value.Group? ==>
      (r.value.isOnline <==> OtherActive(st, c, viewer, now))
    ensures r.Some? && r.value.Group? ==> r.value.members == MembersOf(st.users, st.members, c.id)
  {
    var members := MembersOf(st.users, st.members, c.id);
    var unread := UnreadCount(st.messages, c.id, viewer);
    if Titled(c) then
      GroupOnline(st, c, viewer, now, members);
      Some(Group(c.id, c.title.value, members, unread, AnyOtherRecent(members, viewer, now)))
    else
      var other := FirstOther(members, viewer);
      DirectOther(st, c, viewer, members, other);
      match other
      case None => None
      case Some(o) =>
        var online := o.id == BotId || Recent(o.lastActiveAt, now);
        Some(Direct(c.id, o.username, o.avatarUrl, unread, online, o.id))
  }

  /** The first other member exists exactly when the conversation has another member. */
  lemma DirectOther(st: Store, c: Conversation, viewer: Id, members: seq<MemberView>, other: Option<MemberView>)
    requires members == MembersOf(st.users, st.members, c.id)
    requires other == FirstOther(members, viewer)
    ensures other.Some? <==> HasOther(st, c, viewer)
  {
    if HasOther(st, c, viewer) {
      var u :| u in st.users && u.id != viewer && IsMember(st, u.id, c.id);
      assert u.id in UserIds(st.users);
      var v :| v in members && v.id == u.id;
    }
    if other.Some? {
      var o := other.value;
      var u := TheUser(st.users, o.id);
      assert u.id != viewer && IsMember(st, u.id, c.id);
    }
  }

  /** The group flag computed over the joined member rows agrees with the user table. */
  lemma GroupOnline(st: Store, c: Conversation, viewer: Id, now: nat, members: seq<MemberView>)
    requires members == MembersOf(st.users, st.members, c.id)
    ensures Distinct(st.users, UserKey) ==> (AnyOtherRecent(members, viewer, now) <==> OtherActive(st, c, viewer, now))
  {
    if Distinct(st.users, UserKey) {
      if OtherActive(st, c, viewer, now) {
        var u :| u in st.users && u.id != viewer && IsMember(st, u.id, c.id) && Recent(u.lastActiveAt, now);
        assert u.id in UserIds(st.users);
        var v :| v in members && v.id == u.id;
        FindUserIsThe(st.users, u);
        assert v == MemberViewOf(u);
      }
      if AnyOtherRecent(members, viewer, now) {
        var v :| v in members && v.id != viewer && Recent(v.lastActiveAt, now);
        var u := TheUser(st.users, v.id);
        assert IsMember(st, u.id, c.id);
      }
    }
  }

  /** With distinct user ids, the row a foreign-key lookup finds is the row itself. */
  lemma FindUserIsThe(users: seq<User>, u: User)
    requires Distinct(users, UserKey) && u in users
    ensures u.id in UserIds(users) && TheUser(users, u.id) == u
  {
    assert UserKey(u) in UserIds(users);
    DistinctSame(users, UserKey, u, TheUser(users, u.id));
  }

  function NegCreatedAt(c: Conversation): int
  {
    0 - c.createdAt
  }

  /** The viewer's conversations: those the join with ConversationMember keeps. */
  function HasMember(st: Store, viewer: Id): Conversation -> bool
  {
    (c: Conversation) => IsMember(st, viewer, c.id)
  }

  function SummaryKey(s: Summary): Id
  {
    s.id
  }

  /** The conversations the viewer belongs to, newest first by creation time:
      a re-arrangement of the viewer's conversation rows, each row once. */
  function ViewerConversations(st: Store, viewer: Id): (r: seq<Conversation>)
    ensures SortedBy(r, NegCreatedAt)
    ensures multiset(r) == multiset(Filter(st.conversations, HasMember(st, viewer)))
    ensures forall c :: c in r <==> c in st.conversations && IsMember(st, viewer, c.id)
    ensures ConversationsOk(st.conversations) ==> Distinct(r, ConversationKey)
  {
    var mine := Filter(st.conversations, HasMember(st, viewer));
    var sorted := SortBy(mine, NegCreatedAt);
    FilterDistinct(st.conversations, HasMember(st, viewer), ConversationKey);
    DistinctPermutes(mine, sorted, ConversationKey);
    assert forall c :: c in sorted <==> c in mine by {
      forall c ensures c in sorted <==> c in mine {
        assert c in sorted <==> c in multiset(sorted);
        assert c in mine <==> c in multiset(mine);
      }
    }
    sorted
  }

  /** The creation time of the conversation with this id (0 if there is none). */
  function ConvCreatedAt(st: Store, id: Id): nat
  {
    match FindBy(st.conversations, ConversationKey, id)
    case Some(c) => c.createdAt
    case None => 0
  }

  /** The summaries of `cs`, in order, dropping the omitted ones. */
  function Summaries(st: Store, viewer: Id, cs: seq<Conversation>, now: nat): (r: seq<Summary>)
    ensures forall s :: s in r ==> exists c :: c in cs && Summarize(st, viewer, c, now) == Some(s)
    ensures Distinct(cs, ConversationKey) ==> Distinct(r, SummaryKey)
    ensures forall c :: c in cs && Summarize(st, viewer, c, now).Some? ==>
      Summarize(st, viewer, c, now).value in r
    ensures (ConversationsOk(st.conversations) && (forall c :: c in cs ==> c in st.conversations)
             && SortedBy(cs, NegCreatedAt)) ==>
            forall i, j :: 0 <= i < j < |r| ==> ConvCreatedAt(st, r[i].id) >= ConvCreatedAt(st, r[j].id)
  {
    var f := (c: Conversation) => Summarize(st, viewer, c, now);
    var r := MapSome(cs, f);
    MapSomeDistinct(cs, f, ConversationKey, SummaryKey);
    if ConversationsOk(st.conversations) && (forall c :: c in cs ==> c in st.conversations)
       && SortedBy(cs, NegCreatedAt) then
      SummaryKeepsCreatedAt(st, viewer, cs, now);
      MapSomeSorted(cs, f, NegCreatedAt, (s: Summary) => 0 - ConvCreatedAt(st, s.id));
      r
    else
      r
  }

  lemma SummaryKeepsCreatedAt(st: Store, viewer: Id, cs: seq<Conversation>, now: nat)
    requires ConversationsOk(st.conversations) && forall c :: c in cs ==> c in st.conversations
    ensures forall c :: c in cs && Summarize(st, viewer, c, now).Some? ==>
      ConvCreatedAt(st, Summarize(st, viewer, c, now).value.id) == c.createdAt
  {
    forall c | c in cs && Summarize(st, viewer, c, now).Some?
      ensures ConvCreatedAt(st, Summarize(st, viewer, c, now).value.id) == c.createdAt
    {
      FindByUnique(st.conversations, ConversationKey, c);
    }
  }

  /** getUserConversations: the viewer's conversations, newest first. A titled one is
      always listed, as a group named by its title, online when another member was
      active in the last two minutes; an untitled one is listed as its other member,
      online when that member is the bot or was recently active, and is omitted when
      it has no other member. Each entry carries the viewer's unread count. */
  function GetUserConversations(st: Store, viewer: Id, now: nat): (r: seq<Summary>)
    ensures forall s :: s in r ==>
      && s.unreadCount == UnreadCount(st.messages, s.id, viewer)
      && exists c :: c in st.conversations && c.id == s.id && IsMember(st, viewer, c.id)
                     && (s.Group? <==> Titled(c))
                     && (s.Group? ==> s.title == c.title.value)
                     && (Distinct(st.users, UserKey) && s.Group? ==> (s.isOnline <==> OtherActive(st, c, viewer, now)))
    ensures forall s :: s in r && s.Direct? ==>
      && s.otherUserId != viewer
      && IsMember(st, s.otherUserId, s.id)
      && s.otherUserId in UserIds(st.users)
      && (s.isOnline <==> IsOnline(TheUser(st.users, s.otherUserId), now))
      && s.username == TheUser(st.users, s.otherUserId).username
      && s.avatarUrl == TheUser(st.users, s.otherUserId).avatarUrl
    ensures forall s :: s in r && s.Group? ==> s.members == MembersOf(st.users, st.members, s.id)
    ensures Distinct(st.members, MemberPairKey) ==>
      forall s :: s in r && s.Group? ==> Distinct(s.members, MemberViewKey)
    ensures forall c :: c in st.conversations && IsMember(st, viewer, c.id) && (Titled(c) || HasOther(st, c, viewer)) ==>
      exists s :: s in r && s.id == c.id
    ensures ConversationsOk(st.conversations) ==>
      forall c :: c in st.conversations && !Titled(c) && !HasOther(st, c, viewer) ==>
        forall s :: s in r ==> s.id != c.id
    ensures ConversationsOk(st.conversations) ==>
      forall i, j :: 0 <= i < j < |r| ==> ConvCreatedAt(st, r[i].id) >= ConvCreatedAt(st, r[j].id)
    ensures ConversationsOk(st.conversations) ==> Distinct(r, SummaryKey)
  {
    var cs := ViewerConversations(st, viewer);
    var r := Summaries(st, viewer, cs, now);
    ListedEntries(st, viewer, now, cs, r);
    ListedCoverage(st, viewer, now, cs, r);
    OmittedStayOmitted(st, viewer, cs, now, r);
    r
  }

  /** Every listed entry renders one of the viewer's conversations. */
  lemma ListedEntries(st: Store, viewer: Id, now: nat, cs: seq<Conversation>, r: seq<Summary>)
    requires forall c :: c in cs ==> c in st.conversations && IsMember(st, viewer, c.id)
    requires forall s :: s in r ==> exists c :: c in cs && Summarize(st, viewer, c, now) == Some(s)
    ensures forall s :: s in r ==>
      && s.unreadCount == UnreadCount(st.messages, s.id, viewer)
      && exists c :: c in st.conversations && c.id == s.id && IsMember(st, viewer, c.id)
                     && (s.Group? <==> Titled(c))
                     && (s.Group? ==> s.title == c.title.value)
                     && (Distinct(st.users, UserKey) && s.Group? ==> (s.isOnline <==> OtherActive(st, c, viewer, now)))
    ensures forall s :: s in r && s.Direct? ==>
      && s.otherUserId != viewer
      && IsMember(st, s.otherUserId, s.id)
      && s.otherUserId in UserIds(st.users)
      && (s.isOnline <==> IsOnline(TheUser(st.users, s.otherUserId), now))
      && s.username == TheUser(st.users, s.otherUserId).username
      && s.avatarUrl == TheUser(st.users, s.otherUserId).avatarUrl
    ensures forall s :: s in r && s.Group? ==> s.members == MembersOf(st.users, st.members, s.id)
    ensures Distinct(st.members, MemberPairKey) ==>
      forall s :: s in r && s.Group? ==> Distinct(s.members, MemberViewKey)
  {
    forall s | s in r
      ensures && s.unreadCount == UnreadCount(st.messages, s.id, viewer)
              && exists c :: c in st.conversations && c.id == s.id && IsMember(st, viewer, c.id)
                     && (s.Group? <==> Titled(c))
                     && (s.Group? ==> s.title == c.title.value)
                     && (Distinct(st.users, UserKey) && s.Group? ==> (s.isOnline <==> OtherActive(st, c, viewer, now)))
      ensures s.Direct? ==>
              && s.otherUserId != viewer
              && IsMember(st, s.otherUserId, s.id)
              && s.otherUserId in UserIds(st.users)
              && (s.isOnline <==> IsOnline(TheUser(st.users, s.otherUserId), now))
              && s.username == TheUser(st.users, s.otherUserId).username
              && s.avatarUrl == TheUser(st.users, s.otherUserId).avatarUrl
      ensures s.Group? ==> s.members == MembersOf(st.users, st.members, s.id)
    {
      var c :| c in cs && Summarize(st, viewer, c, now) == Some(s);
    }
  }

  /** Every conversation of the viewer that is not omitted has an entry. */
  lemma ListedCoverage(st: Store, viewer: Id, now: nat, cs: seq<Conversation>, r: seq<Summary>)
    requires forall c :: c in cs <==> c in st.conversations && IsMember(st, viewer, c.id)
    requires forall c :: c in cs && Summarize(st, viewer, c, now).Some? ==> Summarize(st, viewer, c, now).value in r
    ensures forall c :: c in st.conversations && IsMember(st, viewer, c.id) && (Titled(c) || HasOther(st, c, viewer)) ==>
      exists s :: s in r && s.id == c.id
  {
    forall c | c in st.conversations && IsMember(st, viewer, c.id) && (Titled(c) || HasOther(st, c, viewer))
      ensures exists s :: s in r && s.id == c.id
    {
      assert Summarize(st, viewer, c, now).value in r;
    }
  }

  lemma OmittedStayOmitted(st: Store, viewer: Id, cs: seq<Conversation>, now: nat, r: seq<Summary>)
    requires forall s :: s in r ==> exists c :: c in cs && Summarize(st, viewer, c, now) == Some(s)
    requires forall c :: c in cs ==> c in st.conversations
    ensures ConversationsOk(st.conversations) ==>
      forall c :: c in st.conversations && !Titled(c) && !HasOther(st, c, viewer) ==>
        forall s :: s in r ==> s.id != c.id
  {
    if ConversationsOk(st.conversations) {
      forall c, s | c in st.conversations && !Titled(c) && !HasOther(st, c, viewer) && s in r
        ensures s.id != c.id
      {
        var c' :| c' in cs && Summarize(st, viewer, c', now) == Some(s);
        if s.id == c.id {
          DistinctSame(st.conversations, ConversationKey, c, c');
        }
      }
    }
  }
}
