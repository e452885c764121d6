/** The message store: appending a message and echoing it, listing a
    conversation with reaction counts, the bulk mark-as-read that listing
    performs, and the unread count shown in conversation lists. */
module MessageStore {
  import opened Base
  import opened Tables
  import opened Schema
  import opened Db
  import opened Typing

  /** Unread from the viewer's side: in the conversation, sent by someone else, not yet read. */
  predicate UnreadFor(m: Message, conv: Id, viewer: Id)
  {
    m.conversationId == conv && m.senderId != viewer && !m.isRead
  }

  /** How many messages of the conversation from someone other than the viewer are still unread. */
  function UnreadCount(ms: seq<Message>, conv: Id, viewer: Id): nat
  {
    if ms == [] then 0
    else (if UnreadFor(ms[0], conv, viewer) then 1 else 0) + UnreadCount(ms[1..], conv, viewer)
  }

  lemma {:induction false} UnreadCountZero(ms: seq<Message>, conv: Id, viewer: Id)
    ensures UnreadCount(ms, conv, viewer) == 0 <==> forall m :: m in ms ==> !UnreadFor(m, conv, viewer)
  {
    if ms != [] {
      UnreadCountZero(ms[1..], conv, viewer);
      assert forall m :: m in ms <==> m == ms[0] || m in ms[1..];
    }
  }

  /** Appending a message adds one to the count exactly when it is unread for the viewer. */
  lemma {:induction false} UnreadCountAppend(ms: seq<Message>, m: Message, conv: Id, viewer: Id)
    ensures UnreadCount(ms + [m], conv, viewer) == UnreadCount(ms, conv, viewer) + (if UnreadFor(m, conv, viewer) then 1 else 0)
  {
    if ms == [] {
      assert [] + [m] == [m];
    } else {
      assert (ms + [m])[1..] == ms[1..] + [m];
      UnreadCountAppend(ms[1..], m, conv, viewer);
    }
  }

  /** Number of reactions on a message. */
  function ReactionCount(xs: seq<Reaction>, msg: Id): nat
  {
    if xs == [] then 0
    else (if xs[0].messageId == msg then 1 else 0) + ReactionCount(xs[1..], msg)
  }

  /** Number of reactions on a message by one user. */
  function UserReacted(xs: seq<Reaction>, msg: Id, user: Id): nat
  {
    if xs == [] then 0
    else (if xs[0].messageId == msg && xs[0].userId == user then 1 else 0) + UserReacted(xs[1..], msg, user)
  }

  /** While reactions are unique per (message, user), the per-user count is a flag
      that is set exactly when the pair has a row. */
  lemma {:induction false} UserReactedIsFlag(xs: seq<Reaction>, msg: Id, user: Id)
    requires Distinct(xs, ReactionPairKey)
    ensures UserReacted(xs, msg, user) <= 1
    ensures UserReacted(xs, msg, user) == 1 <==> (msg, user) in Keys(xs, ReactionPairKey)
  {
    if xs != [] {
      assert Distinct(xs[1..], ReactionPairKey) by {
        forall i, j | 0 <= i < j < |xs[1..]|
          ensures ReactionPairKey(xs[1..][i]) != ReactionPairKey(xs[1..][j])
        {
          assert xs[1..][i] == xs[i + 1] && xs[1..][j] == xs[j + 1];
        }
      }
      UserReactedIsFlag(xs[1..], msg, user);
      KeysCons(xs, ReactionPairKey);
    }
  }

  /** The sender columns joined to each message (u.username, u.avatarUrl). */
  datatype SenderView = SenderView(id: Id, username: string, avatarUrl: Option<string>)

  /** A message as the API returns it. */
  datatype MessageView = MessageView(message: Message, sender: SenderView, reactionCount: nat, userReacted: nat)

  function SenderOf(u: User): SenderView
  {
    SenderView(u.id, u.username, u.avatarUrl)
  }

  // ---------------------------------------------------------------- append

  /** INSERT INTO Message, then the fetch-back joined with the sender, echoed
      with reactionCount = 0 and userReacted = 0. A failed insert is a 500 with `error`. */
  function Post(st: Store, m: Message, error: string): (r: Step<MessageView>)
    ensures r.reply.Ok? <==>
      && m.id !in Keys(st.messages, MessageKey)
      && m.senderId in UserIds(st.users)
      && m.conversationId in ConversationIds(st.conversations)
    ensures r.reply.Ok? ==>
      && r.st == st.(messages := st.messages + [m])
      && r.reply.value.message == m
      && r.reply.value.sender == SenderOf(TheUser(st.users, m.senderId))
      && r.reply.value.reactionCount == 0
      && r.reply.value.userReacted == 0
    ensures r.reply.Fail? ==> r.st == st && r.reply == Fail(ServerError, error)
    ensures Valid(st) ==> Valid(r.st)
  {
    match InsertMessage(st, m)
    case None => Step(st, Fail(ServerError, error))
    case Some(s) => Step(s, Ok(MessageView(m, SenderOf(TheUser(st.users, m.senderId)), 0, 0)))
  }

  // ---------------------------------------------------------------- listing

  /** A message row joined with its sender's user row. */
  datatype Joined = Joined(message: Message, sender: User)

  function JoinedCreatedAt(j: Joined): int
  {
    j.message.createdAt
  }

  function JoinedMessage(j: Joined): Message
  {
    j.message
  }

  /** The messages of `conv` whose sender row exists: those the inner join keeps. */
  function SentIn(users: seq<User>, conv: Id): Message -> bool
  {
    (m: Message) => m.conversationId == conv && m.senderId in UserIds(users)
  }

  /** The conversation's messages paired with their sender's user row, in table order;
      a message whose sender has no row is dropped by the inner join. */
  function JoinSenders(ms: seq<Message>, users: seq<User>, conv: Id): (r: seq<Joined>)
    ensures forall j :: j in r ==>
      j.message in ms && j.message.conversationId == conv && j.sender in users && j.sender.id == j.message.senderId
    ensures forall m :: m in ms && m.conversationId == conv && m.senderId in UserIds(users) ==>
      exists j :: j in r && j.message == m
  {
    if ms == [] then []
    else
      var rest := JoinSenders(ms[1..], users, conv);
      assert forall m :: m in ms ==> m == ms[0] || m in ms[1..];
      if ms[0].conversationId == conv && ms[0].senderId in UserIds(users) then
        [Joined(ms[0], TheUser(users, ms[0].senderId))] + rest
      else rest
  }

  /** The join keeps one row per message it keeps, in table order: the rows'
      messages are exactly the conversation's messages with an existing sender. */
  lemma {:induction false} JoinKeepsMessages(ms: seq<Message>, users: seq<User>, conv: Id)
    ensures Project(JoinSenders(ms, users, conv), JoinedMessage) == Filter(ms, SentIn(users, conv))
  {
    if ms != [] {
      var p := SentIn(users, conv);
      JoinKeepsMessages(ms[1..], users, conv);
      var rest := JoinSenders(ms[1..], users, conv);
      var head := if p(ms[0]) then [Joined(ms[0], TheUser(users, ms[0].senderId))] else [];
      assert JoinSenders(ms, users, conv) == head + rest;
      assert Filter(ms, p) == (if p(ms[0]) then [ms[0]] else []) + Filter(ms[1..], p);
      ProjectAppend(head, rest, JoinedMessage);
      assert Project(head, JoinedMessage) == (if p(ms[0]) then [ms[0]] else []);
    }
  }

  function ViewMessage(v: MessageView): Message
  {
    v.message
  }

  /** A joined row with its two reaction sub-counts for `viewer`. */
  function ViewOf(reactions: seq<Reaction>, viewer: Id, j: Joined): MessageView
  {
    MessageView(j.message, SenderOf(j.sender), ReactionCount(reactions, j.message.id),
                UserReacted(reactions, j.message.id, viewer))
  }

  /** The rows of a conversation ordered by createdAt ascending. */
  function Timeline(st: Store, conv: Id): (r: seq<Joined>)
    ensures SortedBy(r, JoinedCreatedAt)
    ensures multiset(r) == multiset(JoinSenders(st.messages, st.users, conv))
    ensures multiset(Project(r, JoinedMessage)) == multiset(Filter(st.messages, SentIn(st.users, conv)))
    ensures forall j :: j in r ==>
      j.message in st.messages && j.message.conversationId == conv && j.sender in st.users && j.sender.id == j.message.senderId
    ensures forall m :: m in st.messages && m.conversationId == conv && m.senderId in UserIds(st.users) ==>
      exists j :: j in r && j.message == m
  {
    var joined := JoinSenders(st.messages, st.users, conv);
    var sorted := SortBy(joined, JoinedCreatedAt);
    assert forall j :: j in sorted <==> j in joined by {
      forall j ensures j in sorted <==> j in joined {
        assert j in sorted <==> j in multiset(sorted);
        assert j in joined <==> j in multiset(joined);
      }
    }
    JoinKeepsMessages(st.messages, st.users, conv);
    ProjectPermutes(sorted, joined, JoinedMessage);
    sorted
  }

  /** What the listing promises about its rows: oldest first; one view per message
      of the conversation whose sender exists, and no other; each with its sender
      and the message's reaction counts for `viewer`. */
  predicate TimelineViews(st: Store, conv: Id, viewer: Id, vs: seq<MessageView>)
  {
    && (forall i, j :: 0 <= i < j < |vs| ==> vs[i].message.createdAt <= vs[j].message.createdAt)
    && multiset(Project(vs, ViewMessage)) == multiset(Filter(st.messages, SentIn(st.users, conv)))
    && (forall v :: v in vs ==>
         && v.message in st.messages
         && v.message.conversationId == conv
         && HasUser(st, v.sender.id)
         && v.sender.id == v.message.senderId
         && (exists u :: u in st.users && u.id == v.message.senderId && v.sender == SenderOf(u))
         && v.reactionCount == ReactionCount(st.reactions, v.message.id)
         && v.userReacted == UserReacted(st.reactions, v.message.id, viewer))
    && (forall m :: m in st.messages && m.conversationId == conv && m.senderId in UserIds(st.users) ==>
         exists v :: v in vs && v.message == m)
  }

  /** What getMessages answers, and the store after its mark-as-read. */
  datatype Page = Page(st: Store, messages: seq<MessageView>, typingUsers: set<Id>)

  /** getMessages: the conversation's messages oldest first with reaction counts,
      the users typing there in the last ten seconds other than the viewer, and,
      as a side effect, every message from someone else marked read. The rows are
      read before the update, so they carry the earlier read flags. */
  function GetMessages(st: Store, conv: Id, viewer: Id, now: nat): (r: Page)
    ensures TimelineViews(st, conv, viewer, r.messages)
    ensures Valid(st) ==> forall v :: v in r.messages ==> v.userReacted <= 1
    ensures forall u :: u in r.typingUsers <==>
      conv in st.typing && u in st.typing[conv] && now - st.typing[conv][u] < TypingWindowMs && u != viewer
    ensures r.st == st.(messages := r.st.messages)
    ensures |r.st.messages| == |st.messages|
    ensures forall i :: 0 <= i < |st.messages| ==>
      if st.messages[i].conversationId == conv && st.messages[i].senderId != viewer
      then r.st.messages[i] == st.messages[i].(isRead := true)
      else r.st.messages[i] == st.messages[i]
    ensures UnreadCount(r.st.messages, conv, viewer) == 0
    ensures Valid(st) ==> Valid(r.st)
  {
    var views := Views(st, conv, viewer);
    var after := MarkRead(st, conv, viewer);
    UnreadCountZero(after.messages, conv, viewer);
    Page(after, views, ActiveTypers(st.typing, conv, viewer, now))
  }

  /** The timeline rows with their reaction counts for `viewer`. */
  function Views(st: Store, conv: Id, viewer: Id): (r: seq<MessageView>)
    ensures TimelineViews(st, conv, viewer, r)
    ensures Valid(st) ==> forall v :: v in r ==> v.userReacted <= 1
  {
    var rows := Timeline(st, conv);
    var views := Render(st.reactions, viewer, rows);
    ViewsCover(st, conv, viewer, rows, views);
    views
  }

  /** Each row rendered with its reaction counts for `viewer`, in order. */
  function Render(reactions: seq<Reaction>, viewer: Id, rows: seq<Joined>): (r: seq<MessageView>)
    ensures |r| == |rows|
    ensures forall i :: 0 <= i < |rows| ==> r[i] == ViewOf(reactions, viewer, rows[i])
  {
    seq(|rows|, i requires 0 <= i < |rows| => ViewOf(reactions, viewer, rows[i]))
  }

  /** The views of the timeline rows keep their order, their facts and their coverage. */
  lemma ViewsCover(st: Store, conv: Id, viewer: Id, rows: seq<Joined>, views: seq<MessageView>)
    requires |views| == |rows|
    requires forall i :: 0 <= i < |rows| ==> views[i] == ViewOf(st.reactions, viewer, rows[i])
    requires SortedBy(rows, JoinedCreatedAt)
    requires forall j :: j in rows ==>
      j.message in st.messages && j.message.conversationId == conv && j.sender in st.users && j.sender.id == j.message.senderId
    requires forall m :: m in st.messages && m.conversationId == conv && m.senderId in UserIds(st.users) ==>
      exists j :: j in rows && j.message == m
    requires multiset(Project(rows, JoinedMessage)) == multiset(Filter(st.messages, SentIn(st.users, conv)))
    ensures TimelineViews(st, conv, viewer, views)
    ensures Valid(st) ==> forall v :: v in views ==> v.userReacted <= 1
  {
    UserReactedFlags(st.reactions, viewer);
    assert Project(views, ViewMessage) == Project(rows, JoinedMessage);
    forall i, j | 0 <= i < j < |views| ensures views[i].message.createdAt <= views[j].message.createdAt {
      assert JoinedCreatedAt(rows[i]) <= JoinedCreatedAt(rows[j]);
    }
    forall v | v in views
      ensures && v.message in st.messages
              && v.message.conversationId == conv
              && HasUser(st, v.sender.id)
              && v.sender.id == v.message.senderId
              && (exists u :: u in st.users && u.id == v.message.senderId && v.sender == SenderOf(u))
    {
      var i :| 0 <= i < |views| && views[i] == v;
      assert rows[i] in rows;
      assert v.sender == SenderOf(rows[i].sender);
    }
    forall m | m in st.messages && m.conversationId == conv && m.senderId in UserIds(st.users)
      ensures exists v :: v in views && v.message == m
    {
      var j :| j in rows && j.message == m;
      var i :| 0 <= i < |rows| && rows[i] == j;
      assert views[i] in views;
    }
  }

  lemma UserReactedFlags(xs: seq<Reaction>, viewer: Id)
    ensures Distinct(xs, ReactionPairKey) ==> forall msg :: UserReacted(xs, msg, viewer) <= 1
  {
    if Distinct(xs, ReactionPairKey) {
      forall msg ensures UserReacted(xs, msg, viewer) <= 1 {
        UserReactedIsFlag(xs, msg, viewer);
      }
    }
  }

  /** The unread count a conversation list shows drops to zero once the viewer has
      listed the conversation, and the viewer's own messages keep their flags. */
  lemma ListingClearsUnread(st: Store, conv: Id, viewer: Id, now: nat)
    ensures UnreadCount(GetMessages(st, conv, viewer, now).st.messages, conv, viewer) == 0
    ensures forall i :: 0 <= i < |st.messages| && st.messages[i].senderId == viewer ==>
      GetMessages(st, conv, viewer, now).st.messages[i] == st.messages[i]
  {
  }

  /** Listing twice marks nothing more than listing once. */
  lemma GetMessagesIdempotent(st: Store, conv: Id, viewer: Id, now: nat, later: nat)
    ensures GetMessages(GetMessages(st, conv, viewer, now).st, conv, viewer, later).st
         == GetMessages(st, conv, viewer, now).st
  {
    var once := GetMessages(st, conv, viewer, now).st;
    var twice := GetMessages(once, conv, viewer, later).st;
    assert twice.messages == once.messages;
  }

  /** Listing never evicts typing marks. */
  lemma ListingKeepsTyping(st: Store, conv: Id, viewer: Id, now: nat)
    ensures GetMessages(st, conv, viewer, now).st.typing == st.typing
  {
  }

  // ---------------------------------------------------------------- media

  /** sendMediaMessage's kind: audio/ first, then image/, else a generic file. */
  function MediaKind(mimetype: string): (k: Kind)
    ensures k == Audio <==> "audio/" <= mimetype
    ensures k == Image <==> !("audio/" <= mimetype) && "image/" <= mimetype
    ensures k == File <==> !("audio/" <= mimetype) && !("image/" <= mimetype)
  {
    var kind := if "image/" <= mimetype then Image else File;
    if "audio/" <= mimetype then Audio else kind
  }

  const AttachmentText: string := "Sent an attachment"

  /** sendMediaMessage: without a file, 400 and no insert; otherwise an attachment
      message of the derived kind pointing at the uploaded file. */
  function SendMediaMessage(st: Store, conv: Id, sender: Id, file: Option<Upload>, msgId: Id, now: nat)
    : (r: Step<MessageView>)
    ensures file.None? ==> r == Step(st, Fail(BadRequest, "No file uploaded"))
    ensures r.reply.Ok? ==>
      && file.Some?
      && r.st == st.(messages := st.messages + [r.reply.value.message])
      && var m := r.reply.value.message;
      && m.id == msgId && m.conversationId == conv && m.senderId == sender
      && m.content == AttachmentText
      && m.kind == MediaKind(file.value.mimetype)
      && m.mediaUrl == Some(UploadUrl(file.value))
      && !m.isRead
      && m.createdAt == DbTime(now)
      && sender in UserIds(st.users)
      && r.reply.value.sender == SenderOf(TheUser(st.users, sender))
      && r.reply.value.reactionCount == 0
      && r.reply.value.userReacted == 0
    ensures file.Some? ==> (r.reply.Ok? <==>
      && msgId !in Keys(st.messages, MessageKey)
      && sender in UserIds(st.users)
      && conv in ConversationIds(st.conversations))
    ensures r.reply.Fail? ==> r.st == st
    ensures file.Some? && r.reply.Fail? ==> r.reply == Fail(ServerError, "Error sending media")
    ensures Valid(st) ==> Valid(r.st)
  {
    match file
    case None => Step(st, Fail(BadRequest, "No file uploaded"))
    case Some(f) =>
      var m := Message(msgId, conv, sender, AttachmentText, MediaKind(f.mimetype), Some(UploadUrl(f)), false, DbTime(now));
      Post(st, m, "Error sending media")
  }

  /** An uploaded attachment shows up in the next listing of its conversation, with
      its kind, its file URL and the uploader as sender. */
  lemma MediaThenListed(st: Store, conv: Id, sender: Id, f: Upload, msgId: Id, now: nat, viewer: Id, later: nat)
    requires Valid(st)
    ensures var r := SendMediaMessage(st, conv, sender, Some(f), msgId, now);
      r.reply.Ok? ==>
        exists v :: v in GetMessages(r.st, conv, viewer, later).messages
          && v.message == r.reply.value.message
          && v.message.kind == MediaKind(f.mimetype)
          && v.message.mediaUrl == Some(UploadUrl(f))
          && v.sender == SenderOf(TheUser(st.users, sender))
  {
  }
}
