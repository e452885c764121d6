/** The assistant account: deciding whether a message is addressed to it, the
    conversation history it is shown, the prompt sent to the text-generation
    service, the service's fallback on error, and the reply it posts later. */
module Bot {
  import opened Base
  import opened Tables
  import opened Schema
  import opened Db

  /** How many earlier messages the prompt carries. */
  const HistoryLimit: nat := 5

  const SystemPrompt: string := "You are Nebula AI, a helpful, witty, and slightly futuristic digital assistant living inside a messenger app. Your responses should be concise, friendly, and engaging. You often use emojis like 🌌, ✨, 🤖."

  /** What the service answers when the generation call throws. */
  const Fallback: string := "I'm having a bit of a glitch in the matrix right now. 🌌 Try again later!"

  // ---------------------------------------------------------------- trigger

  /** The first member of the conversation, in table order, who is not the sender. */
  function FirstOtherMember(members: seq<Membership>, conv: Id, sender: Id): (r: Option<Id>)
    ensures r.Some? ==> r.value != sender && (r.value, conv) in Keys(members, MemberPairKey)
    ensures r.None? <==> forall m :: m in members && m.conversationId == conv ==> m.userId == sender
  {
    if members == [] then None
    else
      KeysCons(members, MemberPairKey);
      if members[0].conversationId == conv && members[0].userId != sender then Some(members[0].userId)
      else
      assert forall m :: m in members ==> m == members[0] || m in members[1..];
      FirstOtherMember(members[1..], conv, sender)
  }

  /** The message wakes the assistant: the first other member row is the assistant's. */
  predicate Addressed(st: Store, conv: Id, sender: Id)
  {
    FirstOtherMember(st.members, conv, sender) == Some(BotId)
  }

  /** The assistant never answers itself: a message it sends does not wake it. */
  lemma NeverAddressesItself(st: Store, conv: Id)
    ensures !Addressed(st, conv, BotId)
  {
  }

  /** In a conversation whose only rows are the sender's and the assistant's, every
      message from the sender wakes the assistant. */
  lemma DirectChatAddressed(st: Store, conv: Id, sender: Id)
    requires sender != BotId
    requires (BotId, conv) in Keys(st.members, MemberPairKey)
    requires forall m :: m in st.members && m.conversationId == conv ==> m.userId in {sender, BotId}
    ensures Addressed(st, conv, sender)
  {
    var r := FirstOtherMember(st.members, conv, sender);
    var m :| m in st.members && MemberPairKey(m) == (BotId, conv);
    assert m.userId != sender;
    assert r.Some?;
    var x :| x in st.members && MemberPairKey(x) == (r.value, conv);
    assert x.userId in {sender, BotId};
  }

  // ---------------------------------------------------------------- history

  function MessageCreatedAt(m: Message): int
  {
    m.createdAt
  }

  function NegMessageCreatedAt(m: Message): int
  {
    0 - m.createdAt
  }

  function InConversation(conv: Id): Message -> bool
  {
    (m: Message) => m.conversationId == conv
  }

  /** The conversation's five newest messages (fewer if it has fewer), newest first. */
  function Latest(ms: seq<Message>, conv: Id): (r: seq<Message>)
    ensures |r| == Min(HistoryLimit, |Filter(ms, InConversation(conv))|)
    ensures SortedBy(r, NegMessageCreatedAt)
  {
    var newest := SortBy(Filter(ms, InConversation(conv)), NegMessageCreatedAt);
    newest[..Min(HistoryLimit, |newest|)]
  }

  function Min(a: nat, b: nat): nat
  {
    if a <= b then a else b
  }

  /** The five latest messages of the conversation, oldest first (history.reverse()). */
  function History(ms: seq<Message>, conv: Id): (h: seq<Message>)
    ensures |h| == Min(HistoryLimit, |Filter(ms, InConversation(conv))|)
  {
    Reverse(Latest(ms, conv))
  }

  /** The history is chronological, consists of the conversation's messages, and
      nothing left out of it is later than anything in it. */
  lemma HistoryIsLatest(ms: seq<Message>, conv: Id)
    ensures var h := History(ms, conv);
      && SortedBy(h, MessageCreatedAt)
      && multiset(h) <= multiset(Filter(ms, InConversation(conv)))
      && (forall m :: m in h ==> m in ms && m.conversationId == conv)
      && forall m, x :: m in multiset(Filter(ms, InConversation(conv))) - multiset(h) && x in h ==>
           m.createdAt <= x.createdAt
  {
    var mine := Filter(ms, InConversation(conv));
    var newest := SortBy(mine, NegMessageCreatedAt);
    var k := Min(HistoryLimit, |newest|);
    HistoryChronological(newest[..k]);
    HistoryRows(mine, newest, k);
  }

  /** Reversing a newest-first list gives an oldest-first one. */
  lemma HistoryChronological(take: seq<Message>)
    requires SortedBy(take, NegMessageCreatedAt)
    ensures SortedBy(Reverse(take), MessageCreatedAt)
  {
    var h := Reverse(take);
    var k := |take|;
    forall i, j | 0 <= i < j < |h| ensures MessageCreatedAt(h[i]) <= MessageCreatedAt(h[j]) {
      assert h[i] == take[k - 1 - i] && h[j] == take[k - 1 - j];
      assert NegMessageCreatedAt(take[k - 1 - j]) <= NegMessageCreatedAt(take[k - 1 - i]);
    }
  }

  /** The first k rows of a newest-first ordering of `mine` are a sub-multiset of it,
      and every row after them is no later than any of them. */
  lemma HistoryRows(mine: seq<Message>, newest: seq<Message>, k: nat)
    requires SortedBy(newest, NegMessageCreatedAt) && multiset(newest) == multiset(mine)
    requires k <= |newest|
    ensures multiset(Reverse(newest[..k])) <= multiset(mine)
    ensures forall m :: m in Reverse(newest[..k]) ==> m in mine
    ensures forall m, x :: m in multiset(mine) - multiset(Reverse(newest[..k])) && x in Reverse(newest[..k]) ==>
      m.createdAt <= x.createdAt
  {
    var take := newest[..k];
    assert newest == take + newest[k..];
    ReverseSameRows(take);
    forall m | m in Reverse(take) ensures m in mine {
      assert m in multiset(Reverse(take));
      assert m in multiset(mine);
    }
    DroppedNoLater(newest, k);
  }

  /** In a newest-first list, every row after position k is no later than any row before it. */
  lemma DroppedNoLater(newest: seq<Message>, k: nat)
    requires SortedBy(newest, NegMessageCreatedAt) && k <= |newest|
    ensures forall m, x :: m in multiset(newest) - multiset(Reverse(newest[..k])) && x in Reverse(newest[..k]) ==>
      m.createdAt <= x.createdAt
  {
    var take := newest[..k];
    var rest := newest[k..];
    assert newest == take + rest;
    assert multiset(newest) == multiset(take) + multiset(rest);
    ReverseSameRows(take);
    forall m, x | m in multiset(newest) - multiset(Reverse(take)) && x in Reverse(take)
      ensures m.createdAt <= x.createdAt
    {
      assert m in multiset(rest);
      var a :| 0 <= a < |rest| && rest[a] == m;
      assert x in multiset(take);
      var b :| 0 <= b < |take| && take[b] == x;
      assert newest[k + a] == m && newest[b] == x;
      assert NegMessageCreatedAt(newest[b]) <= NegMessageCreatedAt(newest[k + a]);
    }
  }

  /** When every earlier message of the conversation is strictly older than `m`,
      the newly inserted `m` is the last turn of the history. */
  lemma NewestLast(ms: seq<Message>, m: Message)
    requires forall x :: x in ms && x.conversationId == m.conversationId ==> x.createdAt < m.createdAt
    ensures var h := History(ms + [m], m.conversationId);
      h != [] && h[|h| - 1] == m
  {
    var conv := m.conversationId;
    var mine := Filter(ms + [m], InConversation(conv));
    assert m in mine;
    assert forall x :: x in mine ==> x == m || x.createdAt < m.createdAt;
    var newest := SortBy(mine, NegMessageCreatedAt);
    NewestFirst(mine, newest, m);
  }

  /** A row strictly newer than every other row heads a newest-first ordering. */
  lemma NewestFirst(mine: seq<Message>, newest: seq<Message>, m: Message)
    requires m in mine && forall x :: x in mine ==> x == m || x.createdAt < m.createdAt
    requires SortedBy(newest, NegMessageCreatedAt) && multiset(newest) == multiset(mine)
    ensures newest != [] && newest[0] == m
    ensures Reverse(newest[..Min(HistoryLimit, |newest|)])[Min(HistoryLimit, |newest|) - 1] == m
  {
    assert m in multiset(newest);
    var i :| 0 <= i < |newest| && newest[i] == m;
    assert newest[0] in multiset(mine);
  }

  // ---------------------------------------------------------------- prompt

  datatype Role = SystemRole | UserRole | AssistantRole

  /** One chat-completion message. */
  datatype Turn = Turn(role: Role, content: string)

  /** A stored message as a turn: the assistant's own messages are its turns. */
  function TurnOf(m: Message): (t: Turn)
    ensures t.content == m.content
    ensures t.role == AssistantRole <==> m.senderId == BotId
    ensures t.role != SystemRole
  {
    Turn(if m.senderId == BotId then AssistantRole else UserRole, m.content)
  }

  /** What the background generation needs once the reply has been sent. */
  datatype Job = Job(conv: Id, content: string, history: seq<Message>)

  /** The system instruction, the history as turns, then the new message as a user turn. */
  function Prompt(job: Job): (p: seq<Turn>)
    ensures |p| == |job.history| + 2
    ensures p[0] == Turn(SystemRole, SystemPrompt)
    ensures p[|p| - 1] == Turn(UserRole, job.content)
    ensures forall i :: 0 <= i < |job.history| ==> p[i + 1] == TurnOf(job.history[i])
    ensures forall i :: 0 < i < |p| ==> p[i].role != SystemRole
  {
    [Turn(SystemRole, SystemPrompt)]
      + seq(|job.history|, i requires 0 <= i < |job.history| => TurnOf(job.history[i]))
      + [Turn(UserRole, job.content)]
  }

  // ---------------------------------------------------------------- generation

  /** What the completion call produced: the first choice's content (possibly
      null), or an exception. */
  datatype Completion = Completed(content: Option<string>) | Errored

  /** generateAIResponse: the completion's text, or the fallback when the call throws. */
  function AiService(c: Completion): (r: Option<string>)
    ensures c.Errored? ==> r == Some(Fallback)
    ensures c.Completed? ==> r == c.content
  {
    match c
    case Errored => Some(Fallback)
    case Completed(text) => text
  }

  /** How the background reply ends. `Quiet`: the answer was empty or null and
      nothing is posted. `Replied`: the assistant's message was inserted. `Crashed`:
      the insert threw inside a promise callback nobody catches; under Node's
      default for unhandled rejections the server process exits, so the tables
      stay as they were and the in-memory typing registry is lost. */
  datatype ReplyOutcome = Quiet | Replied(st: Store) | Crashed

  /** The assistant's reply, appended later once the service answers. */
  function BotReply(st: Store, job: Job, gen: seq<Turn> -> Completion, msgId: Id, now: nat): (r: ReplyOutcome)
    ensures !Truthy(AiService(gen(Prompt(job)))) <==> r == Quiet
    ensures var text := AiService(gen(Prompt(job)));
      Truthy(text) ==>
        var m := Message(msgId, job.conv, BotId, text.value, Text, None, false, DbTime(now));
        && (r.Replied? <==> InsertMessage(st, m).Some?)
        && (r.Replied? ==> r.st == st.(messages := st.messages + [m]))
    ensures Valid(st) && r.Replied? ==> Valid(r.st)
  {
    var text := AiService(gen(Prompt(job)));
    if !Truthy(text) then Quiet
    else
      var m := Message(msgId, job.conv, BotId, text.value, Text, None, false, DbTime(now));
      match InsertMessage(st, m)
      case None => Crashed
      case Some(s) => Replied(s)
  }

  /** Deleting the assistant's account, which any caller of the user-deletion
      handler may do, makes every later non-empty reply crash the server: the
      insert's foreign key on the sender fails. */
  lemma DeletedBotCrashes(st: Store, job: Job, gen: seq<Turn> -> Completion, msgId: Id, now: nat)
    requires Truthy(AiService(gen(Prompt(job))))
    ensures BotReply(DeleteUser(st, BotId), job, gen, msgId, now) == Crashed
  {
    var s := DeleteUser(st, BotId);
    assert BotId !in UserIds(s.users);
  }

  /** A failing service still yields a visible reply: the fallback text, posted by
      the assistant, whenever its insert can succeed. */
  lemma ErrorStillAnswers(st: Store, job: Job, gen: seq<Turn> -> Completion, msgId: Id, now: nat)
    requires gen(Prompt(job)) == Errored
    requires msgId !in Keys(st.messages, MessageKey)
    requires BotId in UserIds(st.users) && job.conv in ConversationIds(st.conversations)
    ensures BotReply(st, job, gen, msgId, now) ==
      Replied(st.(messages := st.messages + [Message(msgId, job.conv, BotId, Fallback, Text, None, false, DbTime(now))]))
  {
  }
}
