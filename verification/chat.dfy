/** sendMessage: the text message is stored and echoed first; when the first other
    member of the conversation is the assistant, its typing mark is set and a
    generation job is handed to the background, whose reply `Bot.BotReply` posts. */
module Chat {
  import opened Base
  import opened Tables
  import opened Schema
  import opened Db
  import opened Typing
  import opened MessageStore
  import opened Bot

  /** The handler's effect plus the background job it started, if any. */
  datatype Sent = Sent(st: Store, reply: Reply<MessageView>, job: Option<Job>)

  /** The row sendMessage inserts: a plain unread text message stamped by the database. */
  function TextMessage(msgId: Id, conv: Id, sender: Id, content: string, now: nat): Message
  {
    Message(msgId, conv, sender, content, Text, None, false, DbTime(now))
  }

  /** sendMessage. Membership is not checked: any existing user may post into any
      existing conversation; a missing sender or conversation makes the insert throw. */
  function SendMessage(st: Store, conv: Id, sender: Id, content: string, msgId: Id, now: nat): (r: Sent)
    ensures r.reply.Ok? <==>
      && msgId !in Keys(st.messages, MessageKey)
      && sender in UserIds(st.users)
      && conv in ConversationIds(st.conversations)
    ensures r.reply.Fail? ==>
      r == Sent(st, Fail(ServerError, "Error sending message"), None)
    ensures r.reply.Ok? ==>
      && r.reply.value.message == TextMessage(msgId, conv, sender, content, now)
      && r.reply.value.sender == SenderOf(TheUser(st.users, sender))
      && r.reply.value.reactionCount == 0 && r.reply.value.userReacted == 0
      && r.st.messages == st.messages + [TextMessage(msgId, conv, sender, content, now)]
      && r.st == st.(messages := r.st.messages, typing := r.st.typing)
    ensures r.job.Some? <==> r.reply.Ok? && Addressed(st, conv, sender)
    ensures r.job.Some? ==>
      && r.job.value == Job(conv, content, History(r.st.messages, conv))
      && r.st.typing == MarkTyping(st.typing, conv, BotId, now)
    ensures r.job.None? ==> r.st.typing == st.typing
    ensures Valid(st) ==> Valid(r.st)
  {
    var p := Post(st, TextMessage(msgId, conv, sender, content, now), "Error sending message");
    if p.reply.Fail? then Sent(p.st, p.reply, None)
    else if Addressed(p.st, conv, sender) then
      var s := p.st.(typing := MarkTyping(p.st.typing, conv, BotId, now));
      Sent(s, p.reply, Some(Job(conv, content, History(s.messages, conv))))
    else Sent(p.st, p.reply, None)
  }

  /** Once the assistant is woken, everyone else in the conversation sees it typing
      for the next ten seconds. */
  lemma BotShownTyping(st: Store, conv: Id, sender: Id, content: string, msgId: Id, now: nat, viewer: Id, later: nat)
    requires viewer != BotId && now <= later < now + TypingWindowMs
    ensures var r := SendMessage(st, conv, sender, content, msgId, now);
      r.job.Some? ==> BotId in ActiveTypers(r.st.typing, conv, viewer, later)
  {
    MarkThenRead(st.typing, conv, BotId, now, viewer, later);
  }

  /** When the conversation's earlier messages are all from before this second, the
      prompt ends with the new message twice: once as the newest history turn and
      once as the user turn appended after the history. */
  lemma PromptRepeatsMessage(st: Store, conv: Id, sender: Id, content: string, msgId: Id, now: nat)
    requires forall x :: x in st.messages && x.conversationId == conv ==> x.createdAt < DbTime(now)
    ensures var r := SendMessage(st, conv, sender, content, msgId, now);
      r.job.Some? ==>
        var p := Prompt(r.job.value);
        && |p| >= 3
        && p[|p| - 2] == Turn(UserRole, content)
        && p[|p| - 1] == Turn(UserRole, content)
  {
    var r := SendMessage(st, conv, sender, content, msgId, now);
    if r.job.Some? {
      var m := TextMessage(msgId, conv, sender, content, now);
      NewestLast(st.messages, m);
      var h := r.job.value.history;
      assert h[|h| - 1] == m;
      assert sender != BotId by {
        NeverAddressesItself(st, conv);
      }
      assert Prompt(r.job.value)[|h|] == TurnOf(h[|h| - 1]);
    }
  }

  /** From a valid store, a message that wakes the assistant leads, once the service
      answers with some text, to exactly one more message: the assistant's reply in
      the same conversation. */
  lemma ConversationWithBot(st: Store, conv: Id, sender: Id, content: string, msgId: Id, now: nat,
                            gen: seq<Turn> -> Completion, replyId: Id, later: nat)
    requires Valid(st)
    ensures var r := SendMessage(st, conv, sender, content, msgId, now);
      r.job.Some? && Truthy(AiService(gen(Prompt(r.job.value)))) && replyId !in Keys(r.st.messages, MessageKey) ==>
        BotReply(r.st, r.job.value, gen, replyId, later) == Replied(r.st.(messages := r.st.messages +
          [Message(replyId, conv, BotId, AiService(gen(Prompt(r.job.value))).value, Text, None, false, DbTime(later))]))
  {
    var r := SendMessage(st, conv, sender, content, msgId, now);
    if r.job.Some? {
      var row :| row in st.members && MemberPairKey(row) == (BotId, conv);
      assert BotId in UserIds(r.st.users);
      assert conv in ConversationIds(r.st.conversations);
    }
  }
}
