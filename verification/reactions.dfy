/** toggleReaction: one reaction row per (message, user); a second toggle removes
    the row whatever label it carries, a first one inserts the given label. */
module Reactions {
  import opened Base
  import opened Tables
  import opened Schema
  import opened Db
  import opened MessageStore

  datatype Toggled = Added | Removed

  /** The first reaction row, in table order, that this user left on this message. */
  function FindReaction(xs: seq<Reaction>, msg: Id, user: Id): (r: Option<Reaction>)
    ensures r.Some? ==> r.value in xs && r.value.messageId == msg && r.value.userId == user
    ensures r.None? <==> (msg, user) !in Keys(xs, ReactionPairKey)
  {
    if xs == [] then None
    else
      KeysCons(xs, ReactionPairKey);
      if xs[0].messageId == msg && xs[0].userId == user then Some(xs[0])
      else FindReaction(xs[1..], msg, user)
  }

  /** toggleReaction. The label is not compared when a row exists. */
  function ToggleReaction(st: Store, msg: Id, user: Id, reaction: string, freshId: Id): (r: Step<Toggled>)
    ensures (msg, user) in Keys(st.reactions, ReactionPairKey) ==> r.reply == Ok(Removed)
    ensures (msg, user) !in Keys(st.reactions, ReactionPairKey) ==>
      (r.reply == Ok(Added) <==> freshId !in Keys(st.reactions, ReactionKey))
    ensures r.reply == Ok(Added) ==> r.st == st.(reactions := st.reactions + [Reaction(freshId, msg, user, reaction)])
    ensures r.reply == Ok(Removed) && Valid(st) ==>
      && r.st == st.(reactions := r.st.reactions)
      && (forall x :: x in r.st.reactions <==> x in st.reactions && (x.messageId != msg || x.userId != user))
      && (msg, user) !in Keys(r.st.reactions, ReactionPairKey)
    ensures r.reply.Fail? ==> r.st == st && r.reply == Fail(ServerError, "Error toggling reaction")
    ensures Valid(st) ==> Valid(r.st)
  {
    match FindReaction(st.reactions, msg, user)
    case Some(x) =>
      var s := DeleteReaction(st, x.id);
      RemovedRowsArePair(st, x, s);
      Step(s, Ok(Removed))
    case None =>
      match InsertReaction(st, Reaction(freshId, msg, user, reaction))
      case None => Step(st, Fail(ServerError, "Error toggling reaction"))
      case Some(s) => Step(s, Ok(Added))
  }

  /** Deleting the found row by id removes exactly the pair's row when ids and pairs are unique. */
  lemma RemovedRowsArePair(st: Store, x: Reaction, s: Store)
    requires x in st.reactions
    requires forall y :: y in s.reactions <==> y in st.reactions && y.id != x.id
    ensures Valid(st) ==>
      && (forall y :: y in s.reactions <==> y in st.reactions && (y.messageId != x.messageId || y.userId != x.userId))
      && (x.messageId, x.userId) !in Keys(s.reactions, ReactionPairKey)
  {
    if Valid(st) {
      forall y | y in st.reactions ensures y.id == x.id <==> (y.messageId == x.messageId && y.userId == x.userId) {
        if y.id == x.id { DistinctSame(st.reactions, ReactionKey, x, y); }
        if y.messageId == x.messageId && y.userId == x.userId { DistinctSame(st.reactions, ReactionPairKey, x, y); }
      }
    }
  }

  /** Toggling twice on a pair without a reaction gives back the original store,
      whatever the two labels. */
  lemma {:induction false} ToggleTwiceRestores(st: Store, msg: Id, user: Id, l1: string, l2: string, id1: Id, id2: Id)
    requires (msg, user) !in Keys(st.reactions, ReactionPairKey)
    requires id1 !in Keys(st.reactions, ReactionKey)
    ensures ToggleReaction(st, msg, user, l1, id1).reply == Ok(Added)
    ensures ToggleReaction(ToggleReaction(st, msg, user, l1, id1).st, msg, user, l2, id2)
         == Step(st, Ok(Removed))
  {
    var x := Reaction(id1, msg, user, l1);
    var s1 := ToggleReaction(st, msg, user, l1, id1).st;
    assert s1.reactions == st.reactions + [x];
    FindFirstIsAppended(st.reactions, x);
    var p := (y: Reaction) => y.id != id1;
    FilterAppend(st.reactions, x, p);
    forall y | y in st.reactions ensures p(y) {
      assert ReactionKey(y) in Keys(st.reactions, ReactionKey);
    }
    FilterAll(st.reactions, p);
  }

  lemma FindFirstIsAppended(xs: seq<Reaction>, x: Reaction)
    requires (x.messageId, x.userId) !in Keys(xs, ReactionPairKey)
    ensures FindReaction(xs + [x], x.messageId, x.userId) == Some(x)
  {
    if xs == [] {
      assert xs + [x] == [x];
    } else {
      KeysCons(xs, ReactionPairKey);
      assert (xs + [x])[1..] == xs[1..] + [x];
      FindFirstIsAppended(xs[1..], x);
    }
  }

  /** Under the one-row-per-pair invariant, each successful toggle flips whether
      the user has reacted: the per-user count goes 0 -> 1 or 1 -> 0. */
  lemma ToggleFlips(st: Store, msg: Id, user: Id, reaction: string, freshId: Id)
    requires Valid(st)
    ensures var r := ToggleReaction(st, msg, user, reaction, freshId);
      r.reply.Ok? ==> UserReacted(r.st.reactions, msg, user) == 1 - UserReacted(st.reactions, msg, user)
  {
    var r := ToggleReaction(st, msg, user, reaction, freshId);
    UserReactedIsFlag(st.reactions, msg, user);
    if r.reply.Ok? {
      UserReactedIsFlag(r.st.reactions, msg, user);
      if r.reply == Ok(Added) {
        var x := Reaction(freshId, msg, user, reaction);
        AppendDistinct'(st.reactions, x, ReactionPairKey);
      }
    }
  }
}
