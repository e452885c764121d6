/** The process-local typing registry: conversation -> user -> time of the last
    typing signal. Writes overwrite one entry; reads filter by a ten-second
    window and the viewer, and never evict anything. */
module Typing {
  import opened Base
  import opened Schema

  /** Ten seconds, in milliseconds. */
  const TypingWindowMs: int := 10000

  /** Record that `user` typed in `conv` at `now`, overwriting any earlier mark. */
  function MarkTyping(reg: TypingMap, conv: Id, user: Id, now: nat): (r: TypingMap)
    ensures conv in r && user in r[conv] && r[conv][user] == now
    ensures r.Keys == reg.Keys + {conv}
    ensures conv in reg ==> r[conv].Keys == reg[conv].Keys + {user}
    ensures conv !in reg ==> r[conv].Keys == {user}
    ensures forall c, u :: c in reg && u in reg[c] && (c != conv || u != user) ==>
                              c in r && u in r[c] && r[c][u] == reg[c][u]
  {
    var marks := if conv in reg then reg[conv] else map[];
    reg[conv := marks[user := now]]
  }

  /** The users the viewer sees typing in `conv` at `now`. */
  function ActiveTypers(reg: TypingMap, conv: Id, viewer: Id, now: nat): set<Id>
  {
    if conv in reg then set u | u in reg[conv] && now - reg[conv][u] < TypingWindowMs && u != viewer
    else {}
  }

  /** sendTyping: only the registry changes, and only at the caller's entry. */
  function SendTyping(st: Store, conv: Id, user: Id, now: nat): (r: Store)
    ensures r == st.(typing := r.typing)
    ensures conv in r.typing && user in r.typing[conv] && r.typing[conv][user] == now
    ensures r.typing.Keys == st.typing.Keys + {conv}
    ensures conv in st.typing ==> r.typing[conv].Keys == st.typing[conv].Keys + {user}
    ensures conv !in st.typing ==> r.typing[conv].Keys == {user}
    ensures forall c, u :: c in st.typing && u in st.typing[c] && (c != conv || u != user) ==>
                              c in r.typing && u in r.typing[c] && r.typing[c][u] == st.typing[c][u]
  {
    st.(typing := MarkTyping(st.typing, conv, user, now))
  }

  /** A user is reported exactly when a mark of theirs in that conversation is
      younger than ten seconds and they are not the viewer. */
  lemma ReportedIff(reg: TypingMap, conv: Id, viewer: Id, now: nat, u: Id)
    ensures u in ActiveTypers(reg, conv, viewer, now) <==>
      conv in reg && u in reg[conv] && now - reg[conv][u] < TypingWindowMs && u != viewer
  {
  }

  /** A fresh mark is visible to everyone else for ten seconds and then never again,
      while every other user's visibility is left as it was. */
  lemma {:induction false} MarkThenRead(reg: TypingMap, conv: Id, user: Id, t0: nat, viewer: Id, t1: nat)
    ensures user in ActiveTypers(MarkTyping(reg, conv, user, t0), conv, viewer, t1)
      <==> user != viewer && t1 - t0 < TypingWindowMs
    ensures forall u :: u != user ==>
      (u in ActiveTypers(MarkTyping(reg, conv, user, t0), conv, viewer, t1) <==>
       u in ActiveTypers(reg, conv, viewer, t1))
  {
    var r := MarkTyping(reg, conv, user, t0);
    forall u | u != user
      ensures u in ActiveTypers(r, conv, viewer, t1) <==> u in ActiveTypers(reg, conv, viewer, t1)
    {
      ReportedIff(r, conv, viewer, t1, u);
      ReportedIff(reg, conv, viewer, t1, u);
    }
    ReportedIff(r, conv, viewer, t1, user);
  }
}
