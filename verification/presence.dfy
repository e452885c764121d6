/** Online status derived from `lastActiveAt`, the activity middleware that
    stamps it on every chat request, and the logout that clears it. */
module Presence {
  import opened Base
  import opened Schema
  import opened Db

  /** Two minutes, in milliseconds. */
  const OnlineWindowMs: int := 2 * 60 * 1000

  /** A non-null last-activity stamp less than two minutes before `now`. */
  predicate Recent(lastActiveAt: Option<nat>, now: nat)
  {
    lastActiveAt.Some? && now - lastActiveAt.value < OnlineWindowMs
  }

  /** Online as the friend list and direct chats report it: the bot always is. */
  predicate IsOnline(u: User, now: nat)
  {
    u.id == BotId || Recent(u.lastActiveAt, now)
  }

  /** What the activity middleware hands on: the store and whether `next()` ran. */
  datatype Passed = Passed(st: Store, next: bool)

  /** updateLastActive: with an authenticated caller, stamp the caller's row with
      the database clock; a failing store is logged and ignored; `next()` always runs. */
  function UpdateLastActive(st: Store, caller: Option<Id>, now: nat, storeUp: bool): (r: Passed)
    ensures r.next
    ensures caller.None? || !storeUp ==> r.st == st
    ensures caller.Some? && storeUp ==>
      && r.st == st.(users := r.st.users)
      && |r.st.users| == |st.users|
      && forall i :: 0 <= i < |st.users| ==>
           if st.users[i].id == caller.value
           then r.st.users[i] == st.users[i].(lastActiveAt := Some(DbTime(now)))
           else r.st.users[i] == st.users[i]
    ensures Valid(st) ==> Valid(r.st)
  {
    if caller.Some? && storeUp then Passed(SetLastActive(st, caller.value, Some(DbTime(now))), true)
    else Passed(st, true)
  }

  /** After the middleware, the caller counts as online for the whole request and
      for at least 119 seconds after it. */
  lemma TouchedCallerOnline(st: Store, caller: Id, now: nat, later: nat)
    requires now <= later <= now + 119_000
    ensures forall u :: u in UpdateLastActive(st, Some(caller), now, true).st.users && u.id == caller ==>
                          IsOnline(u, later)
  {
    var r := UpdateLastActive(st, Some(caller), now, true).st;
    forall u | u in r.users && u.id == caller ensures IsOnline(u, later) {
      var i :| 0 <= i < |r.users| && r.users[i] == u;
      assert u.lastActiveAt == Some(DbTime(now));
    }
  }

  /** Without a new touch, a user stops counting as online two minutes after the stamp
      (the bot excepted). */
  lemma PresenceExpires(u: User, now: nat)
    requires u.id != BotId && u.lastActiveAt.Some?
    requires now >= u.lastActiveAt.value + OnlineWindowMs
    ensures !IsOnline(u, now)
  {
  }
}
