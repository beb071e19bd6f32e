/** Login sessions with an absolute and an idle limit, erased lazily when a check finds
    them dead and in bulk by sweeps.  The reference is the history of issues, checks and
    invalidations: it has no sweeps in it and nothing is ever erased from it. */
module Sessions {
  import opened Common
  type Time = int
  type Token = string

  datatype Event = Issued(token: Token, at: Time, admin: bool, identity: string)
                 | Checked(token: Token, at: Time)
                 | Invalidated(token: Token)

  // ----- the reference ---------------------------------------------------------------------

  /** When the session was issued and every check of it since; empty if there is no
      issue that is not invalidated. */
  ghost function Uses(h: seq<Event>, token: Token): seq<Time>
    decreases |h|
  {
    if h == [] then [] else
      var before, e := h[..|h| - 1], h[|h| - 1];
      if e.token != token then Uses(before, token)
      else match e
        case Issued(_, at, _, _) => [at]
        case Checked(_, at) => if Uses(before, token) == [] then [] else Uses(before, token) + [at]
        case Invalidated(_) => []
  }

  /** Who the last issue was for. */
  ghost function Holder(h: seq<Event>, token: Token): (bool, string)
    decreases |h|
  {
    if h == [] then (false, "") else
      var before, e := h[..|h| - 1], h[|h| - 1];
      if e.Issued? && e.token == token then (e.admin, e.identity) else Holder(before, token)
  }

  datatype Limits = Limits(ttl: int, idle: int)

  ghost predicate NoLongGap(ts: seq<Time>, idle: int) {
    idle > 0 ==> forall k | 1 <= k < |ts| :: ts[k] <= ts[k - 1] + idle
  }

  /** Issued, not invalidated, within the absolute limit, and never unused for longer
      than the idle limit. */
  ghost predicate Live(h: seq<Event>, token: Token, now: Time, limits: Limits) {
    var ts := Uses(h, token);
    ts != [] && now <= ts[0] + limits.ttl && NoLongGap(ts + [now], limits.idle)
  }

  predicate HasTime(e: Event) {
    !e.Invalidated?
  }

  /** The events' times do not decrease and none is after `clock`. */
  ghost predicate Ordered(h: seq<Event>, clock: Time)
    decreases |h|
  {
    if h == [] then true else
      var e := h[|h| - 1];
      if HasTime(e) then e.at <= clock && Ordered(h[..|h| - 1], e.at) else Ordered(h[..|h| - 1], clock)
  }

  lemma {:induction false} LaterClock(h: seq<Event>, clock: Time, later: Time)
    requires Ordered(h, clock) && clock <= later
    ensures Ordered(h, later)
    decreases |h|
  {
    if h == [] || HasTime(h[|h| - 1]) {
    } else {
      LaterClock(h[..|h| - 1], clock, later);
    }
  }

  lemma UsesSnoc(h: seq<Event>, e: Event, token: Token)
    ensures Uses(h + [e], token)
         == if e.token != token then Uses(h, token)
            else if e.Issued? then [e.at]
            else if e.Checked? && Uses(h, token) != [] then Uses(h, token) + [e.at] else []
    ensures Holder(h + [e], token)
         == if e.Issued? && e.token == token then (e.admin, e.identity) else Holder(h, token)
  {
    assert (h + [e])[..|h|] == h;
  }

  /** A session dead at one time is dead at every later one. */
  lemma DeadLater(h: seq<Event>, token: Token, now: Time, later: Time, limits: Limits)
    requires now <= later && !Live(h, token, now, limits)
    ensures !Live(h, token, later, limits)
  {
    var ts := Uses(h, token);
    if limits.idle > 0 && ts != [] && now <= ts[0] + limits.ttl {
      var k :| 1 <= k < |ts + [now]| && (ts + [now])[k] > (ts + [now])[k - 1] + limits.idle;
      assert (ts + [later])[k] > (ts + [later])[k - 1] + limits.idle;
    }
  }

  predicate Revives(e: Event, token: Token) {
    e.Issued? && e.token == token
  }

  /** Only a new issue brings a token back: no check and no other token's event does. */
  lemma {:induction false} DeadStaysDead(h: seq<Event>, later: seq<Event>, token: Token, t: Time, now: Time,
                                         limits: Limits)
    requires !Live(h, token, t, limits) && Ordered(h + later, now) && t <= now
    requires forall i | 0 <= i < |later| :: !Revives(later[i], token) && (HasTime(later[i]) ==> t <= later[i].at)
    ensures !Live(h + later, token, now, limits)
    decreases |later|
  {
    if later == [] {
      assert h + later == h;
      DeadLater(h, token, t, now, limits);
    } else {
      var before, e := later[..|later| - 1], later[|later| - 1];
      var g := h + before;
      assert h + later == g + [e] && (g + [e])[..|g|] == g;
      UsesSnoc(g, e, token);
      DeadStaysDead(h, before, token, t, if HasTime(e) then e.at else now, limits);
      if HasTime(e) {
        DeadAfterCheck(g, token, e.at, now, limits);
        DeadLater(g, token, e.at, now, limits);
      }
    }
  }

  /** A failed check leaves the session failed. */
  lemma DeadAfterCheck(h: seq<Event>, token: Token, at: Time, now: Time, limits: Limits)
    requires at <= now && !Live(h, token, at, limits)
    ensures !Live(h + [Checked(token, at)], token, now, limits)
  {
    UsesSnoc(h, Checked(token, at), token);
    var ts := Uses(h, token);
    if ts != [] && limits.idle > 0 && at <= ts[0] + limits.ttl {
      var k :| 1 <= k < |ts + [at]| && (ts + [at])[k] > (ts + [at])[k - 1] + limits.idle;
      assert (ts + [at] + [now])[k] > (ts + [at] + [now])[k - 1] + limits.idle;
    }
  }

  // ----- the store ---------------------------------------------------------------------------

  datatype Session = Session(expiry: Time, lastActivity: Time, isAdmin: bool, identity: string)

  /** The source's test for a session that must go. */
  predicate Dead(s: Session, now: Time, idle: int) {
    now > s.expiry || (idle > 0 && now > s.lastActivity + idle)
  }

  /** s says what the history says of a session live at its last use. */
  ghost predicate Reflects(s: Session, h: seq<Event>, token: Token, limits: Limits) {
    var ts := Uses(h, token);
    && ts != [] && NoLongGap(ts, limits.idle) && ts[|ts| - 1] <= ts[0] + limits.ttl
    && s.expiry == ts[0] + limits.ttl && s.lastActivity == ts[|ts| - 1]
    && (s.isAdmin, s.identity) == Holder(h, token)
  }

  lemma ReflectedLive(s: Session, h: seq<Event>, token: Token, now: Time, limits: Limits)
    requires Reflects(s, h, token, limits)
    ensures Live(h, token, now, limits) <==> !Dead(s, now, limits.idle)
  {
    var ts := Uses(h, token);
    assert (ts + [now])[|ts|] == now;
    assert forall k | 0 <= k < |ts| :: (ts + [now])[k] == ts[k];
  }

  /** Whatever the map no longer holds is dead by now. */
  ghost predicate Agrees(m: map<Token, Session>, h: seq<Event>, clock: Time, limits: Limits) {
    && (forall t | t in m :: Reflects(m[t], h, t, limits))
    && (forall t :: t !in m ==> !Live(h, t, clock, limits))
  }

  /** Erasing dead sessions is not seen. */
  lemma EraseDead(m: map<Token, Session>, kept: map<Token, Session>, h: seq<Event>, clock: Time, now: Time,
                  limits: Limits)
    requires Agrees(m, h, clock, limits) && clock <= now
    requires kept.Keys <= m.Keys && forall t | t in m ::
            if t in kept then kept[t] == m[t] else Dead(m[t], now, limits.idle)
    ensures Agrees(kept, h, now, limits)
  {
    hide Reflects, Live;
    forall t | t !in kept ensures !Live(h, t, now, limits) {
      if t in m {
        ReflectedLive(m[t], h, t, now, limits);
      } else {
        DeadLater(h, t, clock, now, limits);
      }
    }
  }

  lemma OtherToken(s: Session, h: seq<Event>, e: Event, t: Token, now: Time, limits: Limits)
    requires t != e.token
    ensures Reflects(s, h + [e], t, limits) <==> Reflects(s, h, t, limits)
    ensures Live(h + [e], t, now, limits) <==> Live(h, t, now, limits)
  {
    UsesSnoc(h, e, t);
    hide Uses, Holder, NoLongGap;
  }

  /** An event leaves what the map says of other tokens alone. */
  lemma OthersAgree(m: map<Token, Session>, m': map<Token, Session>, h: seq<Event>, e: Event, now: Time, limits: Limits)
    requires Agrees(m, h, now, limits)
    requires forall t | t != e.token :: (t in m' <==> t in m) && (t in m ==> m'[t] == m[t])
    requires if e.token in m' then Reflects(m'[e.token], h + [e], e.token, limits)
             else !Live(h + [e], e.token, now, limits)
    ensures Agrees(m', h + [e], now, limits)
  {
    hide Reflects, Live;
    forall t | t in m' ensures Reflects(m'[t], h + [e], t, limits) {
      if t != e.token { OtherToken(m[t], h, e, t, now, limits); }
    }
    forall t | t !in m' ensures !Live(h + [e], t, now, limits) {
      if t != e.token { OtherToken(Session(0, 0, false, ""), h, e, t, now, limits); }
    }
  }

  lemma IssueReflected(h: seq<Event>, e: Event, limits: Limits)
    requires e.Issued? && limits.ttl >= 0
    ensures Reflects(Session(e.at + limits.ttl, e.at, e.admin, e.identity), h + [e], e.token, limits)
  {
    UsesSnoc(h, e, e.token);
  }

  /** A check of a live session refreshes its last activity. */
  lemma CheckReflected(s: Session, h: seq<Event>, token: Token, now: Time, limits: Limits)
    requires Reflects(s, h, token, limits) && Live(h, token, now, limits)
    ensures Reflects(s.(lastActivity := now), h + [Checked(token, now)], token, limits)
  {
    UsesSnoc(h, Checked(token, now), token);
  }

  lemma OrderedSnoc(h: seq<Event>, e: Event, clock: Time, now: Time)
    requires Ordered(h, clock) && clock <= now && (HasTime(e) ==> e.at == now)
    ensures Ordered(h + [e], now)
  {
    assert (h + [e])[..|h|] == h;
    LaterClock(h, clock, now);
  }

  class SessionStore {
    const limits: Limits
    var sessions: map<Token, Session>
    ghost var h: seq<Event>
    ghost var clock: Time

    ghost predicate Valid()
      reads this
    {
      limits.ttl >= 0 && Ordered(h, clock) && Agrees(sessions, h, clock, limits)
    }

    constructor (limits: Limits, now: Time)
      requires limits.ttl >= 0
      ensures Valid() && h == [] && clock == now && this.limits == limits
    {
      this.limits := limits;
      sessions := map[];
      h := [];
      clock := now;
    }

    /** What login and identity sign-in do once they hold a random token. */
    method Issue(token: Token, now: Time, isAdmin: bool, identity: string)
      requires Valid() && clock <= now
      modifies this
      ensures Valid() && clock == now && h == old(h) + [Issued(token, now, isAdmin, identity)]
      ensures sessions.Keys == old(sessions).Keys + {token}
    {
      ghost var e := Issued(token, now, isAdmin, identity);
      EraseDead(sessions, sessions, h, clock, now, limits);
      IssueReflected(h, e, limits);
      OrderedSnoc(h, e, clock, now);
      ghost var m := sessions;
      sessions := sessions[token := Session(now + limits.ttl, now, isAdmin, identity)];
      OthersAgree(m, sessions, h, e, now, limits);
      h := h + [e];
      clock := now;
    }

    /** Sign-in with an outside identity sweeps first; the two clock readings may differ. */
    method CreateIdentitySession(token: Token, swept: Time, now: Time, isAdmin: bool, identity: string)
      requires Valid() && clock <= swept <= now
      modifies this
      ensures Valid() && clock == now && h == old(h) + [Issued(token, now, isAdmin, identity)]
      ensures forall t :: t in sessions <==> t == token || Live(old(h), t, swept, limits)
    {
      SweepExpired(swept);
      Issue(token, now, isAdmin, identity);
    }

    /** The part every kind of check shares: erase the session if it is dead, else refresh it. */
    method Refresh(token: Token, now: Time) returns (s: Option<Session>)
      requires Valid() && clock <= now
      modifies this
      ensures Valid() && clock == now && h == old(h) + [Checked(token, now)]
      ensures s.Some? <==> Live(old(h), token, now, limits)
      ensures s.Some? ==> (s.value.isAdmin, s.value.identity) == Holder(old(h), token)
    {
      hide Live, Uses, Holder, NoLongGap, Ordered;
      ghost var e := Checked(token, now);
      ghost var m := sessions;
      EraseDead(m, m, h, clock, now, limits);
      OrderedSnoc(h, e, clock, now);
      if token !in sessions {
        s := None;
        DeadAfterCheck(h, token, now, now, limits);
      } else {
        ReflectedLive(sessions[token], h, token, now, limits);
        if now > sessions[token].expiry {
          sessions := sessions - {token};
          s := None;
          DeadAfterCheck(h, token, now, now, limits);
        } else if limits.idle > 0 && now > sessions[token].lastActivity + limits.idle {
          sessions := sessions - {token};
          s := None;
          DeadAfterCheck(h, token, now, now, limits);
        } else {
          s := Some(sessions[token]);
          CheckReflected(sessions[token], h, token, now, limits);
          sessions := sessions[token := sessions[token].(lastActivity := now)];
        }
      }
      OthersAgree(m, sessions, h, e, now, limits);
      h := h + [e];
      clock := now;
    }

    method IsValidSession(token: Token, now: Time) returns (ok: bool)
      requires Valid() && clock <= now
      modifies this
      ensures Valid() && clock == now && h == old(h) + [Checked(token, now)]
      ensures ok <==> Live(old(h), token, now, limits)
    {
      var s := Refresh(token, now);
      ok := s.Some?;
    }

    method IsAdminSession(token: Token, now: Time) returns (ok: bool)
      requires Valid() && clock <= now
      modifies this
      ensures Valid() && clock == now && h == old(h) + [Checked(token, now)]
      ensures ok <==> Live(old(h), token, now, limits) && Holder(old(h), token).0
    {
      var s := Refresh(token, now);
      ok := s.Some? && s.value.isAdmin;
    }

    method GetSessionInfo(token: Token, now: Time) returns (valid: bool, isAdmin: bool, identity: string)
      requires Valid() && clock <= now
      modifies this
      ensures Valid() && clock == now && h == old(h) + [Checked(token, now)]
      ensures valid <==> Live(old(h), token, now, limits)
      ensures (isAdmin, identity) == if valid then Holder(old(h), token) else (false, "")
    {
      var s := Refresh(token, now);
      if s.None? {
        return false, false, "";
      }
      return true, s.value.isAdmin, s.value.identity;
    }

    method InvalidateSession(token: Token)
      requires Valid()
      modifies this
      ensures Valid() && clock == old(clock) && h == old(h) + [Invalidated(token)]
    {
      ghost var m := sessions;
      sessions := sessions - {token};
      UsesSnoc(h, Invalidated(token), token);
      OrderedSnoc(h, Invalidated(token), clock, clock);
      OthersAgree(m, sessions, h, Invalidated(token), clock, limits);
      h := h + [Invalidated(token)];
    }

    /** A sweep keeps exactly the live sessions, and leaves the history alone, so no check can tell
        that it happened. */
    method SweepExpired(now: Time)
      requires Valid() && clock <= now
      modifies this
      ensures Valid() && clock == now && h == old(h)
      ensures forall t :: t in sessions <==> Live(h, t, now, limits)
    {
      hide Reflects, Live, Ordered;
      ghost var m := sessions;
      var todo := sessions.Keys;
      while todo != {}
        invariant todo <= sessions.Keys <= m.Keys && h == old(h) && clock == old(clock)
        invariant forall t | t in m :: if t in sessions then sessions[t] == m[t] else Dead(m[t], now, limits.idle)
        invariant forall t | t in sessions && t !in todo :: !Dead(sessions[t], now, limits.idle)
        decreases |todo|
      {
        var t :| t in todo;
        var expired := now > sessions[t].expiry;
        var idle := limits.idle > 0 && now > sessions[t].lastActivity + limits.idle;
        if expired || idle {
          sessions := sessions - {t};
        }
        todo := todo - {t};
      }
      EraseDead(m, sessions, h, clock, now, limits);
      forall t ensures t in sessions <==> Live(h, t, now, limits) {
        if t in sessions {
          ReflectedLive(sessions[t], h, t, now, limits);
        }
      }
      LaterClock(h, clock, now);
      clock := now;
    }
  }
}
