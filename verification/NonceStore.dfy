/** Single-use nonces with a time to live: purging what has expired, at any moment,
    changes no answer. */
module NonceStore {
  type Time = int

  datatype Event = Issued(nonce: string, expiry: Time) | Redeemed(nonce: string, at: Time)

  datatype Status = Unknown | Fresh(expiry: Time) | Spent(expiry: Time)

  // ----- the reference: what the history says of a nonce ---------------------------------------

  ghost function StatusOf(h: seq<Event>, nonce: string): Status
    decreases |h|
  {
    if h == [] then Unknown else
      var before, e := h[..|h| - 1], h[|h| - 1];
      if e.nonce != nonce then StatusOf(before, nonce)
      else if e.Issued? then Fresh(e.expiry)
      else match StatusOf(before, nonce)
        case Unknown => Unknown
        case s => Spent(s.expiry)
  }

  /** Every redemption is of a nonce issued, not redeemed since, and not expired. */
  ghost predicate Sound(h: seq<Event>)
    decreases |h|
  {
    if h == [] then true else
      var before, e := h[..|h| - 1], h[|h| - 1];
      Sound(before) && (e.Redeemed? ==> StatusOf(before, e.nonce).Fresh? && e.at < StatusOf(before, e.nonce).expiry)
  }

  lemma StatusSnoc(h: seq<Event>, e: Event, nonce: string)
    ensures StatusOf(h + [e], nonce)
         == if e.nonce != nonce then StatusOf(h, nonce)
            else if e.Issued? then Fresh(e.expiry)
            else if StatusOf(h, nonce).Unknown? then Unknown else Spent(StatusOf(h, nonce).expiry)
    ensures Sound(h + [e])
       <==> Sound(h) && (e.Redeemed? ==> StatusOf(h, e.nonce).Fresh? && e.at < StatusOf(h, e.nonce).expiry)
  {
    assert (h + [e])[..|h|] == h;
  }

  predicate IssueOf(e: Event, nonce: string, expiry: Time) {
    e == Issued(nonce, expiry)
  }

  predicate About(e: Event, nonce: string) {
    e.nonce == nonce
  }

  lemma {:induction false} FreshIssue(h: seq<Event>, nonce: string) returns (i: nat)
    requires StatusOf(h, nonce).Fresh?
    ensures i < |h| && IssueOf(h[i], nonce, StatusOf(h, nonce).expiry)
    ensures forall j | i < j < |h| :: !About(h[j], nonce)
    decreases |h|
  {
    var e := h[|h| - 1];
    if e.nonce == nonce {
      i := |h| - 1;
    } else {
      i := FreshIssue(h[..|h| - 1], nonce);
    }
  }

  lemma {:induction false} SoundPrefix(h: seq<Event>, k: nat)
    requires Sound(h) && k <= |h|
    ensures Sound(h[..k])
    decreases |h|
  {
    if k < |h| {
      SoundPrefix(h[..|h| - 1], k);
      assert h[..|h| - 1][..k] == h[..k];
    } else {
      assert h[..k] == h;
    }
  }

  /** Before each redemption there is an issue of the same nonce that it beats the
      expiry of, with no other redemption in between: each issue is used at most once. */
  lemma OncePerIssue(h: seq<Event>, k: nat) returns (i: nat)
    requires Sound(h) && k < |h| && h[k].Redeemed?
    ensures i < k && h[i].Issued? && h[i].nonce == h[k].nonce && h[k].at < h[i].expiry
    ensures forall j | i < j < k :: !About(h[j], h[k].nonce)
  {
    SoundPrefix(h, k + 1);
    assert h[..k + 1][..k] == h[..k];
    i := FreshIssue(h[..k], h[k].nonce);
    assert IssueOf(h[i], h[k].nonce, StatusOf(h[..k], h[k].nonce).expiry);
    forall j | i < j < k ensures !About(h[j], h[k].nonce) {
      assert h[..k][j] == h[j];
    }
  }

  ghost function Issues(h: seq<Event>, nonce: string): nat
    decreases |h|
  {
    if h == [] then 0 else
      Issues(h[..|h| - 1], nonce) + if h[|h| - 1].Issued? && h[|h| - 1].nonce == nonce then 1 else 0
  }

  ghost function Redemptions(h: seq<Event>, nonce: string): nat
    decreases |h|
  {
    if h == [] then 0 else
      Redemptions(h[..|h| - 1], nonce) + if h[|h| - 1].Redeemed? && h[|h| - 1].nonce == nonce then 1 else 0
  }

  /** No nonce is redeemed more often than it is issued. */
  lemma {:induction false} RedeemedAtMostIssued(h: seq<Event>, nonce: string)
    requires Sound(h)
    ensures Redemptions(h, nonce) + (if StatusOf(h, nonce).Fresh? then 1 else 0) <= Issues(h, nonce)
    decreases |h|
  {
    if h == [] {
    } else {
      RedeemedAtMostIssued(h[..|h| - 1], nonce);
    }
  }

  // ----- the store ---------------------------------------------------------------------------

  datatype Entry = Entry(expiry: Time, spent: bool)

  /** The map holds what the history says of every nonce not yet expired. */
  ghost predicate Agrees(m: map<string, Entry>, h: seq<Event>, clock: Time) {
    && (forall n | n in m :: StatusOf(h, n) == if m[n].spent then Spent(m[n].expiry) else Fresh(m[n].expiry))
    && (forall n :: n !in m ==> StatusOf(h, n).Unknown? || StatusOf(h, n).expiry <= clock)
  }

  lemma OthersAgree(m: map<string, Entry>, m': map<string, Entry>, h: seq<Event>, e: Event, clock: Time)
    requires Agrees(m, h, clock) && (e.Redeemed? ==> e.nonce in m)
    requires m' == m[e.nonce := if e.Issued? then Entry(e.expiry, false) else m[e.nonce].(spent := true)]
    ensures Agrees(m', h + [e], clock)
  {
    forall n ensures StatusOf(h + [e], n)
      == if e.nonce != n then StatusOf(h, n) else if e.Issued? then Fresh(e.expiry)
         else if StatusOf(h, n).Unknown? then Unknown else Spent(StatusOf(h, n).expiry)
    {
      StatusSnoc(h, e, n);
    }
    hide StatusOf;
  }

  class Store {
    var nonces: map<string, Entry>
    ghost var h: seq<Event>
    ghost var clock: Time

    ghost predicate Valid()
      reads this
    {
      Agrees(nonces, h, clock) && Sound(h)
    }

    constructor (now: Time)
      ensures Valid() && h == [] && clock == now
    {
      nonces := map[];
      h := [];
      clock := now;
    }

    /** Erases what has expired; the history, and so every later answer, stays. */
    method PurgeExpired(now: Time)
      requires Valid() && clock <= now
      modifies this
      ensures Valid() && clock == now && h == old(h)
      ensures forall n | n in nonces :: now < nonces[n].expiry
    {
      ghost var m := nonces;
      var todo := nonces.Keys;
      while todo != {}
        invariant todo <= nonces.Keys <= m.Keys && h == old(h) && clock == old(clock)
        invariant forall n | n in m :: if n in nonces then nonces[n] == m[n] else m[n].expiry <= now
        invariant forall n | n in nonces :: n in todo || now < nonces[n].expiry
        decreases |todo|
      {
        var n :| n in todo;
        if now >= nonces[n].expiry {
          nonces := nonces - {n};
        }
        todo := todo - {n};
      }
      clock := now;
    }

    /** `random` is the nonce in hex, meaningless unless ok (randomness was available).  The
        expiry is taken from an earlier clock reading than the purge. */
    method Generate(random: string, ok: bool, started: Time, now: Time, ttl: int) returns (hex: string)
      requires Valid() && clock <= now && started <= now
      modifies this
      ensures Valid()
      ensures ok ==> hex == random && h == old(h) + [Issued(random, started + ttl)] && clock == now
      ensures ok ==> forall n | n in nonces && n != random :: now < nonces[n].expiry
      ensures !ok ==> hex == "" && h == old(h) && clock == old(clock)
    {
      if !ok {
        return "";
      }
      PurgeExpired(now);
      ghost var e := Issued(random, started + ttl);
      ghost var m := nonces;
      nonces := nonces[random := Entry(started + ttl, false)];
      StatusSnoc(h, e, random);
      OthersAgree(m, nonces, h, e, clock);
      h := h + [e];
      hex := random;
    }

    /** Purges by one clock reading and tests expiry by a later one; only the later counts. */
    method Consume(nonce: string, purged: Time, now: Time) returns (ok: bool)
      requires Valid() && clock <= purged <= now
      modifies this
      ensures Valid() && clock == purged
      ensures ok <==> StatusOf(old(h), nonce).Fresh? && now < StatusOf(old(h), nonce).expiry
      ensures h == if ok then old(h) + [Redeemed(nonce, now)] else old(h)
    {
      PurgeExpired(purged);
      if nonce !in nonces {
        return false;
      }
      if now >= nonces[nonce].expiry {
        return false;
      }
      if nonces[nonce].spent {
        return false;
      }
      ghost var e := Redeemed(nonce, now);
      ghost var m := nonces;
      nonces := nonces[nonce := nonces[nonce].(spent := true)];
      StatusSnoc(h, e, nonce);
      OthersAgree(m, nonces, h, e, clock);
      h := h + [e];
      ok := true;
    }
  }
}
