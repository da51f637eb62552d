/**
 * How long a session lives: what a login, a logout and a deactivated account end, and no more; and that
 * over any run a session lasts until its time is up unless its owner ends it or has the maximum newer.
 */
module RefreshLifetimes {
  import opened Sequences
  import opened RefreshSessions

  // ---- single operations ----

  /**
   * A new session is added to the keys and to its owner's sorted set. Below the maximum nothing goes for it;
   * at the maximum exactly one session does, the oldest of that user.
   */
  lemma CreateExactly(s: Store, conf: Settings, userId: int, jti: nat, now: int)
    requires Proper(conf)
    ensures var s', m := Create(s, conf, userId, jti, now), Members(s, userId, now);
            if |m| < conf.max then
              && s'.keys == s.keys[jti := Session(userId, now + conf.ttl)]
              && Members(s', userId, now) == m[jti := now]
            else
              exists o: nat :: IsOldest(m, o)
                          && s'.keys == (s.keys - {o})[jti := Session(userId, now + conf.ttl)]
                          && Members(s', userId, now) == (m - {o})[jti := now]
    ensures forall u :: u != userId ==> Members(Create(s, conf, userId, jti, now), u, now) == Members(s, u, now)
  {
    var m, room := Members(s, userId, now), MakeRoom(s, conf, userId, now);
    if |m| >= conf.max {
      assert m != map[];
      RemoveMembers(s, userId, Oldest(m), now, userId);
      forall u | u != userId ensures Members(room, u, now) == Members(s, u, now) {
        RemoveMembers(s, userId, Oldest(m), now, u);
      }
      assert IsOldest(m, Oldest(m));
    }
    forall u ensures Members(Create(s, conf, userId, jti, now), u, now)
                     == if u == userId then Members(room, u, now)[jti := now] else Members(room, u, now)
    {
      InsertMembers(room, conf, userId, jti, now, u);
    }
  }

  /** Logging out ends that session and no other. */
  lemma LogoutEndsOne(s: Store, userId: int, jti: nat, now: int, j: nat)
    ensures !IsLive(Remove(s, userId, jti, now), jti, now)
    ensures j != jti ==> (IsLive(Remove(s, userId, jti, now), j, now) <==> IsLive(s, j, now))
  {
  }

  /** A live token of a deactivated account is refused, and all sessions of the account go, no others. */
  lemma InactiveLeavesNone(s: Store, conf: Settings, token: Token, newJti: nat, now: int)
    requires Agree(s, conf, now) && token.expiresAt > now && IsLive(s, token.jti, now)
    ensures var (r, s') := Execute(s, conf, token, false, newJti, now);
            && r == UserInactive && NoneLive(s', token.userId, now)
            && forall j :: IsLive(s, j, now) && s.keys[j].userId != token.userId ==> IsLive(s', j, now)
  {
    LogoutAllLeavesNone(s, conf, token.userId, now);
  }

  // ---- over runs ----

  /** The event ends the session of token t: it is logged out or presented, or all of its owner's are ended. */
  ghost predicate Ends(conf: Settings, w: World, e: Event, t: Token) {
    match e.action
    case Login(_, _) => false
    case Logout(token) => token.jti == t.jti
    case LogoutAll(token) => token.userId == t.userId
    case Refresh(token, _, _) =>
      token.jti == t.jti
      || (token.userId == t.userId && OutcomeOf(w, conf, e) in {ReplayDetected, UserInactive})
  }

  /** The other sessions its owner was given in the same second or later. */
  function Rivals(issued: map<nat, Token>, t: Token): set<nat> {
    set k | k in issued && k != t.jti && issued[k].userId == t.userId && issued[k].expiresAt >= t.expiresAt
  }

  /** The token was issued and its session is there, as it was created. */
  ghost predicate Lives(w: World, t: Token) {
    Genuine(w, t) && IsLive(w.store, t.jti, w.now) && w.store.keys[t.jti] == Session(t.userId, t.expiresAt)
  }

  lemma IssuedGrows(w: World, conf: Settings, e: Event)
    requires Enabled(w, e)
    ensures forall k :: k in w.issued ==> k in Step(w, conf, e).issued && Step(w, conf, e).issued[k] == w.issued[k]
  {
  }

  lemma RivalsGrow(w: World, conf: Settings, e: Event, t: Token)
    requires Enabled(w, e)
    ensures |Rivals(w.issued, t)| <= |Rivals(Step(w, conf, e).issued, t)|
  {
    IssuedGrows(w, conf, e);
    SubsetSize(Rivals(w.issued, t), Rivals(Step(w, conf, e).issued, t));
  }

  /** Were the session the oldest of its owner's, the others and the new one would all be rivals. */
  lemma OldestHasRivals(s: Store, conf: Settings, issued: map<nat, Token>, now: int, t: Token, newJti: nat,
          rivals: set<nat>)
    requires Agree(s, conf, now) && KeysIssued(s.keys, issued) && t.jti in issued && issued[t.jti] == t
    requires IsOldest(Members(s, t.userId, now), t.jti)
    requires newJti !in issued && Rivals(issued, t) + {newJti} <= rivals
    ensures |rivals| >= |Members(s, t.userId, now)|
  {
    var m := Members(s, t.userId, now);
    assert Keyed(s, conf, t.userId, now);
    assert KeyOf(s, conf, t.userId, t.jti, m[t.jti], now);
    forall k | k in m && k != t.jti ensures k in rivals && k != newJti {
      assert KeyOf(s, conf, t.userId, k, m[k], now) && Before(m, t.jti, k);
    }
    var others := m.Keys - {t.jti} + {newJti};
    assert |others| >= |m.Keys| == |m|;
    SubsetSize(others, rivals);
  }

  /** Creating a session ends no session with fewer rivals than the maximum, the new one among them. */
  lemma CreateSpares(s: Store, conf: Settings, issued: map<nat, Token>, userId: int, now: int, t: Token, newJti: nat,
          rivals: set<nat>)
    requires Proper(conf) && Agree(s, conf, now) && KeysIssued(s.keys, issued) && newJti !in issued
    requires t.jti in s.keys && issued[t.jti] == t
    requires t.userId == userId ==> |rivals| < conf.max && Rivals(issued, t) + {newJti} <= rivals
    ensures t.jti in Create(s, conf, userId, newJti, now).keys
    ensures Create(s, conf, userId, newJti, now).keys[t.jti] == s.keys[t.jti]
  {
    var m := Members(s, userId, now);
    CreateExactly(s, conf, userId, newJti, now);
    assert Keyed(s, conf, userId, now);
    if |m| >= conf.max {
      var o: nat :| IsOldest(m, o) && Create(s, conf, userId, newJti, now).keys
                                      == (s.keys - {o})[newJti := Session(userId, now + conf.ttl)];
      assert KeyOf(s, conf, userId, o, m[o], now);
      if o == t.jti {
        OldestHasRivals(s, conf, issued, now, t, newJti, rivals);
      }
    }
  }

  /** No session was created in the future. */
  lemma CreatedBefore(w: World, conf: Settings, t: Token)
    requires Sound(w, conf) && Lives(w, t)
    ensures t.expiresAt <= w.now + conf.ttl
  {
    assert Indexed(w.store, t.jti, w.now) && Keyed(w.store, conf, t.userId, w.now);
    assert KeyOf(w.store, conf, t.userId, t.jti, Members(w.store, t.userId, w.now)[t.jti], w.now);
  }

  lemma LoginKeepsLife(w: World, conf: Settings, e: Event, t: Token)
    requires Sound(w, conf) && Proper(conf) && Enabled(w, e) && Lives(w, t) && e.action.Login?
    requires e.at < t.expiresAt && |Rivals(Step(w, conf, e).issued, t)| < conf.max
    ensures Lives(Step(w, conf, e), t)
  {
    Later(w.store, conf, w.now, e.at);
    CreatedBefore(w, conf, t);
    CreateSpares(w.store, conf, w.issued, e.action.userId, e.at, t, e.action.jti, Rivals(Step(w, conf, e).issued, t));
  }

  lemma RotationSpares(s: Store, conf: Settings, issued: map<nat, Token>, token: Token, now: int, t: Token, newJti: nat,
          rivals: set<nat>)
    requires Proper(conf) && Agree(s, conf, now) && KeysIssued(s.keys, issued) && newJti !in issued
    requires Owns(s, token.userId, token.jti) && token.jti != t.jti && t.jti in s.keys && issued[t.jti] == t
    requires t.userId == token.userId ==> |rivals| < conf.max && Rivals(issued, t) + {newJti} <= rivals
    ensures var s' := Create(Remove(s, token.userId, token.jti, now), conf, token.userId, newJti, now);
            t.jti in s'.keys && s'.keys[t.jti] == s.keys[t.jti]
  {
    RemoveKeepsAgree(s, conf, token.userId, token.jti, now);
    CreateSpares(Remove(s, token.userId, token.jti, now), conf, issued, token.userId, now, t, newJti, rivals);
  }

  lemma RotationKeepsLife(w: World, conf: Settings, e: Event, t: Token)
    requires Sound(w, conf) && Proper(conf) && Enabled(w, e) && Lives(w, t)
    requires e.action.Refresh? && OutcomeOf(w, conf, e) == Refreshed && e.action.token.jti != t.jti
    requires e.at < t.expiresAt && |Rivals(Step(w, conf, e).issued, t)| < conf.max
    ensures Lives(Step(w, conf, e), t)
  {
    var token, rivals := e.action.token, Rivals(Step(w, conf, e).issued, t);
    Later(w.store, conf, w.now, e.at);
    CreatedBefore(w, conf, t);
    GenuineOwns(w, token);
    assert token.userId == t.userId ==> Rivals(w.issued, t) + {e.action.newJti} <= rivals;
    RotationSpares(w.store, conf, w.issued, token, e.at, t, e.action.newJti, rivals);
  }

  lemma OthersKeepLife(w: World, conf: Settings, e: Event, t: Token)
    requires Sound(w, conf) && Enabled(w, e) && Lives(w, t) && !Ends(conf, w, e, t)
    requires !e.action.Login? && !(e.action.Refresh? && OutcomeOf(w, conf, e) == Refreshed)
    requires e.at < t.expiresAt
    ensures Lives(Step(w, conf, e), t)
  {
    Later(w.store, conf, w.now, e.at);
    LogoutAllLeavesNone(w.store, conf, e.action.token.userId, e.at);
  }

  lemma StepKeepsLife(w: World, conf: Settings, e: Event, t: Token)
    requires Sound(w, conf) && Proper(conf) && Enabled(w, e) && Lives(w, t) && !Ends(conf, w, e, t)
    requires e.at < t.expiresAt && |Rivals(Step(w, conf, e).issued, t)| < conf.max
    ensures Lives(Step(w, conf, e), t)
  {
    if e.action.Login? {
      LoginKeepsLife(w, conf, e, t);
    } else if e.action.Refresh? && OutcomeOf(w, conf, e) == Refreshed {
      RotationKeepsLife(w, conf, e, t);
    } else {
      OthersKeepLife(w, conf, e, t);
    }
  }

  /** The token a login or an exchange gives out. */
  function Given(e: Event, conf: Settings): Token
    requires e.action.Login? || e.action.Refresh?
  {
    match e.action
    case Login(userId, jti) => Token(userId, jti, e.at + conf.ttl)
    case Refresh(token, _, newJti) => Token(token.userId, newJti, e.at + conf.ttl)
  }

  lemma LoginStarts(w: World, conf: Settings, at: int, userId: int, jti: nat)
    requires Sound(w, conf) && Proper(conf) && w.now <= at && jti !in w.issued
    ensures Lives(Step(w, conf, Event(at, Login(userId, jti))), Token(userId, jti, at + conf.ttl))
  {
    Later(w.store, conf, w.now, at);
    CreateKeepsAgree(w.store, conf, userId, jti, at);
  }

  lemma ExchangeStarts(w: World, conf: Settings, e: Event)
    requires Sound(w, conf) && Proper(conf) && Enabled(w, e)
    requires e.action.Refresh? && OutcomeOf(w, conf, e) == Refreshed
    ensures Lives(Step(w, conf, e), Token(e.action.token.userId, e.action.newJti, e.at + conf.ttl))
  {
    var token := e.action.token;
    Later(w.store, conf, w.now, e.at);
    GenuineOwns(w, token);
    ExecuteKeepsAgree(w.store, conf, token, e.action.active, e.action.newJti, e.at);
  }

  /** A login and an exchange start a session. */
  lemma SessionStarts(w: World, conf: Settings, e: Event)
    requires Sound(w, conf) && Proper(conf) && Enabled(w, e)
    requires e.action.Login? || (e.action.Refresh? && OutcomeOf(w, conf, e) == Refreshed)
    ensures Lives(Step(w, conf, e), Given(e, conf))
  {
    if e.action.Login? {
      assert e == Event(e.at, Login(e.action.userId, e.action.jti));
      LoginStarts(w, conf, e.at, e.action.userId, e.action.jti);
    } else {
      ExchangeStarts(w, conf, e);
    }
  }

  lemma RunStep(conf: Settings, run: seq<World>, events: seq<Event>, k: nat, t: Token)
    requires IsRun(conf, run, events) && Proper(conf) && k < |events|
    ensures Sound(run[k], conf) && Next(conf, run[k], events[k], run[k + 1]) && run[k].now <= run[k + 1].now
    ensures |Rivals(run[k].issued, t)| <= |Rivals(run[k + 1].issued, t)|
  {
    RunIsSound(conf, run, events, k);
    assert Next(conf, run[k], events[k], run[k + 1]);
    RivalsGrow(run[k], conf, events[k], t);
  }

  /**
   * A logout ends the session of its token and no other; a logout everywhere, with a token that still
   * decodes, ends all sessions of its owner and no others.
   */
  lemma LogoutsEnd(w: World, conf: Settings, e: Event, j: nat)
    requires Sound(w, conf) && Enabled(w, e) && (e.action.Logout? || e.action.LogoutAll?)
    ensures var s', token := Step(w, conf, e).store, e.action.token;
            IsLive(s', j, e.at) <==>
              && IsLive(w.store, j, e.at)
              && (e.action.Logout? ==> j != token.jti)
              && (e.action.LogoutAll? && e.at < token.expiresAt ==> w.store.keys[j].userId != token.userId)
  {
    Later(w.store, conf, w.now, e.at);
    LogoutAllLeavesNone(w.store, conf, e.action.token.userId, e.at);
  }

  /** Nothing from the i-th to before the k-th event ends the session. */
  ghost predicate Spared(conf: Settings, run: seq<World>, events: seq<Event>, i: nat, k: nat, t: Token)
    requires |run| > |events| >= k
  {
    forall n {:trigger events[n]} :: i <= n < k ==> !Ends(conf, run[n], events[n], t)
  }

  lemma LivesNext(conf: Settings, run: seq<World>, events: seq<Event>, i: nat, k: nat, t: Token)
    requires IsRun(conf, run, events) && Proper(conf) && i <= k < |events| && Lives(run[k], t)
    requires Spared(conf, run, events, i, k + 1, t)
    requires |Rivals(run[k + 1].issued, t)| < conf.max && run[k + 1].now < t.expiresAt
    ensures Lives(run[k + 1], t)
  {
    RunStep(conf, run, events, k, t);
    StepKeepsLife(run[k], conf, events[k], t);
  }

  lemma Bounds(conf: Settings, run: seq<World>, events: seq<Event>, i: nat, k: nat, t: Token)
    requires IsRun(conf, run, events) && Proper(conf) && i <= k < |events|
    requires Spared(conf, run, events, i, k + 1, t)
    ensures Spared(conf, run, events, i, k, t) && run[k].now <= run[k + 1].now
    ensures |Rivals(run[k].issued, t)| <= |Rivals(run[k + 1].issued, t)|
  {
    RunStep(conf, run, events, k, t);
  }

  lemma {:induction false} LivesUntil(conf: Settings, run: seq<World>, events: seq<Event>, i: nat, k: nat, t: Token)
    requires IsRun(conf, run, events) && Proper(conf) && i <= k <= |events| && Lives(run[i], t)
    requires Spared(conf, run, events, i, k, t)
    requires |Rivals(run[k].issued, t)| < conf.max && run[k].now < t.expiresAt
    ensures Lives(run[k], t)
  {
    if k == i {
      assert run[k] == run[i];
    } else {
      Bounds(conf, run, events, i, k - 1, t);
      LivesUntil(conf, run, events, i, k - 1, t);
      LivesNext(conf, run, events, i, k - 1, t);
    }
  }

  /**
   * In every serial run the session that a login or an exchange starts is there until its time is up, as
   * long as nobody logs it out, presents it or ends all sessions of its owner, and its owner was not given
   * the maximum of other sessions since.
   */
  lemma SessionLivesOn(conf: Settings, run: seq<World>, events: seq<Event>, i: nat, k: nat, later: int)
    requires IsRun(conf, run, events) && Proper(conf) && i < k <= |events|
    requires events[i].action.Login? || (events[i].action.Refresh? && OutcomeOf(run[i], conf, events[i]) == Refreshed)
    requires var t := Given(events[i], conf);
             && Spared(conf, run, events, i + 1, k, t)
             && |Rivals(run[k].issued, t)| < conf.max && run[k].now <= later < t.expiresAt
    ensures var t := Given(events[i], conf);
            IsLive(run[k].store, t.jti, later) && run[k].store.keys[t.jti].userId == t.userId
  {
    RunStep(conf, run, events, i, Given(events[i], conf));
    SessionStarts(run[i], conf, events[i]);
    LivesUntil(conf, run, events, i + 1, k, Given(events[i], conf));
  }
}
