/**
 * Refresh sessions of the users in Redis: one key per token with a time to live, and per user a
 * sorted set of the token ids scored by creation time, which has a time to live of its own. An
 * operation reads the clock once; expiry is "a key whose time is up does not exist".
 *
 * A jti is a UUID. Redis breaks ties of scores by the text of the member; for canonical UUIDs that
 * is the order of their numbers, so a jti is a natural number here.
 */
module RefreshSessions {
  import opened Sequences

  datatype Session = Session(userId: int, expiresAt: int)

  datatype Index = Index(members: map<nat, int>, expiresAt: int)

  datatype Store = Store(keys: map<nat, Session>, index: map<int, Index>)

  /** `max_auth_user_sessions` and the refresh token's life, both constant while the system runs. */
  datatype Settings = Settings(max: nat, ttl: nat)

  predicate Proper(conf: Settings) {
    conf.max >= 1 && conf.ttl >= 1
  }

  predicate IsLive(s: Store, jti: nat, now: int) {
    jti in s.keys && now < s.keys[jti].expiresAt
  }

  function Members(s: Store, userId: int, now: int): map<nat, int> {
    if userId in s.index && now < s.index[userId].expiresAt then s.index[userId].members else map[]
  }

  /** The lowest score first, equal scores by member. */
  predicate Before(members: map<nat, int>, a: nat, b: nat)
    requires a in members && b in members
  {
    members[a] < members[b] || (members[a] == members[b] && a < b)
  }

  predicate IsOldest(members: map<nat, int>, j: nat) {
    j in members && forall k :: k in members && k != j ==> Before(members, j, k)
  }

  lemma {:induction false} OldestExists(members: map<nat, int>)
    requires members != map[]
    ensures exists j :: IsOldest(members, j)
    decreases |members|
  {
    var j :| j in members;
    var rest := members - {j};
    if rest == map[] {
      assert forall k :: k in members ==> k == j || k in rest;
      assert IsOldest(members, j);
    } else {
      OldestExists(rest);
      var k :| IsOldest(rest, k);
      assert forall i :: i in members && i != j ==> i in rest;
      assert IsOldest(members, if Before(members, j, k) then j else k);
    }
  }

  lemma OldestIsUnique(members: map<nat, int>, a: nat, b: nat)
    requires IsOldest(members, a) && IsOldest(members, b)
    ensures a == b
  {
  }

  ghost function Oldest(members: map<nat, int>): (j: nat)
    requires members != map[]
    ensures IsOldest(members, j)
  {
    OldestExists(members);
    var j :| IsOldest(members, j);
    j
  }

  // ---- the operations ----

  /** DEL and ZREM; a sorted set that loses its last member is gone. */
  function Remove(s: Store, userId: int, jti: nat, now: int): Store {
    var rest := Members(s, userId, now) - {jti};
    Store(s.keys - {jti},
          if rest == map[] then s.index - {userId} else s.index[userId := s.index[userId].(members := rest)])
  }

  ghost function MakeRoom(s: Store, conf: Settings, userId: int, now: int): Store {
    var members := Members(s, userId, now);
    if |members| >= conf.max && members != map[] then Remove(s, userId, Oldest(members), now) else s
  }

  function Insert(s: Store, conf: Settings, userId: int, jti: nat, now: int): Store {
    Store(s.keys[jti := Session(userId, now + conf.ttl)],
          s.index[userId := Index(Members(s, userId, now)[jti := now], now + conf.ttl)])
  }

  ghost function Create(s: Store, conf: Settings, userId: int, jti: nat, now: int): Store {
    Insert(MakeRoom(s, conf, userId, now), conf, userId, jti, now)
  }

  function RemoveAll(s: Store, userId: int, now: int): Store {
    var members := Members(s, userId, now);
    if members == map[] then s else Store(s.keys - members.Keys, s.index - {userId})
  }

  /** A signed token; decoding refuses it once its own life is over. */
  datatype Token = Token(userId: int, jti: nat, expiresAt: int)

  datatype Outcome = Refreshed | ReplayDetected | UserInactive | NotDecoded

  /** `JwtRefreshTokenUpdateUC.execute`. */
  ghost function Execute(s: Store, conf: Settings, token: Token, active: bool, newJti: nat, now: int): (Outcome,
          Store) {
    if token.expiresAt <= now then (NotDecoded, s)
    else if !IsLive(s, token.jti, now) then (ReplayDetected, RemoveAll(s, token.userId, now))
    else if !active then (UserInactive, RemoveAll(s, token.userId, now))
    else (Refreshed, Create(Remove(s, token.userId, token.jti, now), conf, token.userId, newJti, now))
  }

  // ---- the index agrees with the keys ----

  /** A live key is in its owner's sorted set, which lives at least as long. */
  ghost predicate Indexed(s: Store, j: nat, now: int) {
    IsLive(s, j, now) ==>
      var k := s.keys[j];
      j in Members(s, k.userId, now) && s.index[k.userId].expiresAt >= k.expiresAt
  }

  /** The key of a member of u's sorted set is u's and was created at the score. */
  ghost predicate KeyOf(s: Store, conf: Settings, u: int, j: nat, score: int, now: int) {
    j in s.keys && s.keys[j] == Session(u, score + conf.ttl) && score <= now
  }

  ghost predicate Keyed(s: Store, conf: Settings, u: int, now: int) {
    var members := Members(s, u, now);
    |members| <= conf.max && forall j :: j in members ==> KeyOf(s, conf, u, j, members[j], now)
  }

  ghost predicate Agree(s: Store, conf: Settings, now: int) {
    (forall j :: Indexed(s, j, now)) && (forall u :: Keyed(s, conf, u, now))
  }

  /** Nothing but time passes: the agreement stays. */
  lemma Later(s: Store, conf: Settings, now: int, later: int)
    requires Agree(s, conf, now) && now <= later
    ensures Agree(s, conf, later)
  {
    forall j ensures Indexed(s, j, later) {
      assert Indexed(s, j, now);
    }
    forall u ensures Keyed(s, conf, u, later) {
      assert Keyed(s, conf, u, now);
      assert Members(s, u, later) == Members(s, u, now) || Members(s, u, later) == map[];
    }
  }

  /** The token named is the user's, if there is one. */
  ghost predicate Owns(s: Store, userId: int, jti: nat) {
    jti in s.keys ==> s.keys[jti].userId == userId
  }

  lemma WithoutSize(m: map<nat, int>, j: nat)
    ensures |m - {j}| == |m| - if j in m then 1 else 0
  {
    assert (m - {j}).Keys == m.Keys - {j};
    assert |m| == |m.Keys| && |m - {j}| == |(m - {j}).Keys|;
  }

  lemma WithSize(m: map<nat, int>, j: nat, score: int)
    ensures |m[j := score]| <= |m| + 1
  {
    assert m[j := score].Keys == m.Keys + {j};
    assert |m| == |m.Keys| && |m[j := score]| == |m[j := score].Keys|;
  }

  lemma RemoveMembers(s: Store, userId: int, jti: nat, now: int, u: int)
    ensures Members(Remove(s, userId, jti, now), u, now)
            == if u == userId then Members(s, u, now) - {jti} else Members(s, u, now)
  {
  }

  lemma RemoveIndexed(s: Store, conf: Settings, userId: int, jti: nat, now: int, j: nat)
    requires Indexed(s, j, now)
    ensures Indexed(Remove(s, userId, jti, now), j, now)
  {
    if j in s.keys {
      RemoveMembers(s, userId, jti, now, s.keys[j].userId);
    }
  }

  lemma RemoveKeyed(s: Store, conf: Settings, userId: int, jti: nat, now: int, u: int)
    requires Keyed(s, conf, u, now) && Owns(s, userId, jti)
    ensures Keyed(Remove(s, userId, jti, now), conf, u, now)
  {
    RemoveMembers(s, userId, jti, now, u);
    WithoutSize(Members(s, u, now), jti);
    var s' := Remove(s, userId, jti, now);
    var members := Members(s', u, now);
    forall j | j in members ensures KeyOf(s', conf, u, j, members[j], now) {
      assert KeyOf(s, conf, u, j, members[j], now);
    }
  }

  lemma RemoveKeepsAgree(s: Store, conf: Settings, userId: int, jti: nat, now: int)
    requires Agree(s, conf, now) && Owns(s, userId, jti)
    ensures Agree(Remove(s, userId, jti, now), conf, now)
  {
    forall j ensures Indexed(Remove(s, userId, jti, now), j, now) {
      RemoveIndexed(s, conf, userId, jti, now, j);
    }
    forall u ensures Keyed(Remove(s, userId, jti, now), conf, u, now) {
      RemoveKeyed(s, conf, userId, jti, now, u);
    }
  }

  lemma InsertMembers(s: Store, conf: Settings, userId: int, jti: nat, now: int, u: int)
    requires Proper(conf)
    ensures Members(Insert(s, conf, userId, jti, now), u, now)
            == if u == userId then Members(s, u, now)[jti := now] else Members(s, u, now)
  {
  }

  lemma InsertIndexed(s: Store, conf: Settings, userId: int, jti: nat, now: int, j: nat)
    requires Indexed(s, j, now) && Keyed(s, conf, userId, now) && Proper(conf)
    ensures Indexed(Insert(s, conf, userId, jti, now), j, now)
  {
    if j == jti {
      InsertMembers(s, conf, userId, jti, now, userId);
    } else if IsLive(s, j, now) {
      var owner := s.keys[j].userId;
      InsertMembers(s, conf, userId, jti, now, owner);
      assert owner == userId ==> KeyOf(s, conf, userId, j, Members(s, userId, now)[j], now);
    }
  }

  lemma InsertKeyed(s: Store, conf: Settings, userId: int, jti: nat, now: int, u: int)
    requires Keyed(s, conf, u, now) && Proper(conf) && jti !in s.keys
    requires |Members(s, userId, now)| < conf.max
    ensures Keyed(Insert(s, conf, userId, jti, now), conf, u, now)
  {
    InsertMembers(s, conf, userId, jti, now, u);
    WithSize(Members(s, u, now), jti, now);
    var s' := Insert(s, conf, userId, jti, now);
    var members := Members(s', u, now);
    forall j | j in members ensures KeyOf(s', conf, u, j, members[j], now) {
      if j in Members(s, u, now) {
        assert KeyOf(s, conf, u, j, Members(s, u, now)[j], now);
      }
    }
  }

  lemma InsertKeepsAgree(s: Store, conf: Settings, userId: int, jti: nat, now: int)
    requires Agree(s, conf, now) && Proper(conf) && |Members(s, userId, now)| < conf.max
    requires jti !in s.keys
    ensures Agree(Insert(s, conf, userId, jti, now), conf, now)
  {
    forall j ensures Indexed(Insert(s, conf, userId, jti, now), j, now) {
      InsertIndexed(s, conf, userId, jti, now, j);
    }
    forall u ensures Keyed(Insert(s, conf, userId, jti, now), conf, u, now) {
      InsertKeyed(s, conf, userId, jti, now, u);
    }
  }

  lemma MakeRoomKeepsAgree(s: Store, conf: Settings, userId: int, now: int)
    requires Agree(s, conf, now) && Proper(conf)
    ensures var s' := MakeRoom(s, conf, userId, now);
            Agree(s', conf, now) && |Members(s', userId, now)| < conf.max && s'.keys.Keys <= s.keys.Keys
  {
    var members := Members(s, userId, now);
    assert Keyed(s, conf, userId, now);
    if |members| >= conf.max && members != map[] {
      var o := Oldest(members);
      assert KeyOf(s, conf, userId, o, members[o], now);
      RemoveMembers(s, userId, o, now, userId);
      WithoutSize(members, o);
      RemoveKeepsAgree(s, conf, userId, o, now);
    }
  }

  /** The maximum makes room by dropping the oldest session: a live one only if no indexed one has expired. */
  lemma EvictionSparesLive(s: Store, conf: Settings, userId: int, now: int, live: nat)
    requires Agree(s, conf, now) && IsLive(s, live, now)
    ensures (exists j :: j in Members(s, userId, now) && !IsLive(s, j, now)) ==>
              IsLive(MakeRoom(s, conf, userId, now), live, now)
    ensures s.keys[live].userId != userId ==> IsLive(MakeRoom(s, conf, userId, now), live, now)
  {
    var members := Members(s, userId, now);
    assert Keyed(s, conf, userId, now);
    if |members| >= conf.max && members != map[] {
      var o := Oldest(members);
      assert KeyOf(s, conf, userId, o, members[o], now);
      if j :| j in members && !IsLive(s, j, now) {
        assert KeyOf(s, conf, userId, j, members[j], now);
        assert j == o || Before(members, o, j);
      }
    }
  }

  /** Keys are only ever dropped. */
  ghost predicate Fewer(s': Store, s: Store) {
    forall j :: j in s'.keys ==> j in s.keys && s'.keys[j] == s.keys[j]
  }

  lemma CreateKeepsAgree(s: Store, conf: Settings, userId: int, jti: nat, now: int)
    requires Agree(s, conf, now) && Proper(conf) && jti !in s.keys
    ensures Agree(Create(s, conf, userId, jti, now), conf, now)
    ensures IsLive(Create(s, conf, userId, jti, now), jti, now)
    ensures forall j :: j in Create(s, conf, userId, jti, now).keys && j != jti ==>
              j in s.keys && Create(s, conf, userId, jti, now).keys[j] == s.keys[j]
    ensures Create(s, conf, userId, jti, now).keys[jti] == Session(userId, now + conf.ttl)
  {
    MakeRoomKeepsAgree(s, conf, userId, now);
    InsertKeepsAgree(MakeRoom(s, conf, userId, now), conf, userId, jti, now);
  }

  ghost predicate NoneLive(s: Store, userId: int, now: int) {
    forall j :: IsLive(s, j, now) ==> s.keys[j].userId != userId
  }

  lemma RemoveAllMembers(s: Store, userId: int, now: int, u: int)
    ensures Members(RemoveAll(s, userId, now), u, now) == if u == userId then map[] else Members(s, u, now)
  {
  }

  lemma RemoveAllKeyed(s: Store, conf: Settings, userId: int, now: int, u: int)
    requires Keyed(s, conf, u, now) && Keyed(s, conf, userId, now)
    ensures Keyed(RemoveAll(s, userId, now), conf, u, now)
  {
    var s' := RemoveAll(s, userId, now);
    RemoveAllMembers(s, userId, now, u);
    var members := Members(s', u, now);
    forall j | j in members ensures KeyOf(s', conf, u, j, members[j], now) {
      assert KeyOf(s, conf, u, j, members[j], now);
      assert j in Members(s, userId, now) ==> KeyOf(s, conf, userId, j, Members(s, userId, now)[j], now);
    }
  }

  lemma RemoveAllKeepsAgree(s: Store, conf: Settings, userId: int, now: int)
    requires Agree(s, conf, now)
    ensures Agree(RemoveAll(s, userId, now), conf, now)
    ensures Fewer(RemoveAll(s, userId, now), s)
  {
    var s' := RemoveAll(s, userId, now);
    forall j ensures Indexed(s', j, now) {
      assert Indexed(s, j, now);
      if j in s'.keys {
        RemoveAllMembers(s, userId, now, s'.keys[j].userId);
      }
    }
    forall u ensures Keyed(s', conf, u, now) {
      assert Keyed(s, conf, u, now) && Keyed(s, conf, userId, now);
      RemoveAllKeyed(s, conf, userId, now, u);
    }
  }

  /** Logging out everywhere leaves the user without a live session and touches nobody else's. */
  lemma LogoutAllLeavesNone(s: Store, conf: Settings, userId: int, now: int)
    requires Agree(s, conf, now)
    ensures NoneLive(RemoveAll(s, userId, now), userId, now)
    ensures forall j :: IsLive(s, j, now) && s.keys[j].userId != userId ==> IsLive(RemoveAll(s, userId, now), j, now)
  {
    var s' := RemoveAll(s, userId, now);
    var members := Members(s, userId, now);
    assert Keyed(s, conf, userId, now);
    forall j | IsLive(s', j, now) ensures s'.keys[j].userId != userId {
      assert Indexed(s, j, now);
    }
    forall j | IsLive(s, j, now) && s.keys[j].userId != userId ensures IsLive(s', j, now) {
      assert j in members ==> KeyOf(s, conf, userId, j, members[j], now);
    }
  }

  // ---- serial runs over a clock ----

  datatype Action =
    | Login(userId: int, jti: nat)
    | Refresh(token: Token, active: bool, newJti: nat)
    | Logout(token: Token)
    | LogoutAll(token: Token)

  datatype Event = Event(at: int, action: Action)

  /** The store, every token ever issued, and the time of the last operation. */
  datatype World = World(store: Store, issued: map<nat, Token>, now: int)

  ghost predicate Genuine(w: World, token: Token) {
    token.jti in w.issued && w.issued[token.jti] == token
  }

  /** The clock does not go back, new jtis are fresh and tokens carry a valid signature. */
  ghost predicate Enabled(w: World, e: Event) {
    && w.now <= e.at
    && match e.action
       case Login(_, jti) => jti !in w.issued
       case Refresh(token, _, newJti) => Genuine(w, token) && newJti !in w.issued
       case Logout(token) => Genuine(w, token)
       case LogoutAll(token) => Genuine(w, token)
  }

  ghost function Issue(w: World, conf: Settings, userId: int, jti: nat, now: int): map<nat, Token> {
    w.issued[jti := Token(userId, jti, now + conf.ttl)]
  }

  ghost function Step(w: World, conf: Settings, e: Event): World {
    match e.action
    case Login(u, jti) => World(Create(w.store, conf, u, jti, e.at), Issue(w, conf, u, jti, e.at), e.at)
    case Refresh(token, active, newJti) =>
      var (r, s') := Execute(w.store, conf, token, active, newJti, e.at);
      World(s', if r == Refreshed then Issue(w, conf, token.userId, newJti, e.at) else w.issued, e.at)
    case Logout(token) =>
      if token.expiresAt <= e.at then w.(now := e.at)
      else World(Remove(w.store, token.userId, token.jti, e.at), w.issued, e.at)
    case LogoutAll(token) =>
      if token.expiresAt <= e.at then w.(now := e.at)
      else World(RemoveAll(w.store, token.userId, e.at), w.issued, e.at)
  }

  ghost predicate Next(conf: Settings, w: World, e: Event, w': World) {
    Enabled(w, e) && w' == Step(w, conf, e)
  }

  /** The worlds before, between and after the events, from an empty store. */
  ghost predicate IsRun(conf: Settings, run: seq<World>, events: seq<Event>) {
    && |run| == |events| + 1
    && run[0] == World(Store(map[], map[]), map[], run[0].now)
    && forall i {:trigger events[i]} :: 0 <= i < |events| ==> Next(conf, run[i], events[i], run[i + 1])
  }

  /** Every key belongs to an issued token, with its owner and its end of life. */
  ghost predicate KeysIssued(keys: map<nat, Session>, issued: map<nat, Token>) {
    forall j :: j in keys ==> j in issued && issued[j] == Token(keys[j].userId, j, keys[j].expiresAt)
  }

  ghost predicate Sound(w: World, conf: Settings) {
    Agree(w.store, conf, w.now) && KeysIssued(w.store.keys, w.issued)
  }

  lemma ExecuteKeepsAgree(s: Store, conf: Settings, token: Token, active: bool, newJti: nat, now: int)
    requires Agree(s, conf, now) && Proper(conf) && Owns(s, token.userId, token.jti)
    requires newJti !in s.keys && newJti != token.jti
    ensures var (r, s') := Execute(s, conf, token, active, newJti, now);
            && Agree(s', conf, now)
            && (r == Refreshed ==>
                  && token.jti !in s'.keys
                  && newJti in s'.keys && s'.keys[newJti] == Session(token.userId, now + conf.ttl)
                  && forall j :: j in s'.keys && j != newJti ==> j in s.keys && s'.keys[j] == s.keys[j])
            && (r != Refreshed ==> Fewer(s', s))
  {
    if token.expiresAt > now {
      if !IsLive(s, token.jti, now) || !active {
        RemoveAllKeepsAgree(s, conf, token.userId, now);
      } else {
        RemoveKeepsAgree(s, conf, token.userId, token.jti, now);
        CreateKeepsAgree(Remove(s, token.userId, token.jti, now), conf, token.userId, newJti, now);
      }
    }
  }

  lemma GenuineOwns(w: World, token: Token)
    requires KeysIssued(w.store.keys, w.issued) && Genuine(w, token)
    ensures Owns(w.store, token.userId, token.jti)
  {
  }

  lemma LoginIsSound(s: Store, issued: map<nat, Token>, conf: Settings, userId: int, jti: nat, at: int)
    requires Agree(s, conf, at) && KeysIssued(s.keys, issued) && Proper(conf) && jti !in issued
    ensures Agree(Create(s, conf, userId, jti, at), conf, at)
    ensures KeysIssued(Create(s, conf, userId, jti, at).keys, issued[jti := Token(userId, jti, at + conf.ttl)])
  {
    CreateKeepsAgree(s, conf, userId, jti, at);
  }

  lemma RefreshIsSound(s: Store, issued: map<nat, Token>, conf: Settings, token: Token, active: bool, newJti: nat,
          at: int)
    requires Agree(s, conf, at) && KeysIssued(s.keys, issued) && Proper(conf)
    requires Owns(s, token.userId, token.jti) && token.jti in issued && newJti !in issued
    ensures var (r, s') := Execute(s, conf, token, active, newJti, at);
            && Agree(s', conf, at)
            && KeysIssued(s'.keys, if r == Refreshed then issued[newJti := Token(token.userId, newJti, at + conf.ttl)] else issued)
  {
    ExecuteKeepsAgree(s, conf, token, active, newJti, at);
  }

  lemma LogoutIsSound(s: Store, issued: map<nat, Token>, conf: Settings, token: Token, at: int)
    requires Agree(s, conf, at) && KeysIssued(s.keys, issued) && Owns(s, token.userId, token.jti)
    ensures Agree(Remove(s, token.userId, token.jti, at), conf, at)
    ensures KeysIssued(Remove(s, token.userId, token.jti, at).keys, issued)
    ensures Agree(RemoveAll(s, token.userId, at), conf, at)
    ensures KeysIssued(RemoveAll(s, token.userId, at).keys, issued)
  {
    RemoveKeepsAgree(s, conf, token.userId, token.jti, at);
    RemoveAllKeepsAgree(s, conf, token.userId, at);
  }

  lemma LoginStep(w: World, conf: Settings, e: Event)
    requires Sound(w, conf) && Proper(conf) && Enabled(w, e) && e.action.Login?
    ensures Sound(Step(w, conf, e), conf) && w.issued.Keys <= Step(w, conf, e).issued.Keys
  {
    Later(w.store, conf, w.now, e.at);
    LoginIsSound(w.store, w.issued, conf, e.action.userId, e.action.jti, e.at);
  }

  lemma RefreshStep(w: World, conf: Settings, e: Event)
    requires Sound(w, conf) && Proper(conf) && Enabled(w, e) && e.action.Refresh?
    ensures Sound(Step(w, conf, e), conf) && w.issued.Keys <= Step(w, conf, e).issued.Keys
  {
    Later(w.store, conf, w.now, e.at);
    GenuineOwns(w, e.action.token);
    RefreshIsSound(w.store, w.issued, conf, e.action.token, e.action.active, e.action.newJti, e.at);
  }

  lemma LogoutStep(w: World, conf: Settings, e: Event)
    requires Sound(w, conf) && Proper(conf) && Enabled(w, e) && (e.action.Logout? || e.action.LogoutAll?)
    ensures Sound(Step(w, conf, e), conf) && w.issued.Keys <= Step(w, conf, e).issued.Keys
  {
    Later(w.store, conf, w.now, e.at);
    GenuineOwns(w, e.action.token);
    LogoutIsSound(w.store, w.issued, conf, e.action.token, e.at);
  }

  lemma StepIsSound(w: World, conf: Settings, e: Event)
    requires Sound(w, conf) && Proper(conf) && Enabled(w, e)
    ensures Sound(Step(w, conf, e), conf)
    ensures w.issued.Keys <= Step(w, conf, e).issued.Keys
  {
    match e.action
    case Login(_, _) => LoginStep(w, conf, e);
    case Refresh(_, _, _) => RefreshStep(w, conf, e);
    case Logout(_) => LogoutStep(w, conf, e);
    case LogoutAll(_) => LogoutStep(w, conf, e);
  }

  lemma {:induction false} RunIsSound(conf: Settings, run: seq<World>, events: seq<Event>, i: nat)
    requires IsRun(conf, run, events) && Proper(conf) && i <= |events|
    ensures Sound(run[i], conf)
  {
    if i == 0 {
      forall u ensures Keyed(run[0].store, conf, u, run[0].now) {
      }
    } else {
      RunIsSound(conf, run, events, i - 1);
      assert Next(conf, run[i - 1], events[i - 1], run[i]);
      StepIsSound(run[i - 1], conf, events[i - 1]);
    }
  }

  function LiveOf(s: Store, userId: int, now: int): set<nat> {
    set j | j in s.keys && IsLive(s, j, now) && s.keys[j].userId == userId
  }

  /**
   * After every serial run and at every later clock time: a live key is in its owner's sorted set,
   * the set does not expire before it, and nobody has more than max live sessions or members.
   */
  lemma IndexAgreesAlways(conf: Settings, run: seq<World>, events: seq<Event>, i: nat, later: int)
    requires IsRun(conf, run, events) && Proper(conf) && i <= |events| && run[i].now <= later
    ensures var s := run[i].store;
            && (forall j :: IsLive(s, j, later) ==>
                  var k := s.keys[j];
                  j in Members(s, k.userId, later) && s.index[k.userId].expiresAt >= k.expiresAt)
            && (forall u :: |LiveOf(s, u, later)| <= |Members(s, u, later)| <= conf.max)
  {
    var w := run[i];
    RunIsSound(conf, run, events, i);
    Later(w.store, conf, w.now, later);
    forall j | IsLive(w.store, j, later) ensures Indexed(w.store, j, later) {
    }
    forall u ensures |LiveOf(w.store, u, later)| <= |Members(w.store, u, later)| <= conf.max {
      var members := Members(w.store, u, later);
      assert Keyed(w.store, conf, u, later);
      forall j | j in LiveOf(w.store, u, later) ensures j in members.Keys {
        assert Indexed(w.store, j, later);
      }
      SubsetSize(LiveOf(w.store, u, later), members.Keys);
    }
  }

  // ---- rotation ----

  /** A token that is issued but no longer has a session. */
  ghost predicate Spent(w: World, jti: nat) {
    jti in w.issued && !IsLive(w.store, jti, w.now)
  }

  lemma SpentStays(w: World, conf: Settings, e: Event, jti: nat)
    requires Sound(w, conf) && Proper(conf) && Enabled(w, e) && Spent(w, jti)
    ensures Spent(Step(w, conf, e), jti)
  {
    Later(w.store, conf, w.now, e.at);
    match e.action
    case Login(u, jti') => CreateKeepsAgree(w.store, conf, u, jti', e.at);
    case Refresh(token, active, newJti) => ExecuteKeepsAgree(w.store, conf, token, active, newJti, e.at);
    case Logout(token) =>
    case LogoutAll(token) =>
  }

  ghost function OutcomeOf(w: World, conf: Settings, e: Event): Outcome
    requires e.action.Refresh?
  {
    Execute(w.store, conf, e.action.token, e.action.active, e.action.newJti, e.at).0
  }

  lemma ExchangeSpends(w: World, conf: Settings, e: Event)
    requires Sound(w, conf) && Proper(conf) && Enabled(w, e)
    requires e.action.Refresh? && OutcomeOf(w, conf, e) == Refreshed
    ensures Spent(Step(w, conf, e), e.action.token.jti)
  {
    Later(w.store, conf, w.now, e.at);
    GenuineOwns(w, e.action.token);
    ExecuteKeepsAgree(w.store, conf, e.action.token, e.action.active, e.action.newJti, e.at);
  }

  lemma ReplayLeavesNone(w: World, conf: Settings, e: Event)
    requires Sound(w, conf) && Proper(conf) && Enabled(w, e)
    requires e.action.Refresh? && Spent(w, e.action.token.jti)
    ensures OutcomeOf(w, conf, e) == if e.at < e.action.token.expiresAt then ReplayDetected else NotDecoded
    ensures e.at < e.action.token.expiresAt ==> NoneLive(Step(w, conf, e).store, e.action.token.userId, e.at)
  {
    Later(w.store, conf, w.now, e.at);
    LogoutAllLeavesNone(w.store, conf, e.action.token.userId, e.at);
  }

  /** The i-th event presents this token, with this outcome. */
  ghost predicate Presents(conf: Settings, w: World, e: Event, jti: nat, outcome: Outcome) {
    e.action.Refresh? && e.action.token.jti == jti && OutcomeOf(w, conf, e) == outcome
  }

  lemma ExchangeAt(conf: Settings, run: seq<World>, events: seq<Event>, i: nat, jti: nat)
    requires IsRun(conf, run, events) && Proper(conf) && i < |events|
    requires Presents(conf, run[i], events[i], jti, Refreshed)
    ensures Spent(run[i + 1], jti)
  {
    RunIsSound(conf, run, events, i);
    ExchangeSpends(run[i], conf, events[i]);
  }

  lemma SpentNext(conf: Settings, run: seq<World>, events: seq<Event>, i: nat, jti: nat)
    requires IsRun(conf, run, events) && Proper(conf) && i < |events|
    requires Spent(run[i], jti)
    ensures Spent(run[i + 1], jti)
  {
    RunIsSound(conf, run, events, i);
    SpentStays(run[i], conf, events[i], jti);
  }

  /** Once spent, spent for good. */
  lemma {:induction false} SpentForever(conf: Settings, run: seq<World>, events: seq<Event>, i: nat, k: nat, jti: nat)
    requires IsRun(conf, run, events) && Proper(conf) && i <= k <= |events|
    requires Spent(run[i], jti)
    ensures Spent(run[k], jti)
  {
    if k > i {
      SpentForever(conf, run, events, i, k - 1, jti);
      SpentNext(conf, run, events, k - 1, jti);
    }
  }

  /**
   * In every serial run a refresh token is exchanged at most once. Presenting it again while it
   * still decodes is taken for a replay and leaves its owner without any live session.
   */
  lemma TokenIsExchangedOnce(conf: Settings, run: seq<World>, events: seq<Event>, i: nat, k: nat, jti: nat)
    requires IsRun(conf, run, events) && Proper(conf) && i < k < |events|
    requires Presents(conf, run[i], events[i], jti, Refreshed)
    ensures !Presents(conf, run[k], events[k], jti, Refreshed)
    ensures var e := events[k];
            e.action.Refresh? && e.action.token.jti == jti && e.at < e.action.token.expiresAt ==>
              && Presents(conf, run[k], e, jti, ReplayDetected)
              && NoneLive(run[k + 1].store, e.action.token.userId, e.at)
  {
    ExchangeAt(conf, run, events, i, jti);
    SpentForever(conf, run, events, i + 1, k, jti);
    RunIsSound(conf, run, events, k);
    if events[k].action.Refresh? && events[k].action.token.jti == jti {
      ReplayLeavesNone(run[k], conf, events[k]);
    }
  }

  /** A token whose session lives always decodes, and refreshes it for an active user. */
  lemma LiveTokenRefreshes(conf: Settings, run: seq<World>, events: seq<Event>, i: nat, token: Token, newJti: nat,
          at: int)
    requires IsRun(conf, run, events) && Proper(conf) && i <= |events|
    requires Genuine(run[i], token) && run[i].now <= at && newJti !in run[i].issued && IsLive(run[i].store, token.jti, at)
    ensures var (r, s') := Execute(run[i].store, conf, token, true, newJti, at);
            r == Refreshed && IsLive(s', newJti, at) && s'.keys[newJti].userId == token.userId
  {
    RunIsSound(conf, run, events, i);
    Later(run[i].store, conf, run[i].now, at);
    ExecuteKeepsAgree(run[i].store, conf, token, true, newJti, at);
  }
}
