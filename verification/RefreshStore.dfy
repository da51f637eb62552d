/** `JWTRefreshAuthSession` and the token update over it, changing Redis key by key. */
module RefreshStore {
  import opened RefreshSessions

  class JwtRefreshSessions {
    var keys: map<nat, Session>
    var index: map<int, Index>
    const conf: Settings

    ghost function State(): Store
      reads this
    {
      Store(keys, index)
    }

    constructor (conf: Settings)
      ensures State() == Store(map[], map[]) && this.conf == conf
    {
      keys, index, this.conf := map[], map[], conf;
    }

    /** ZRANGE: what the sorted set holds while it lives. */
    function Range(userId: int, now: int): map<nat, int>
      reads this
    {
      if userId in index && now < index[userId].expiresAt then index[userId].members else map[]
    }

    method Remove(userId: int, jti: nat, now: int)
      modifies this
      ensures State() == RefreshSessions.Remove(old(State()), userId, jti, now)
    {
      keys := keys - {jti};
      var rest := Range(userId, now) - {jti};
      if rest == map[] {
        index := index - {userId};
      } else {
        index := index[userId := index[userId].(members := rest)];
      }
    }

    method Create(userId: int, jti: nat, now: int)
      modifies this
      ensures State() == RefreshSessions.Create(old(State()), conf, userId, jti, now)
    {
      MakeRoom(userId, now);
      var members := Range(userId, now);
      keys := keys[jti := Session(userId, now + conf.ttl)];
      index := index[userId := Index(members[jti := now], if members == map[] then now else index[userId].expiresAt)];
      index := index[userId := index[userId].(expiresAt := now + conf.ttl)];
    }

    method MakeRoom(userId: int, now: int)
      modifies this
      ensures State() == RefreshSessions.MakeRoom(old(State()), conf, userId, now)
    {
      var members := Range(userId, now);
      if |members| >= conf.max && members != map[] {
        var oldest := FindOldest(members);
        Remove(userId, oldest, now);
      }
    }

    method IsExists(jti: nat, now: int) returns (r: bool)
      ensures r == IsLive(State(), jti, now)
    {
      return jti in keys && now < keys[jti].expiresAt;
    }

    method RemoveAllUserSessions(userId: int, now: int)
      modifies this
      ensures State() == RemoveAll(old(State()), userId, now)
    {
      var members := Range(userId, now);
      if members == map[] {
        return;
      }
      keys := keys - members.Keys;
      index := index - {userId};
    }

    /** active: the account exists and is active; newJti is the id of the token just generated. */
    method Update(token: Token, active: bool, newJti: nat, now: int) returns (r: Outcome)
      modifies this
      ensures (r, State()) == Execute(old(State()), conf, token, active, newJti, now)
    {
      if token.expiresAt <= now {
        return NotDecoded;
      }
      var live := IsExists(token.jti, now);
      if !live {
        RemoveAllUserSessions(token.userId, now);
        return ReplayDetected;
      }
      if !active {
        RemoveAllUserSessions(token.userId, now);
        return UserInactive;
      }
      Remove(token.userId, token.jti, now);
      Create(token.userId, newJti, now);
      return Refreshed;
    }
  }

  /** The first member of a sorted set. */
  method FindOldest(members: map<nat, int>) returns (oldest: nat)
    requires members != map[]
    ensures IsOldest(members, oldest) && oldest == Oldest(members)
  {
    oldest :| oldest in members;
    var rest := members.Keys - {oldest};
    while rest != {}
      invariant rest <= members.Keys && oldest in members
      invariant forall k :: k in members && k != oldest && k !in rest ==> Before(members, oldest, k)
    {
      var k :| k in rest;
      if Before(members, k, oldest) {
        oldest := k;
      }
      rest := rest - {k};
    }
    OldestIsUnique(members, oldest, Oldest(members));
  }
}
