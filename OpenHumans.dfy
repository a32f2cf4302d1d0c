/**
 * The Open Humans member record (open_humans/models.py): its OAuth2
 * credentials, the refresh-before-use rule for the access token, and the
 * choice of a unique local username. The clock is the parameter `now`
 * (integer seconds) and the token endpoint's answer is a parameter too.
 */
module OpenHumans {
  import opened Text

  /** A token with fewer than this many seconds left is refreshed before use. */
  const RefreshMargin: int := 60

  /** The successful body of the OAuth2 token endpoint. */
  datatype TokenGrant = TokenGrant(accessToken: string, refreshToken: string, expiresIn: int)

  /** What the token endpoint answers to a refresh request. */
  datatype RefreshReply = RefreshReply(status: int, body: TokenGrant)

  /**
   * `get_expiration(expires_in)`: `expires_in` seconds after the clock
   * reading. A token granted for fewer than 60 seconds is due for a
   * refresh as soon as it is stored.
   */
  function GetExpiration(now: int, expiresIn: int): (expires: int)
    ensures NeedsRefresh(expires, now) <==> expiresIn < RefreshMargin
  {
    now + expiresIn
  }

  /** The refresh test of `get_access_token`: strictly fewer than 60 seconds remain. */
  predicate NeedsRefresh(tokenExpires: int, now: int) {
    tokenExpires - RefreshMargin < now
  }

  /** The name `make_unique_username` tries for suffix `n`: `base + str(n)`. */
  function Candidate(base: string, n: nat): string {
    base + NatToString(n)
  }

  /**
   * `name` is the first free name of base, base2, base3, ...: `base` itself
   * when nobody has it, and otherwise `base + str(n)` for the least n >= 2
   * that is free.
   */
  ghost predicate FirstFree(base: string, taken: set<string>, name: string) {
    if base !in taken then name == base
    else exists n: nat ::
      && n >= 2 && name == Candidate(base, n) && name !in taken
      && forall k: nat :: 2 <= k < n ==> Candidate(base, k) in taken
  }

  /** At most one name is the first free one. */
  lemma FirstFreeUnique(base: string, taken: set<string>, a: string, b: string)
    requires FirstFree(base, taken, a) && FirstFree(base, taken, b)
    ensures a == b
  {
    if base in taken {
      var n: nat :| n >= 2 && a == Candidate(base, n) && a !in taken &&
        forall k: nat :: 2 <= k < n ==> Candidate(base, k) in taken;
      var m: nat :| m >= 2 && b == Candidate(base, m) && b !in taken &&
        forall k: nat :: 2 <= k < m ==> Candidate(base, k) in taken;
    }
  }

  /** The names tried and found taken before suffix `n`. */
  ghost function Tried(base: string, n: nat): set<string> {
    set k: nat | 2 <= k < n :: Candidate(base, k)
  }

  lemma CandidateInjective(base: string, a: nat, b: nat)
    requires Candidate(base, a) == Candidate(base, b)
    ensures a == b
  {
    assert Candidate(base, a)[|base|..] == NatToString(a);
    assert Candidate(base, b)[|base|..] == NatToString(b);
    NatToStringInjective(a, b);
  }

  /** Distinct suffixes give distinct names, so `n - 2` names were tried. */
  lemma {:induction false} TriedSize(base: string, n: nat)
    requires n >= 2
    ensures |Tried(base, n)| == n - 2
  {
    if n == 2 {
      assert Tried(base, n) == {};
    } else {
      TriedSize(base, n - 1);
      assert Tried(base, n) == Tried(base, n - 1) + {Candidate(base, n - 1)};
      if Candidate(base, n - 1) in Tried(base, n - 1) {
        var k: nat :| 2 <= k < n - 1 && Candidate(base, k) == Candidate(base, n - 1);
        CandidateInjective(base, k, n - 1);
      }
    }
  }

  /**
   * `make_unique_username(base)` against the set of usernames already in
   * the user table. The loop ends because every name it passes over is a
   * distinct member of the finite set `taken`.
   */
  method MakeUniqueUsername(base: string, taken: set<string>) returns (name: string)
    ensures name !in taken
    ensures FirstFree(base, taken, name)
  {
    if base !in taken {
      return base;
    }
    var n: nat := 2;
    while true
      invariant n >= 2
      invariant forall k: nat :: 2 <= k < n ==> Candidate(base, k) in taken
      invariant n - 2 <= |taken|
      decreases |taken| + 2 - n
    {
      name := Candidate(base, n);
      if name !in taken {
        return name;
      }
      TriedSize(base, n + 1);
      assert Tried(base, n + 1) <= taken by {
        forall x | x in Tried(base, n + 1) ensures x in taken {
          var k: nat :| 2 <= k < n + 1 && x == Candidate(base, k);
        }
      }
      SubsetSize(Tried(base, n + 1), taken);
      n := n + 1;
    }
  }

  lemma SubsetSize<T>(a: set<T>, b: set<T>)
    requires a <= b
    ensures |a| <= |b|
  {
    assert b == a + (b - a);
  }

  /** An `OpenHumansMember` row. */
  class Member {
    var ohId: string
    var user: string  // username of the linked User row
    var accessToken: string
    var refreshToken: string
    var tokenExpires: int
    var ohUsername: string
    var isPublic: bool
    /** Number of refresh requests sent to the token endpoint for this member. */
    ghost var refreshRequests: nat

    constructor (ohId: string, user: string, ohUsername: string,
                 accessToken: string, refreshToken: string, tokenExpires: int)
      ensures this.ohId == ohId && this.user == user && this.ohUsername == ohUsername
      ensures this.accessToken == accessToken && this.refreshToken == refreshToken
      ensures this.tokenExpires == tokenExpires
      ensures !isPublic && refreshRequests == 0
    {
      this.ohId := ohId;
      this.user := user;
      this.ohUsername := ohUsername;
      this.accessToken := accessToken;
      this.refreshToken := refreshToken;
      this.tokenExpires := tokenExpires;
      isPublic := false;
      refreshRequests := 0;
    }

    /**
     * `_refresh_tokens`: one request to the token endpoint; on status 200
     * the three credential fields are overwritten from the reply, otherwise
     * nothing changes.
     */
    method RefreshTokens(reply: RefreshReply, now: int)
      modifies this
      ensures refreshRequests == old(refreshRequests) + 1
      ensures ohId == old(ohId) && user == old(user)
      ensures ohUsername == old(ohUsername) && isPublic == old(isPublic)
      ensures reply.status == 200 ==>
        && accessToken == reply.body.accessToken
        && refreshToken == reply.body.refreshToken
        && tokenExpires == now + reply.body.expiresIn
      ensures reply.status != 200 ==>
        && accessToken == old(accessToken)
        && refreshToken == old(refreshToken)
        && tokenExpires == old(tokenExpires)
    {
      refreshRequests := refreshRequests + 1;
      if reply.status == 200 {
        accessToken := reply.body.accessToken;
        refreshToken := reply.body.refreshToken;
        tokenExpires := GetExpiration(now, reply.body.expiresIn);
      }
    }

    /**
     * `get_access_token`: the stored token, refreshed first when strictly
     * fewer than 60 seconds remain. `reply` is what the endpoint would answer.
     */
    method GetAccessToken(now: int, reply: RefreshReply) returns (token: string)
      modifies this
      ensures ohId == old(ohId) && user == old(user)
      ensures ohUsername == old(ohUsername) && isPublic == old(isPublic)
      ensures token == accessToken
      ensures !NeedsRefresh(old(tokenExpires), now) ==>
        unchanged(this) && token == old(accessToken)
      ensures NeedsRefresh(old(tokenExpires), now) ==>
        refreshRequests == old(refreshRequests) + 1
      ensures NeedsRefresh(old(tokenExpires), now) && reply.status == 200 ==>
        && token == reply.body.accessToken
        && refreshToken == reply.body.refreshToken
        && tokenExpires == now + reply.body.expiresIn
      ensures NeedsRefresh(old(tokenExpires), now) && reply.status != 200 ==>
        && token == old(accessToken)
        && refreshToken == old(refreshToken)
        && tokenExpires == old(tokenExpires)
    {
      if NeedsRefresh(tokenExpires, now) {
        RefreshTokens(reply, now);
      }
      token := accessToken;
    }
  }

  /** Exactly 60 seconds left is not yet "nearly expired"; 59 seconds is. */
  lemma RefreshBoundary(now: int)
    ensures !NeedsRefresh(now + 60, now)
    ensures NeedsRefresh(now + 59, now)
  {
  }

  /**
   * A token granted at `issued` for `expiresIn` seconds is refreshed on use
   * at `now` exactly when more than `expiresIn - 60` seconds have passed.
   */
  lemma RefreshDue(issued: int, expiresIn: int, now: int)
    ensures NeedsRefresh(GetExpiration(issued, expiresIn), now) <==> now - issued > expiresIn - RefreshMargin
  {
  }

  /** Once a token is due for a refresh it stays due as the clock advances. */
  lemma RefreshStaysDue(tokenExpires: int, now: int, later: int)
    requires NeedsRefresh(tokenExpires, now) && now <= later
    ensures NeedsRefresh(tokenExpires, later)
  {
  }

  /** The user table (its usernames) and the member table keyed by `oh_id`. */
  class Directory {
    var users: set<string>
    var members: map<string, Member>

    ghost predicate Valid()
      reads this, members.Values
    {
      forall id :: id in members ==> members[id].ohId == id && members[id].user in users
    }

    constructor ()
      ensures Valid() && users == {} && members == map[]
    {
      users := {};
      members := map[];
    }

    /**
     * `OpenHumansMember.create`: saves a new user named by
     * `make_unique_username(oh_id + "_openhumans")` and returns an unsaved
     * member linked to it, whose token expires `expiresIn` seconds from now.
     */
    method Create(ohId: string, ohUsername: string, accessToken: string,
                  refreshToken: string, expiresIn: int, now: int) returns (m: Member)
      requires Valid()
      modifies this`users
      ensures Valid() && fresh(m)
      ensures m.user !in old(users) && users == old(users) + {m.user}
      ensures FirstFree(ohId + "_openhumans", old(users), m.user)
      ensures m.ohId == ohId && m.ohUsername == ohUsername && !m.isPublic
      ensures m.accessToken == accessToken && m.refreshToken == refreshToken
      ensures m.tokenExpires == now + expiresIn
    {
      var name := MakeUniqueUsername(ohId + "_openhumans", users);
      users := users + {name};
      m := new Member(ohId, name, ohUsername, accessToken, refreshToken,
                      GetExpiration(now, expiresIn));
    }
  }
}
