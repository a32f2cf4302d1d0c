/**
 * `oh_code_to_member` of main/helpers.py: exchanging an OAuth2
 * authorization code for a member record. The token endpoint's reply and
 * the member identity the API returns for the new access token are
 * parameters; the directory of users and members is updated in place.
 */
module Accounts {
  import opened Wrappers
  import opened OpenHumans

  /** The token endpoint's reply to the code exchange. */
  datatype ExchangeReply =
    | Granted(grant: TokenGrant)
    | Refused(hasError: bool)  // no `access_token`; `error` present or not, which only changes the log line

  /** `api.exchange_oauth2_member(access_token)`: the member behind a token. */
  datatype Identity = Identity(projectMemberId: string, username: string)

  /** Python truth value of an optional string setting or argument. */
  predicate Truthy(s: Option<string>) {
    s.Some? && s.value != ""
  }

  /** The exchange goes ahead: client secret, client id and code are all set. */
  predicate Configured(clientSecret: Option<string>, clientId: Option<string>, code: Option<string>) {
    Truthy(clientSecret) && Truthy(clientId) && Truthy(code)
  }

  /**
   * No member unless the client is configured, a code is given and the
   * reply carries an access token. A known `oh_id` keeps its record, user
   * and Open Humans username, and only its tokens and expiry are replaced;
   * an unknown one gets a new record and a new user.
   */
  method CodeToMember(dir: Directory, clientSecret: Option<string>, clientId: Option<string>,
                      code: Option<string>, reply: ExchangeReply, identity: Identity, now: int)
    returns (r: Option<Member>)
    requires dir.Valid()
    modifies dir, dir.members.Values
    ensures dir.Valid()
    ensures r.None? <==> !Configured(clientSecret, clientId, code) || reply.Refused?
    ensures r.None? ==> dir.members == old(dir.members) && dir.users == old(dir.users)
    ensures forall m :: m in old(dir.members.Values) && !(r.Some? && m == r.value) ==> unchanged(m)
    ensures r.Some? ==>
      && r.value.ohId == identity.projectMemberId
      && dir.members == old(dir.members)[identity.projectMemberId := r.value]
      && r.value.accessToken == reply.grant.accessToken
      && r.value.refreshToken == reply.grant.refreshToken
      && r.value.tokenExpires == now + reply.grant.expiresIn
    ensures r.Some? && identity.projectMemberId in old(dir.members) ==>
      && r.value == old(dir.members[identity.projectMemberId])
      && r.value.user == old(dir.members[identity.projectMemberId].user)
      && r.value.ohUsername == old(dir.members[identity.projectMemberId].ohUsername)
      && r.value.isPublic == old(dir.members[identity.projectMemberId].isPublic)
      && dir.users == old(dir.users)
    ensures r.Some? && identity.projectMemberId !in old(dir.members) ==>
      && fresh(r.value)
      && r.value.ohUsername == identity.username
      && !r.value.isPublic
      && r.value.user !in old(dir.users)
      && FirstFree(identity.projectMemberId + "_openhumans", old(dir.users), r.value.user)
      && dir.users == old(dir.users) + {r.value.user}
  {
    if !Configured(clientSecret, clientId, code) || reply.Refused? {
      return None;
    }
    var data := reply.grant;
    var ohId := identity.projectMemberId;
    var member: Member;
    if ohId in dir.members {
      member := dir.members[ohId];
      member.accessToken := data.accessToken;
      member.refreshToken := data.refreshToken;
      member.tokenExpires := GetExpiration(now, data.expiresIn);
    } else {
      member := dir.Create(ohId, identity.username, data.accessToken, data.refreshToken, data.expiresIn, now);
      dir.members := dir.members[ohId := member];
    }
    return Some(member);
  }
}
