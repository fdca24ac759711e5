/** The single authorization rule of convex/files.ts (`hasAccessToOrg`):
    a caller may act on a scope id when it is one of the caller's
    organization ids or when it occurs inside the caller's token identifier
    (the way personal scopes, keyed by the user's own id, are admitted). */
module Access {
  import opened Convex

  /** A record of the users table, as far as the file table consults it. */
  datatype User = User(tokenIdentifier: string, orgIds: seq<string>)

  /** The users table, looked up by token identifier. */
  type Directory = map<string, User>

  /** Each record is filed under its own token identifier, as a lookup by the
      token identifier index finds only records carrying that token. */
  predicate WellKeyed(users: Directory)
  {
    forall t :: t in users ==> users[t].tokenIdentifier == t
  }

  /** `needle` is the slice of `hay` that starts at index `i`. */
  predicate OccursAt(needle: string, hay: string, i: int)
  {
    0 <= i <= |hay| - |needle| && hay[i..i + |needle|] == needle
  }

  /** `needle` is a contiguous slice of `hay`. */
  ghost predicate Occurs(needle: string, hay: string)
  {
    exists i :: OccursAt(needle, hay, i)
  }

  /** Shifting the search one character to the right, when `needle` is not a
      prefix of `hay`. */
  lemma OccursStep(needle: string, hay: string)
    requires |needle| <= |hay| && !(needle <= hay)
    ensures Occurs(needle, hay) <==> Occurs(needle, hay[1..])
  {
    if Occurs(needle, hay) {
      var i :| OccursAt(needle, hay, i);
      assert i != 0;
      assert hay[1..][i - 1..i - 1 + |needle|] == hay[i..i + |needle|];
      assert OccursAt(needle, hay[1..], i - 1);
    }
    if Occurs(needle, hay[1..]) {
      var i :| OccursAt(needle, hay[1..], i);
      assert hay[i + 1..i + 1 + |needle|] == hay[1..][i..i + |needle|];
      assert OccursAt(needle, hay, i + 1);
    }
  }

  /** JavaScript's `String.prototype.includes`: a left-to-right search for
      `needle` in `hay`. */
  function Includes(hay: string, needle: string): (b: bool)
    ensures b <==> Occurs(needle, hay)
    decreases |hay|
  {
    if |hay| < |needle| then false
    else if needle <= hay then
      assert OccursAt(needle, hay, 0);
      true
    else
      OccursStep(needle, hay);
      Includes(hay[1..], needle)
  }

  /** The access decision once the user record is known. */
  function HasAccess(user: User, orgId: string): (b: bool)
    ensures b <==> (orgId in user.orgIds || Occurs(orgId, user.tokenIdentifier))
  {
    orgId in user.orgIds || Includes(user.tokenIdentifier, orgId)
  }

  /** The user lookup of `./users`, whose source is not part of this model:
      assumed to find the record stored under the token, and to fail when
      there is none. In a well-keyed directory the record found carries the
      token it was looked up by. */
  function GetUser(users: Directory, token: string): (r: Result<User>)
    ensures r.Success? <==> token in users
    ensures r.Success? ==> r.value == users[token]
    ensures r.Success? && WellKeyed(users) ==> r.value.tokenIdentifier == token
    ensures r.Failure? ==> r.error == UserNotFound(token)
  {
    if token in users then Success(users[token]) else Failure(UserNotFound(token))
  }

  /** `hasAccessToOrg`: look the caller up, then decide; a failed lookup
      propagates as an error. */
  function HasAccessToOrg(users: Directory, token: string, orgId: string): (r: Result<bool>)
    ensures r.Failure? <==> token !in users
    ensures r.Failure? ==> r.error == UserNotFound(token)
    ensures r.Success? ==>
      (r.value <==> (orgId in users[token].orgIds || Occurs(orgId, users[token].tokenIdentifier)))
  {
    match GetUser(users, token)
    case Failure(e) => Failure(e)
    case Success(user) => Success(HasAccess(user, orgId))
  }

  /** Every slice of the caller's own token is a scope the caller may use. */
  lemma TokenSliceGranted(user: User, i: nat, j: nat)
    requires i <= j <= |user.tokenIdentifier|
    ensures HasAccess(user, user.tokenIdentifier[i..j])
  {
    var t := user.tokenIdentifier;
    assert OccursAt(t[i..j], t, i);
  }

  /** In particular the whole token, and the empty scope id, are always granted. */
  lemma OwnTokenGranted(user: User)
    ensures HasAccess(user, user.tokenIdentifier)
    ensures HasAccess(user, "")
  {
  }

  /** A personal scope: when the token is an issuer, a separator and the
      user's id, the user's id as scope id is granted without any
      organization membership. */
  lemma PersonalScopeGranted(user: User, issuer: string, userId: string)
    requires user.tokenIdentifier == issuer + "|" + userId
    ensures HasAccess(user, userId)
  {
    var t := user.tokenIdentifier;
    var k := |issuer| + 1;
    assert t[k..k + |userId|] == userId;
    assert OccursAt(userId, t, k);
  }

  /** Every organization the user belongs to is granted. */
  lemma MemberGranted(user: User, k: nat)
    requires k < |user.orgIds|
    ensures HasAccess(user, user.orgIds[k])
  {
  }

  /** A registered caller may use every slice of the token the caller
      presents, the empty scope id and the whole token included. */
  lemma CallerTokenSliceGranted(users: Directory, t: string, i: nat, j: nat)
    requires WellKeyed(users) && t in users
    requires i <= j <= |t|
    ensures HasAccessToOrg(users, t, t[i..j]) == Success(true)
  {
    TokenSliceGranted(users[t], i, j);
  }
}
