/** ProfileService: one profile per user, created on first write; a
    non-blank email may sit on one user's profile only. */
module ProfileService {
  import opened Common
  import opened Models
  import opened Repositories
  import opened Integrity

  /** The writable profile fields of a request; each may be null. */
  datatype ProfileData = ProfileData(bio: Option<string>, avatarUrl: Option<string>, email: Option<string>)

  /** The email check applies: an email is given and it is not blank. */
  predicate ChecksEmail(data: ProfileData) {
    data.email.Some? && !IsBlank(data.email.value)
  }

  /** createOrUpdateProfile: the user must exist; a non-blank email found on
      another user's profile is refused; then the user's profile, existing or
      new, gets all three fields from the request, nulls included. */
  function CreateOrUpdateProfile(s: Store, userId: UserId, data: ProfileData): (r: Step<Profile>)
    ensures userId !in s.users ==> r == Fail(Error(IllegalArgument, UserNotFound))
    ensures userId in s.users ==> (r.Fail? <==> ChecksEmail(data) && EmailHeldByOther(s, data.email.value, userId))
    ensures userId in s.users && r.Fail? ==> r.error == Error(IllegalArgument, DuplicateEmail)
    ensures r.Done? ==> r.out.bio == data.bio && r.out.avatarUrl == data.avatarUrl && r.out.email == data.email
    ensures r.Done? && userId in s.profiles ==>
      r.out.id == s.profiles[userId].id && r.store.nextProfileId == s.nextProfileId
    ensures r.Done? && userId !in s.profiles ==>
      r.out.id == s.nextProfileId && r.store.nextProfileId == s.nextProfileId + 1
    ensures r.Done? ==> r.store == s.(profiles := s.profiles[userId := r.out], nextProfileId := r.store.nextProfileId)
  {
    if userId !in s.users then Fail(Error(IllegalArgument, UserNotFound))
    else if ChecksEmail(data) && EmailHeldByOther(s, data.email.value, userId) then
      Fail(Error(IllegalArgument, DuplicateEmail))
    else
      var id := if userId in s.profiles then s.profiles[userId].id else s.nextProfileId;
      var next := if userId in s.profiles then s.nextProfileId else s.nextProfileId + 1;
      var profile := Profile(id, data.bio, data.avatarUrl, data.email);
      Done(s.(profiles := s.profiles[userId := profile], nextProfileId := next), profile)
  }

  /** deleteProfile: removes the user's profile if there is one; never
      fails. */
  function DeleteProfile(s: Store, userId: UserId): (r: Step<()>)
    ensures r.Done?
    ensures r.store == s.(profiles := s.profiles - {userId})
    ensures userId !in s.profiles ==> r.store == s
  {
    Done(s.(profiles := s.profiles - {userId}), ())
  }

  /** checkProfileAccess: refused exactly when the two ids differ. */
  function CheckProfileAccess(currentUserId: UserId, targetUserId: UserId): (r: Result<()>)
    ensures r.Err? <==> currentUserId != targetUserId
    ensures r.Err? ==> r.error == Error(AccessDenied, NoProfileAccess)
  {
    if currentUserId != targetUserId then Err(Error(AccessDenied, NoProfileAccess))
    else Ok(())
  }

  // ---- Invariants

  /** The upsert keeps non-blank emails unique and profile rows one per user. */
  lemma CreateOrUpdateProfilePreservesValid(s: Store, userId: UserId, data: ProfileData)
    requires Valid(s)
    ensures CreateOrUpdateProfile(s, userId, data).Done? ==> Valid(CreateOrUpdateProfile(s, userId, data).store)
  {
  }

  lemma DeleteProfilePreservesValid(s: Store, userId: UserId)
    requires Valid(s)
    ensures Valid(DeleteProfile(s, userId).store)
  {
  }

  // ---- Email rules

  /** A user may always resubmit the email already on their own profile. */
  lemma {:induction false} OwnEmailAccepted(s: Store, userId: UserId, data: ProfileData)
    requires Valid(s)
    requires userId in s.users && userId in s.profiles
    requires data.email == s.profiles[userId].email
    ensures CreateOrUpdateProfile(s, userId, data).Done?
  {
  }

  /** A null or blank email is never checked, so it never fails. */
  lemma {:induction false} BlankEmailNotChecked(s: Store, userId: UserId, data: ProfileData)
    requires userId in s.users
    requires data.email.None? || IsBlank(data.email.value)
    ensures CreateOrUpdateProfile(s, userId, data).Done?
  {
  }

  // ---- The access check

  /** An upsert that the access check lets through touches no profile other
      than the current user's own. */
  lemma {:induction false} CheckedUpsertTouchesOnlyOwnProfile(s: Store, currentUserId: UserId, targetUserId: UserId,
                                                              data: ProfileData, u: UserId)
    requires CheckProfileAccess(currentUserId, targetUserId).Ok?
    requires CreateOrUpdateProfile(s, targetUserId, data).Done?
    requires u != currentUserId
    ensures var r := CreateOrUpdateProfile(s, targetUserId, data);
      && (u in r.store.profiles <==> u in s.profiles)
      && (u in s.profiles ==> r.store.profiles[u] == s.profiles[u])
  {
    assert currentUserId == targetUserId;
  }
}
