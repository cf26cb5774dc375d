/** The credential service (IdentityService): registration, credential
    checks, token claims and deletion over the Users table. */
module Identity {
  import opened Common
  import opened Entities
  import opened Numbers
  import opened Persistence

  /** JwtSettings: the signing secret and the token's issuer, audience and
      lifetime. */
  datatype JwtSettings = JwtSettings(secret: string, issuer: string, audience: string, expiryMinutes: int)

  datatype Claim = Claim(claimType: string, value: string)

  /** The registered claim names JwtRegisteredClaimNames.Sub, .UniqueName and .Jti. */
  const SubClaim: string := "sub"
  const UniqueNameClaim: string := "unique_name"
  const JtiClaim: string := "jti"

  /** A token before signing and compact serialisation. */
  datatype JwtToken = JwtToken(issuer: string, audience: string, claims: seq<Claim>, expires: Time)

  /** Result.Success() and Result.Failure(errors). */
  datatype OperationResult = Success | Failure(errors: seq<string>)

  /** The length of a Base64-encoded SHA-256 digest: 32 bytes take 44
      characters, the last one padding. */
  const DigestLength: int := 44

  /** Text with the shape of a Base64-encoded 32-byte digest. */
  type Digest = s: string | |s| == DigestLength && s[DigestLength - 1] == '='
    witness "AAAAAAAAAAAAAAAAAAAAAAAAAAAAAAAAAAAAAAAAAAA="

  /** SHA-256 of the password's UTF-8 bytes, Base64-encoded. The model knows
      only that it is a function of the password (deterministic, and not
      assumed to be injective) whose text has the shape of an encoded
      32-byte digest. */
  type PasswordHasher = string -> Digest

  /** HashPassword: the encoded digest of the password. */
  function HashPassword(hash: PasswordHasher, password: string): (digest: string)
    ensures |digest| == DigestLength && digest[DigestLength - 1] == '='
  {
    hash(password)
  }

  /** VerifyPassword: whether the password hashes to the stored hash. */
  function VerifyPassword(hash: PasswordHasher, password: string, storedHash: string): (ok: bool)
    ensures ok ==> |storedHash| == DigestLength
    ensures ok <==> storedHash == HashPassword(hash, password)
  {
    HashPassword(hash, password) == storedHash
  }

  /** A stored hash accepts exactly the passwords that hash to it: its own
      password, and also any other password with the same digest. */
  lemma VerifyPasswordAcceptsDigest(hash: PasswordHasher, password: string, other: string)
    ensures VerifyPassword(hash, password, HashPassword(hash, password))
    ensures VerifyPassword(hash, other, HashPassword(hash, password)) <==> hash(other) == hash(password)
  {
  }

  /** `Users.AnyAsync(u => u.Username == userName)`: whether the name is one
      of the table's usernames. */
  function UsernameExists(users: map<int, User>, userName: string): (taken: bool)
    ensures taken <==> userName in (set k | k in users :: users[k].username)
    ensures users == map[] ==> !taken
  {
    exists k :: k in users && users[k].username == userName
  }

  /** The position of the first key in `keys` whose row has the username. */
  function FirstMatch(users: map<int, User>, keys: seq<int>, userName: string): (i: nat)
    requires forall j :: 0 <= j < |keys| ==> keys[j] in users
    ensures i <= |keys|
    ensures forall j :: 0 <= j < i ==> users[keys[j]].username != userName
    ensures i < |keys| ==> users[keys[i]].username == userName
  {
    if keys == [] then 0
    else if users[keys[0]].username == userName then 0
    else 1 + FirstMatch(users, keys[1..], userName)
  }

  /** `Users.FirstOrDefaultAsync(u => u.Username == userName)`, giving the
      key of the row found. The query has no ordering; the model reads rows
      in ascending Id, so it finds the matching row with the smallest Id.
      Under the unique Username index at most one row matches. */
  function FindByUsername(users: map<int, User>, userName: string): (r: Option<int>)
    ensures r.Some? ==> r.value in users && users[r.value].username == userName
    ensures r.Some? ==> forall k :: k in users && users[k].username == userName ==> r.value <= k
    ensures r.None? <==> !UsernameExists(users, userName)
  {
    var keys := KeysInOrder(users.Keys);
    var i := FirstMatch(users, keys, userName);
    FirstMatchIsSmallest(users, keys, userName, i);
    if i < |keys| then Some(keys[i]) else None
  }

  lemma FirstMatchIsSmallest(users: map<int, User>, keys: seq<int>, userName: string, i: nat)
    requires forall k :: k in keys <==> k in users
    requires forall j :: 0 <= j < |keys| ==> keys[j] in users
    requires forall a, b :: 0 <= a < b < |keys| ==> keys[a] < keys[b]
    requires i <= |keys|
    requires forall j :: 0 <= j < i ==> users[keys[j]].username != userName
    requires i < |keys| ==> users[keys[i]].username == userName
    ensures i < |keys| ==> forall k :: k in users && users[k].username == userName ==> keys[i] <= k
    ensures i == |keys| <==> !UsernameExists(users, userName)
  {
    forall k | k in users && users[k].username == userName
      ensures i < |keys| && keys[i] <= k
    {
      var j :| 0 <= j < |keys| && keys[j] == k;
      assert i <= j;
    }
  }

  /** Under the unique Username index, a row with the username is the row
      the lookup finds. */
  lemma FindByUsernameUnique(users: map<int, User>, userName: string, k: int)
    requires SatisfiesUserConfiguration(users)
    requires k in users && users[k].username == userName
    ensures FindByUsername(users, userName) == Some(k)
  {
  }

  /** ValidateUserAsync: false for an unknown username, otherwise whether
      the password verifies against the stored hash of the row found. */
  function ValidateUser(users: map<int, User>, hash: PasswordHasher, userName: string, password: string): (valid: bool)
    ensures valid ==> exists k :: k in users && users[k].username == userName && users[k].passwordHash == hash(password)
    ensures !UsernameExists(users, userName) ==> !valid
  {
    match FindByUsername(users, userName)
    case None => false
    case Some(k) => VerifyPassword(hash, password, users[k].passwordHash)
  }

  /** Under the unique Username index, validation succeeds exactly when the
      user exists and the password hashes to the stored hash. */
  lemma ValidateUserUnique(users: map<int, User>, hash: PasswordHasher, userName: string, password: string)
    requires SatisfiesUserConfiguration(users)
    ensures ValidateUser(users, hash, userName, password)
        <==> exists k :: k in users && users[k].username == userName && users[k].passwordHash == hash(password)
  {
    if exists k :: k in users && users[k].username == userName && users[k].passwordHash == hash(password) {
      var k :| k in users && users[k].username == userName && users[k].passwordHash == hash(password);
      FindByUsernameUnique(users, userName, k);
    }
  }

  /** GenerateJwtTokenAsync: "User not found" for an unknown username;
      otherwise a token for the row found, with subject the user's Id as
      text, unique_name its Username and jti the fresh `jti` (a new Guid in
      the source), issued by and for the configured parties and expiring
      ExpiryMinutes after `now`. */
  function GenerateJwtToken(users: map<int, User>, settings: JwtSettings, userName: string, now: Time, jti: string): (r: Outcome<JwtToken>)
    ensures r.Threw? <==> !UsernameExists(users, userName)
    ensures r.Threw? ==> r.exception == ApplicationException("User not found")
    ensures r.Returned? ==> exists k :: (k in users && users[k].username == userName
      && r.value.claims == [Claim(SubClaim, IntToString(users[k].id)), Claim(UniqueNameClaim, userName), Claim(JtiClaim, jti)])
    ensures r.Returned? ==> r.value.issuer == settings.issuer && r.value.audience == settings.audience
    ensures r.Returned? ==> r.value.expires == AddMinutes(now, settings.expiryMinutes)
  {
    match FindByUsername(users, userName)
    case None => Threw(ApplicationException("User not found"))
    case Some(k) =>
      var user := users[k];
      var claims := [Claim(SubClaim, IntToString(user.id)), Claim(UniqueNameClaim, user.username), Claim(JtiClaim, jti)];
      Returned(JwtToken(settings.issuer, settings.audience, claims, AddMinutes(now, settings.expiryMinutes)))
  }

  /** Whether CreateUserAsync reported success. */
  predicate Created(outcome: Outcome<(bool, string)>) {
    outcome.Returned? && outcome.value.0
  }

  /** CreateUserAsync as a step on the Users table and its identity counter:
      the outcome, the new table, the new counter. A taken username is
      answered (false, "") without a write. Otherwise the new row is saved,
      unless the store refuses it: a Username over 50 characters, an Email
      (always "") that another row already has, or an Id past the int range. */
  function UserCreation(users: map<int, User>, nextId: int, hash: PasswordHasher, userName: string, password: string, now: Time)
    : (r: (Outcome<(bool, string)>, map<int, User>, int))
    requires UsersKeyed(users, nextId)
    ensures r.0 == Returned((false, "")) <==> UsernameExists(users, userName)
    ensures Created(r.0) <==>
      && !UsernameExists(users, userName) && IsInt32(nextId)
      && RowFits(users, nextId, NewUser(nextId, userName, HashPassword(hash, password), now))
    ensures r.0.Threw? <==>
      && !UsernameExists(users, userName)
      && !(IsInt32(nextId) && RowFits(users, nextId, NewUser(nextId, userName, HashPassword(hash, password), now)))
    ensures r.0.Threw? ==> r.0.exception == DbUpdateException
    ensures !Created(r.0) ==> r.1 == users && r.2 == nextId
    ensures Created(r.0) ==>
      && r.0.value.1 == IntToString(nextId)
      && nextId !in users && r.1.Keys == users.Keys + {nextId} && r.2 == nextId + 1
      && (forall k :: k in users ==> r.1[k] == users[k])
      && r.1[nextId] == NewUser(nextId, userName, HashPassword(hash, password), now)
    ensures UsersKeyed(r.1, r.2)
    ensures SatisfiesUserConfiguration(users) ==> SatisfiesUserConfiguration(r.1)
  {
    if UsernameExists(users, userName) then
      (Returned((false, "")), users, nextId)
    else
      var user := NewUser(nextId, userName, HashPassword(hash, password), now);
      if IsInt32(nextId) && RowFits(users, nextId, user) then
        InsertKeepsConfigurationIfValid(users, nextId, user);
        (Returned((true, IntToString(nextId))), users[nextId := user], nextId + 1)
      else
        (Threw(DbUpdateException), users, nextId)
  }

  lemma InsertKeepsConfigurationIfValid(users: map<int, User>, id: int, u: User)
    requires id !in users
    requires RowFits(users, id, u)
    ensures SatisfiesUserConfiguration(users) ==> SatisfiesUserConfiguration(users[id := u])
  {
    if SatisfiesUserConfiguration(users) {
      InsertKeepsConfiguration(users, id, u);
    }
  }

  /** On an empty store, registering a name of at most 50 characters
      succeeds while the counter is within the int range. */
  lemma FirstRegistrationSucceeds(nextId: int, hash: PasswordHasher, userName: string, password: string, now: Time)
    requires 1 <= nextId <= Int32Max
    requires |userName| <= UsernameMaxLength
    ensures var r := UserCreation(map[], nextId, hash, userName, password, now);
      Created(r.0) && r.1 == map[nextId := NewUser(nextId, userName, HashPassword(hash, password), now)]
  {
  }

  /** `Users.FindAsync(id)` followed, when a row is found, by `Users.Remove`
      and the save: whether the row was there, and the table afterwards. */
  function RemoveUserRow(users: map<int, User>, id: int): (r: (bool, map<int, User>))
    ensures r.0 <==> id in users
    ensures !r.0 ==> r.1 == users
    ensures r.1.Keys == users.Keys - {id}
    ensures r.0 ==> |r.1| == |users| - 1
    ensures forall k :: k in r.1 ==> r.1[k] == users[k]
    ensures SatisfiesUserConfiguration(users) ==> SatisfiesUserConfiguration(r.1)
  {
    RemoveKeepsConfiguration(users, id);
    (id in users, users - {id})
  }

  /** DeleteUserAsync as a step on the Users table: the id text is parsed
      with int.Parse (whose exceptions propagate); an unknown id fails with
      "User not found"; a known one removes exactly that row and echoes the
      given text. */
  function UserDeletion(users: map<int, User>, userId: string): (r: (Outcome<(OperationResult, string)>, map<int, User>))
    ensures r.0.Threw? <==> ParseInt32(userId).Threw?
    ensures r.0.Threw? ==> r.0.exception == ParseInt32(userId).exception
    ensures r.0 == Returned((Success, userId)) <==> ParseInt32(userId).Returned? && ParseInt32(userId).value in users
    ensures ParseInt32(userId).Returned? && ParseInt32(userId).value !in users ==>
      r.0 == Returned((Failure(["User not found"]), ""))
    ensures r.0.Returned? && r.0.value.0.Failure? ==> r.0.value == (Failure(["User not found"]), "")
    ensures r.0 != Returned((Success, userId)) ==> r.1 == users
    ensures r.0 == Returned((Success, userId)) ==> r.1 == RemoveUserRow(users, ParseInt32(userId).value).1
    ensures SatisfiesUserConfiguration(users) ==> SatisfiesUserConfiguration(r.1)
  {
    var parsed := ParseInt32(userId);
    if parsed.Threw? then
      (Threw(parsed.exception), users)
    else
      var removal := RemoveUserRow(users, parsed.value);
      if !removal.0 then (Returned((Failure(["User not found"]), "")), users)
      else (Returned((Success, userId)), removal.1)
  }

  /** Register, then validate with the same credentials: accepted. */
  lemma RegisterThenValidate(users: map<int, User>, nextId: int, hash: PasswordHasher, userName: string, password: string, now: Time)
    requires UsersKeyed(users, nextId)
    requires Created(UserCreation(users, nextId, hash, userName, password, now).0)
    ensures ValidateUser(UserCreation(users, nextId, hash, userName, password, now).1, hash, userName, password)
  {
    var after := UserCreation(users, nextId, hash, userName, password, now).1;
    FoundIsNewRow(users, nextId, hash, userName, password, now);
    assert VerifyPassword(hash, password, after[nextId].passwordHash);
  }

  /** A name that was free before registering is found, afterwards, in the
      new row only. */
  lemma FoundIsNewRow(users: map<int, User>, nextId: int, hash: PasswordHasher, userName: string, password: string, now: Time)
    requires UsersKeyed(users, nextId)
    requires Created(UserCreation(users, nextId, hash, userName, password, now).0)
    ensures FindByUsername(UserCreation(users, nextId, hash, userName, password, now).1, userName) == Some(nextId)
  {
    var after := UserCreation(users, nextId, hash, userName, password, now).1;
    assert !UsernameExists(users, userName);
    assert after[nextId].username == userName;
    var found := FindByUsername(after, userName);
    assert found.Some? && found.value in after;
    assert found.value !in users;
  }

  /** Register, then delete by the id text registration returned: exactly
      the new row goes and the table is as it was before registering. */
  lemma RegisterThenDelete(users: map<int, User>, nextId: int, hash: PasswordHasher, userName: string, password: string, now: Time)
    requires UsersKeyed(users, nextId)
    requires Created(UserCreation(users, nextId, hash, userName, password, now).0)
    ensures var r := UserCreation(users, nextId, hash, userName, password, now);
      UserDeletion(r.1, r.0.value.1) == (Returned((Success, r.0.value.1)), users)
  {
    var r := UserCreation(users, nextId, hash, userName, password, now);
    assert IsInt32(nextId) && r.0.value.1 == IntToString(nextId);
    assert nextId in r.1 && r.1 - {nextId} == users;
    DeleteByIdText(r.1, nextId, users);
  }

  /** Deleting by the text of a present int id removes that row. */
  lemma DeleteByIdText(after: map<int, User>, id: int, before: map<int, User>)
    requires IsInt32(id) && id in after && after - {id} == before
    ensures UserDeletion(after, IntToString(id)) == (Returned((Success, IntToString(id))), before)
  {
    ParseIntToString(id);
    assert RemoveUserRow(after, id).1 == before;
  }

  /** A username that is taken is refused again, with no write. */
  lemma RegisterTakenName(users: map<int, User>, nextId: int, hash: PasswordHasher, userName: string, password: string, now: Time)
    requires UsersKeyed(users, nextId)
    requires Created(UserCreation(users, nextId, hash, userName, password, now).0)
    ensures var r := UserCreation(users, nextId, hash, userName, password, now);
      forall other: string, later: Time ::
        UserCreation(r.1, r.2, hash, userName, other, later) == (Returned((false, "")), r.1, r.2)
  {
    var r := UserCreation(users, nextId, hash, userName, password, now);
    assert r.1[nextId].username == userName;
  }

  /** Registration never sets Email, so once any row has the empty Email the
      unique Email index refuses every further registration of a new
      username: the username guard passes and the save fails. */
  lemma EmptyEmailBlocksRegistration(users: map<int, User>, nextId: int, hash: PasswordHasher, userName: string, password: string, now: Time)
    requires UsersKeyed(users, nextId)
    requires exists k :: k in users && users[k].email == ""
    requires !UsernameExists(users, userName)
    ensures UserCreation(users, nextId, hash, userName, password, now).0 == Threw(DbUpdateException)
  {
    var k :| k in users && users[k].email == "";
    assert k != nextId;
  }

  /** After one successful registration, registering any other new username
      throws DbUpdateException. */
  lemma SecondRegistrationRefused(users: map<int, User>, nextId: int, hash: PasswordHasher, first: string, password: string, now: Time,
                                  second: string, password2: string, later: Time)
    requires UsersKeyed(users, nextId)
    requires Created(UserCreation(users, nextId, hash, first, password, now).0)
    requires second != first && !UsernameExists(users, second)
    ensures var r := UserCreation(users, nextId, hash, first, password, now);
      UserCreation(r.1, r.2, hash, second, password2, later).0 == Threw(DbUpdateException)
  {
    var r := UserCreation(users, nextId, hash, first, password, now);
    assert r.1[nextId].email == "";
    EmptyEmailBlocksRegistration(r.1, r.2, hash, second, password2, later);
  }

  /** Registration does not set LastLogin: the new row has none, and every
      other row keeps its own. */
  lemma CreationLeavesLastLogin(users: map<int, User>, nextId: int, hash: PasswordHasher, userName: string, password: string, now: Time)
    requires UsersKeyed(users, nextId)
    ensures var created := UserCreation(users, nextId, hash, userName, password, now).1;
      forall k :: k in created ==> created[k].lastLogin == (if k in users then users[k].lastLogin else None)
  {
  }

  /** Deletion does not touch LastLogin: every remaining row keeps its own. */
  lemma DeletionLeavesLastLogin(users: map<int, User>, userId: string)
    ensures var remaining := UserDeletion(users, userId).1;
      forall k :: k in remaining ==> k in users && remaining[k].lastLogin == users[k].lastLogin
  {
  }

  /** The credential service over the application's store. */
  class IdentityService {
    const context: ApplicationDbContext
    const hash: PasswordHasher

    constructor (context: ApplicationDbContext, hash: PasswordHasher)
      ensures this.context == context && this.hash == hash
    {
      this.context := context;
      this.hash := hash;
    }

    /** CreateUserAsync: guard on the username, then add the row and save. */
    method CreateUser(userName: string, password: string, now: Time) returns (outcome: Outcome<(bool, string)>)
      requires context.Valid()
      modifies context
      ensures context.Valid()
      ensures (outcome, context.users, context.nextUserId)
           == UserCreation(old(context.users), old(context.nextUserId), hash, userName, password, now)
      ensures context.products == old(context.products)
    {
      if UsernameExists(context.users, userName) {
        return Returned((false, ""));
      }
      var user := NewUser(context.nextUserId, userName, HashPassword(hash, password), now);
      if !(IsInt32(user.id) && RowFits(context.users, user.id, user)) {
        // SaveChangesAsync refuses the row
        return Threw(DbUpdateException);
      }
      InsertKeepsConfiguration(context.users, user.id, user);
      context.users := context.users[user.id := user];
      context.nextUserId := context.nextUserId + 1;
      return Returned((true, IntToString(user.id)));
    }

    /** DeleteUserAsync: parse the id, then remove the row it names. */
    method DeleteUser(userId: string) returns (outcome: Outcome<(OperationResult, string)>)
      requires context.Valid()
      modifies context
      ensures context.Valid()
      ensures (outcome, context.users) == UserDeletion(old(context.users), userId)
      ensures context.products == old(context.products) && context.nextUserId == old(context.nextUserId)
    {
      var parsed := ParseInt32(userId);
      if parsed.Threw? {
        return Threw(parsed.exception);
      }
      var found := RemoveUser(parsed.value);
      if !found {
        return Returned((Failure(["User not found"]), ""));
      }
      return Returned((Success, userId));
    }

    /** `Users.FindAsync(id)`, then `Users.Remove` and SaveChangesAsync when
        the row exists. */
    method RemoveUser(id: int) returns (found: bool)
      requires context.Valid()
      modifies context
      ensures context.Valid()
      ensures (found, context.users) == RemoveUserRow(old(context.users), id)
      ensures context.products == old(context.products) && context.nextUserId == old(context.nextUserId)
    {
      if id !in context.users {
        return false;
      }
      var removal := RemoveUserRow(context.users, id);
      context.users := removal.1;
      return true;
    }
  }
}
