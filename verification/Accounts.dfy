/** The user store: two indexes, uid allocation and account creation, as functions on values. */
module Accounts {
  import opened Hash
  import opened Wrappers

  datatype AuthError = InvalidUsername | UsernameTaken | UidTaken

  const MAX_UID: nat := 0xFFFF_FFFF
  const FIRST_USER_UID: Uid := 1000
  const MAX_USERNAME_LEN: nat := 32

  type Uid = u: nat | u <= MAX_UID

  datatype Privileges = Privileges(admin: bool, capabilities: set<string>)

  datatype UserRecord = UserRecord(uid: Uid, username: string, credential: Credential, home: string,
                                   privileges: Privileges, createdNs: nat)

  datatype Store = Store(byUid: map<Uid, UserRecord>, byName: map<string, Uid>)

  const EMPTY: Store := Store(map[], map[])

  /** The two indexes are inverse to each other. */
  predicate Inverse(s: Store) {
    && (forall u :: u in s.byUid ==>
          && s.byUid[u].uid == u && s.byUid[u].username in s.byName && s.byName[s.byUid[u].username] == u)
    && (forall n :: n in s.byName ==> s.byName[n] in s.byUid && s.byUid[s.byName[n]].username == n)
  }

  // --- Names -----------------------------------------------------------------------

  predicate NameChar(c: char) { 'a' <= c <= 'z' || '0' <= c <= '9' || c == '_' || c == '-' }

  predicate IsValidUsername(n: string) {
    && 0 < |n| <= MAX_USERNAME_LEN
    && ('a' <= n[0] <= 'z' || n[0] == '_')
    && forall i :: 0 <= i < |n| ==> NameChar(n[i])
  }

  /** Valid names have one to 32 characters: lower-case ASCII letters, digits, underscores and
      hyphens, the first one a letter or an underscore. */
  lemma ValidUsernameIff(n: string)
    ensures IsValidUsername(n) <==>
              && 1 <= |n| <= 32 && (97 <= n[0] as int <= 122 || n[0] as int == 95)
              && forall i :: 0 <= i < |n| ==>
                   var c := n[i] as int; 97 <= c <= 122 || 48 <= c <= 57 || c == 95 || c == 45
  {
  }

  function Home(n: string): string { "/home/" + n }

  // --- Uids --------------------------------------------------------------------------

  /** `u` is the lowest uid from 1000 on that `used` leaves free. */
  ghost predicate LowestFree(used: set<Uid>, u: Uid) {
    1000 <= u && u !in used && forall k: Uid :: 1000 <= k < u ==> k in used
  }

  /** Every uid from 1000 to 2^32 - 1 is taken. */
  ghost predicate RangeFull(used: set<Uid>) { forall k: nat :: 1000 <= k <= 0xFFFF_FFFF ==> k in used }

  /** The uid `next_uid` returns: the lowest free one, or the largest uid when none is free. */
  function NextUid(used: set<Uid>, candidate: Uid := FIRST_USER_UID): (u: Uid)
    decreases MAX_UID - candidate
  {
    if candidate in used && candidate < MAX_UID then NextUid(used, candidate + 1) else candidate
  }

  lemma {:induction false} NextUidIs(used: set<Uid>, candidate: Uid)
    requires FIRST_USER_UID <= candidate && forall k: Uid :: FIRST_USER_UID <= k < candidate ==> k in used
    ensures var u := NextUid(used, candidate); LowestFree(used, u) || (RangeFull(used) && u == MAX_UID)
    decreases MAX_UID - candidate
  {
    if candidate in used && candidate < MAX_UID { NextUidIs(used, candidate + 1); }
  }

  /** The creation of a uid fails exactly when the whole user range is taken. */
  lemma NextUidFreeIff(used: set<Uid>)
    ensures LowestFree(used, NextUid(used)) <==> !RangeFull(used)
    ensures NextUid(used) in used <==> RangeFull(used)
    ensures RangeFull(used) ==> NextUid(used) == 0xFFFF_FFFF
  {
    NextUidIs(used, FIRST_USER_UID);
  }

  // --- Operations -----------------------------------------------------------------------

  function Insert(s: Store, r: UserRecord): Result<Store, AuthError> {
    if r.uid in s.byUid then Err(UidTaken)
    else if r.username in s.byName then Err(UsernameTaken)
    else Ok(Store(s.byUid[r.uid := r], s.byName[r.username := r.uid]))
  }

  function Remove(s: Store, uid: Uid): Store {
    if uid !in s.byUid then s
    else Store(s.byUid - {uid}, s.byName - {s.byUid[uid].username})
  }

  function Le32(u: Uid): Bytes {
    [u % 256, u / 256 % 256, u / 256 / 256 % 256, u / 256 / 256 / 256 % 256]
  }

  function EffectiveSalt(salt: Bytes, uid: Uid): Bytes { salt + Le32(uid) }

  datatype Application = Application(hasher: Hasher, username: string, password: Bytes, salt: Bytes,
                                     privileges: Privileges, createdNs: nat)

  function NewRecord(a: Application, uid: Uid): UserRecord {
    UserRecord(uid, a.username, MakeCredential(a.hasher, a.password, EffectiveSalt(a.salt, uid)),
               Home(a.username), a.privileges, a.createdNs)
  }

  function Create(s: Store, a: Application): Result<(Store, Uid), AuthError> {
    if !IsValidUsername(a.username) then Err(InvalidUsername)
    else if a.username in s.byName then Err(UsernameTaken)
    else
      var uid := NextUid(s.byUid.Keys);
      match Insert(s, NewRecord(a, uid))
      case Err(e) => Err(e)
      case Ok(s') => Ok((s', uid))
  }

  function GetByName(s: Store, n: string): Option<UserRecord> {
    if n in s.byName && s.byName[n] in s.byUid then Some(s.byUid[s.byName[n]]) else None
  }

  // --- What the operations keep ------------------------------------------------------------

  lemma InsertKeepsInverse(s: Store, r: UserRecord)
    requires Inverse(s) && Insert(s, r).Ok?
    ensures Inverse(Insert(s, r).value)
  {
  }

  lemma RemoveKeepsInverse(s: Store, uid: Uid)
    requires Inverse(s)
    ensures Inverse(Remove(s, uid))
  {
  }

  function ByteSum(b0: nat, b1: nat, b2: nat, b3: nat): nat { b0 + 256 * b1 + 65536 * b2 + 16777216 * b3 }

  /** `e` is the caller's salt followed by the four bytes of the uid, lowest first. */
  ghost predicate SaltFor(salt: Bytes, uid: Uid, e: Bytes) {
    && |e| == |salt| + 4 && e[..|salt|] == salt
    && ByteSum(e[|salt|], e[|salt| + 1], e[|salt| + 2], e[|salt| + 3]) == uid
  }

  /** The record of an application that got `uid`. */
  ghost predicate RecordFor(a: Application, uid: Uid, r: UserRecord) {
    && r.uid == uid && r.username == a.username && r.home == "/home/" + a.username
    && r.privileges == a.privileges && r.createdNs == a.createdNs
    && r.credential.scheme == a.hasher.scheme && SaltFor(a.salt, uid, r.credential.salt)
    && r.credential.hash == a.hasher.digest(a.password, r.credential.salt)
  }

  lemma NewRecordIs(a: Application, uid: Uid)
    ensures RecordFor(a, uid, NewRecord(a, uid))
  {
    Le32Value(uid);
    var e := EffectiveSalt(a.salt, uid);
    assert e[..|a.salt|] == a.salt;
    assert forall k :: 0 <= k < 4 ==> e[|a.salt| + k] == Le32(uid)[k];
    hide Le32;
  }

  lemma Le32Value(u: Uid)
    ensures var b := Le32(u); |b| == 4 && ByteSum(b[0], b[1], b[2], b[3]) == u
  {
    var q := u / 256;
    var p := q / 256;
    assert p / 256 < 256;
  }

  /** Creation succeeds exactly for a valid, unused name while a user uid is free, and each refusal
      has its own reason; the account gets the lowest free uid and the record of its application. */
  lemma CreateSucceedsIff(s: Store, a: Application)
    ensures Create(s, a) == Err(InvalidUsername) <==> !IsValidUsername(a.username)
    ensures Create(s, a) == Err(UsernameTaken) <==> IsValidUsername(a.username) && a.username in s.byName
    ensures Create(s, a) == Err(UidTaken) <==>
              IsValidUsername(a.username) && a.username !in s.byName && RangeFull(s.byUid.Keys)
    ensures Create(s, a).Ok? <==>
              IsValidUsername(a.username) && a.username !in s.byName && !RangeFull(s.byUid.Keys)
    ensures Create(s, a).Ok? ==>
              (var (s', uid) := Create(s, a).value;
               && LowestFree(s.byUid.Keys, uid) && uid in s'.byUid && RecordFor(a, uid, s'.byUid[uid])
               && s' == Store(s.byUid[uid := s'.byUid[uid]], s.byName[a.username := uid]))
  {
    NextUidFreeIff(s.byUid.Keys);
    NewRecordIs(a, NextUid(s.byUid.Keys));
    hide RecordFor, IsValidUsername, NextUid, LowestFree, RangeFull;
  }

  /** Removing the account just created gives the store back. */
  lemma CreateThenRemove(s: Store, a: Application)
    requires Create(s, a).Ok?
    ensures Remove(Create(s, a).value.0, Create(s, a).value.1) == s
  {
    CreateSucceedsIff(s, a);
    var (s', uid) := Create(s, a).value;
    hide Create, NextUid;
    assert s'.byUid - {uid} == s.byUid;
    assert s'.byName - {a.username} == s.byName;
  }

  /** Whatever salts callers pass, different uids get different effective salts. */
  lemma SaltsDiffer(salt: Bytes, u: Uid, e: Bytes, salt': Bytes, v: Uid, e': Bytes)
    requires u != v && SaltFor(salt, u, e) && SaltFor(salt', v, e')
    ensures e != e'
  {
  }
}
