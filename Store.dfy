/** The two collections the controllers read and write, held in memory: a
    table of user records keyed by document id, and the OTP records in the
    order they were created. One counter stamps every new document with its
    id and its creation time. */
module Store {
  import opened Json

  type Id = nat
  type Token = string

  datatype Option<T> = None | Some(value: T)

  /** What the user model stores for a password. Hashing happens in the user
      model's save hook; the model keeps the hash symbolic, so the only thing
      it can do with a credential is to check a candidate against it. */
  datatype Credential = Hashed(secret: JValue)

  /** `user.isPasswordCorrect(candidate)`. */
  predicate IsPasswordCorrect(candidate: JValue, stored: Credential) {
    stored == Hashed(candidate)
  }

  datatype User = User(
    email: JValue,
    password: Credential,
    isVerified: bool,
    refreshToken: Option<Token>,
    location: JValue,
    age: JValue,
    workDetails: JValue)

  /** The record `User.create({ email, password })` inserts: unverified, no
      refresh token, no profile fields. */
  function NewUser(email: JValue, password: JValue): (u: User)
    ensures !u.isVerified && u.refreshToken.None?
    ensures u.email == email && IsPasswordCorrect(password, u.password)
    ensures !Truthy(u.location) && !Truthy(u.age) && !Truthy(u.workDetails)
  {
    User(email, Hashed(password), false, None, Undefined, Undefined, Undefined)
  }

  datatype OtpRecord = OtpRecord(id: Id, email: JValue, otp: JValue, createdAt: nat)

  /** A user record with `password` and `refreshToken` left out, as
      `.select("-password -refreshToken")` returns it. */
  datatype UserView = UserView(
    id: Id,
    email: JValue,
    isVerified: bool,
    location: JValue,
    age: JValue,
    workDetails: JValue)

  function Redact(id: Id, u: User): UserView {
    UserView(id, u.email, u.isVerified, u.location, u.age, u.workDetails)
  }

  /** Two records have the same redacted view exactly when they differ at most
      in their password and refresh token. */
  lemma RedactDropsExactlyCredentials(id: Id, u: User, w: User)
    ensures Redact(id, u) == Redact(id, w) <==>
      u.(password := w.password, refreshToken := w.refreshToken) == w
  {
  }

  datatype State = State(users: map<Id, User>, otps: seq<OtpRecord>, clock: nat)

  const Empty := State(map[], [], 0)

  /** The HTTP error an operation ends with: an `ApiError` the controller
      throws, or (status 500) an exception that is not one. */
  datatype ApiError = ApiError(statusCode: nat, message: string)
  /** The `ApiResponse` a controller sends on success. */
  datatype Reply<T> = Reply(statusCode: nat, data: T, message: string)
  datatype Outcome<T> = Ok(value: T) | Err(error: ApiError)
  /** The store after an operation, and what the operation answered. */
  datatype Step<T> = Step(after: State, outcome: Outcome<T>)

  const Created: nat := 201

  /** A refresh token is honoured only while it equals the one stored on the
      user record: that field is the only place a session can be revoked. */
  predicate AcceptsRefresh(s: State, userId: Id, token: Token) {
    userId in s.users && s.users[userId].refreshToken == Some(token)
  }

  /** `User.findOne({ email })` finds a record. */
  predicate HasEmail(users: map<Id, User>, email: JValue) {
    exists id :: id in users && users[id].email == email
  }

  ghost predicate UniqueEmails(users: map<Id, User>) {
    forall a, b :: a in users && b in users && users[a].email == users[b].email ==> a == b
  }

  /** The two tables hold the same accounts under the same emails. */
  ghost predicate SameEmails(users: map<Id, User>, users': map<Id, User>) {
    && users.Keys == users'.Keys
    && forall id :: id in users ==> users'[id].email == users[id].email
  }

  lemma SameEmailsHasEmail(users: map<Id, User>, users': map<Id, User>, email: JValue)
    requires SameEmails(users, users')
    ensures HasEmail(users', email) <==> HasEmail(users, email)
  {
    if HasEmail(users, email) {
      var id :| id in users && users[id].email == email;
      assert users'[id].email == email;
    }
    if HasEmail(users', email) {
      var id :| id in users' && users'[id].email == email;
      assert users[id].email == email;
    }
  }

  ghost predicate IdsIncreasing(otps: seq<OtpRecord>) {
    forall i, j :: 0 <= i < j < |otps| ==> otps[i].id < otps[j].id
  }

  /** The OTP records carry ids and creation stamps below the counter, in
      strictly increasing order. */
  ghost predicate OtpsOrdered(otps: seq<OtpRecord>, clock: nat) {
    && (forall i :: 0 <= i < |otps| ==> otps[i].id < clock && otps[i].createdAt < clock)
    && IdsIncreasing(otps)
    && (forall i, j :: 0 <= i < j < |otps| ==> otps[i].createdAt < otps[j].createdAt)
  }

  /** What every operation keeps true of the store: ids and creation stamps
      come from the counter, OTP records appear in creation order, and no two
      users share an email. */
  ghost predicate Inv(s: State) {
    && (forall id :: id in s.users ==> id < s.clock)
    && UniqueEmails(s.users)
    && OtpsOrdered(s.otps, s.clock)
  }

  /** Removing record `i` shifts every later record down by one place and
      leaves the earlier ones where they were. */
  lemma RemovalShiftsIndices(otps: seq<OtpRecord>, i: nat)
    requires i < |otps|
    ensures var rest := otps[..i] + otps[i + 1..];
      |rest| == |otps| - 1 && forall k :: 0 <= k < |rest| ==> rest[k] == otps[if k < i then k else k + 1]
  {
  }

  /** Removing record `i` keeps the remaining records ordered. */
  lemma RemovalKeepsOrdered(otps: seq<OtpRecord>, clock: nat, i: nat)
    requires OtpsOrdered(otps, clock) && i < |otps|
    ensures OtpsOrdered(otps[..i] + otps[i + 1..], clock)
  {
    RemovalShiftsIndices(otps, i);
  }

  /** A change that keeps every account and its email and the counter, and
      leaves the OTP records ordered, keeps the invariant. */
  lemma SameEmailsKeepInv(s: State, t: State)
    requires Inv(s)
    requires SameEmails(s.users, t.users) && t.clock == s.clock && OtpsOrdered(t.otps, t.clock)
    ensures Inv(t)
  {
  }

  /** Appending a record stamped with the counter's value, and advancing the
      counter past it, keeps the records ordered. */
  lemma AppendKeepsOrdered(otps: seq<OtpRecord>, clock: nat, rec: OtpRecord, clock': nat)
    requires OtpsOrdered(otps, clock)
    requires clock <= rec.id < clock' && clock <= rec.createdAt < clock'
    ensures OtpsOrdered(otps + [rec], clock')
  {
    var all := otps + [rec];
    assert forall k :: 0 <= k < |otps| ==> all[k] == otps[k];
  }

  /** Adding a user under an email no account holds keeps emails unique. */
  lemma AddUserKeepsUnique(users: map<Id, User>, id: Id, u: User)
    requires UniqueEmails(users) && id !in users && !HasEmail(users, u.email)
    ensures UniqueEmails(users[id := u])
  {
  }

  /** `OTP.findOne({ email }).sort({ createdAt: -1 })`: the index of the most
      recently created record for `email`, if there is one. */
  function Newest(otps: seq<OtpRecord>, email: JValue): (r: Option<nat>)
    ensures r.None? <==> forall j :: 0 <= j < |otps| ==> otps[j].email != email
    ensures r.Some? ==>
      && r.value < |otps| && otps[r.value].email == email
      && forall j :: 0 <= j < |otps| && otps[j].email == email ==>
           otps[j].createdAt <= otps[r.value].createdAt
  {
    if otps == [] then None
    else
      match Newest(otps[1..], email)
      case None =>
        if otps[0].email == email then Some(0) else None
      case Some(k) =>
        if otps[0].email == email && otps[0].createdAt > otps[k + 1].createdAt
        then Some(0) else Some(k + 1)
  }

  /** In a store that keeps its invariant, the newest record for an email is
      the last one in the sequence that carries it. */
  lemma NewestIsLast(s: State, email: JValue, i: nat)
    requires Inv(s)
    requires i < |s.otps| && s.otps[i].email == email
    ensures Newest(s.otps, email) == Some(i) <==>
      forall j :: i < j < |s.otps| ==> s.otps[j].email != email
  {
  }

  /** `OTP.deleteOne({ _id: id })`: drops the first record with that id. */
  function DeleteById(otps: seq<OtpRecord>, id: Id): (r: seq<OtpRecord>)
    ensures forall k :: 0 <= k < |r| ==> r[k] in otps
    ensures (forall k :: 0 <= k < |otps| ==> otps[k].id != id) ==> r == otps
    ensures (exists k :: 0 <= k < |otps| && otps[k].id == id) ==> |r| == |otps| - 1
  {
    if otps == [] then []
    else if otps[0].id == id then otps[1..]
    else
      var rest := DeleteById(otps[1..], id);
      assert forall k :: 0 < k < |otps| ==> otps[k] == otps[1..][k - 1];
      [otps[0]] + rest
  }

  /** With distinct ids, deleting by the id of record `i` removes record `i`
      and nothing else. */
  lemma {:induction false} DeleteByIdAt(otps: seq<OtpRecord>, i: nat)
    requires IdsIncreasing(otps)
    requires i < |otps|
    ensures DeleteById(otps, otps[i].id) == otps[..i] + otps[i + 1..]
  {
    if i > 0 {
      var tail := otps[1..];
      TailIdsIncreasing(otps);
      DeleteByIdAt(tail, i - 1);
      assert tail[i - 1].id == otps[i].id != otps[0].id;
      ConsRemoval(otps, i);
    }
  }

  lemma TailIdsIncreasing(otps: seq<OtpRecord>)
    requires IdsIncreasing(otps) && otps != []
    ensures IdsIncreasing(otps[1..])
  {
    forall a, b | 0 <= a < b < |otps| - 1
      ensures otps[1..][a].id < otps[1..][b].id
    {
      assert otps[1..][a] == otps[a + 1] && otps[1..][b] == otps[b + 1];
    }
  }

  /** Removing record `i > 0` is keeping the head and removing record
      `i - 1` of the tail. */
  lemma ConsRemoval<T>(xs: seq<T>, i: nat)
    requires 0 < i < |xs|
    ensures [xs[0]] + (xs[1..][..i - 1] + xs[1..][i..]) == xs[..i] + xs[i + 1..]
  {
    assert xs[1..][..i - 1] == xs[1..i];
    assert xs[1..][i..] == xs[i + 1..];
    assert [xs[0]] + xs[1..i] == xs[..i];
  }

  /** The in-memory store the controllers act on. */
  class Db {
    var users: map<Id, User>
    var otps: seq<OtpRecord>
    var clock: nat

    function Snapshot(): State
      reads this
    {
      State(users, otps, clock)
    }

    ghost predicate Valid()
      reads this
    {
      Inv(Snapshot())
    }

    constructor ()
      ensures Valid() && Snapshot() == Empty
    {
      users := map[];
      otps := [];
      clock := 0;
    }
  }
}
