/** The user table kept under the storage key `treasureHuntUsers`, and what
    `getUserData`, `registerUser`, `loginUser` and `updateUserGamesCompleted`
    do to it, as functions from the key's old contents to the call's outcome
    and the key's new contents. */
module Accounts {
  import opened Common
  import opened Base64

  /** A stored user. `lastLogin` is missing until the first login, and
      `completedGames` may be missing in data written by other code. */
  datatype User = User(
    username: string,
    password: string,
    registeredTime: Timestamp,
    lastLogin: Option<Timestamp>,
    completedGames: Option<int>)

  /** What a successful login resolves with. */
  datatype Session = Session(user: User, token: string)

  /** The table invariant: no two users share a name (names are case-sensitive). */
  ghost predicate UniqueUsernames(users: seq<User>) {
    forall i, j :: 0 <= i < j < |users| ==> users[i].username != users[j].username
  }

  ghost predicate ValidUsers(slot: Slot<User>) {
    slot.Parsed? ==> UniqueUsernames(slot.items)
  }

  /** `i` is where `users.find`/`users.findIndex` stop when looking for `name`. */
  ghost predicate IsFirstMatch(users: seq<User>, name: string, i: int) {
    0 <= i < |users| && users[i].username == name &&
    forall j :: 0 <= j < i ==> users[j].username != name
  }

  /** `users.findIndex(u => u.username === name)`, with `None` for -1. */
  function FirstIndex(users: seq<User>, name: string): (r: Option<nat>)
    ensures r.Some? ==> IsFirstMatch(users, name, r.value)
    ensures r.None? ==> forall j :: 0 <= j < |users| ==> users[j].username != name
    decreases |users|
  {
    if |users| == 0 then None
    else if users[0].username == name then Some(0)
    else match FirstIndex(users[1..], name)
      case None => None
      case Some(i) => Some(i + 1)
  }

  /** Two tables with the same names in the same places answer every lookup alike. */
  lemma {:induction false} SameNamesSameIndex(a: seq<User>, b: seq<User>, name: string)
    requires |a| == |b|
    requires forall j :: 0 <= j < |a| ==> a[j].username == b[j].username
    ensures FirstIndex(a, name) == FirstIndex(b, name)
    decreases |a|
  {
    if |a| > 0 && a[0].username != name {
      SameNamesSameIndex(a[1..], b[1..], name);
    }
  }

  /** `getUserData(name)`: the first stored user with that name; `null` (None)
      when there is none, when the key is missing, or when it does not parse. */
  function GetUserData(users: Slot<User>, name: string): (r: Option<User>)
    ensures r.Some? ==> users.Parsed? && r.value.username == name
  {
    if users.Parsed? then
      match FirstIndex(users.items, name)
      case None => None
      case Some(i) => Some(users.items[i])
    else None
  }

  /** The lookup finds a user exactly when the key parses and some stored user
      has the name, and the user it finds is the first one with that name. */
  lemma LookupFindsFirst(users: Slot<User>, name: string)
    ensures GetUserData(users, name).Some? <==>
      users.Parsed? && exists j :: 0 <= j < |users.items| && users.items[j].username == name
    ensures GetUserData(users, name).Some? ==>
      exists i :: IsFirstMatch(users.items, name, i) && users.items[i] == GetUserData(users, name).value
  {
    if users.Parsed? && FirstIndex(users.items, name).Some? {
      var i := FirstIndex(users.items, name).value;
      assert IsFirstMatch(users.items, name, i) && users.items[i] == GetUserData(users, name).value;
    }
  }

  /** In a table with unique names the first match is the only match. */
  lemma OnlyMatch(users: Slot<User>, name: string, i: int)
    requires ValidUsers(users) && users.Parsed? && 0 <= i < |users.items|
    requires users.items[i].username == name
    ensures GetUserData(users, name) == Some(users.items[i])
  {
  }

  /** `registerUser(name, password)` at time `now`. */
  function Register(users: Slot<User>, name: string, password: string, now: Timestamp): (r: Transition<User, User>)
    ensures r.outcome == Rejected(UsernameTaken) <==> GetUserData(users, name).Some?
    ensures r.outcome.Rejected? ==> r.outcome.error == UsernameTaken
    ensures r.outcome.Unsettled? <==> GetUserData(users, name).None? && (users.Corrupt? || !IsLatin1(password))
    ensures r.outcome.Resolved? ==>
      var u := r.outcome.value;
      u.username == name && Btoa(password) == Some(u.password) && u.registeredTime == now &&
      u.lastLogin == None && u.completedGames == Some(0) &&
      r.after == Parsed(users.Items() + [u])
    ensures !r.outcome.Resolved? ==> r.after == users
    ensures ValidUsers(users) ==> ValidUsers(r.after)
  {
    if GetUserData(users, name).Some? then Transition(Rejected(UsernameTaken), users)
    else if users.Corrupt? then Transition(Unsettled, users)  // JSON.parse throws
    else match Btoa(password)
      case None => Transition(Unsettled, users)                 // btoa throws
      case Some(hashed) =>
        var u := User(name, hashed, now, None, Some(0));
        Transition(Resolved(u), Parsed(users.Items() + [u]))
  }

  /** The decimal digits of a number, as `String(n)` writes them. */
  function DecimalString(n: nat): (r: string)
    ensures |r| > 0 && forall i :: 0 <= i < |r| ==> '0' <= r[i] <= '9'
  {
    (if n < 10 then "" else DecimalString(n / 10)) + [('0' as int + n % 10) as char]
  }

  /** The login token `btoa(username + ':' + Date.now())`; the browser throws
      when the name has a character outside Latin-1. */
  function LoginToken(name: string, now: Timestamp): (r: Option<string>)
    ensures r.Some? <==> IsLatin1(name)
  {
    var plain := name + ":" + DecimalString(now);
    assert forall i :: 0 <= i < |name| ==> plain[i] == name[i];
    assert forall i :: |name| <= i < |plain| ==> plain[i] as int < 256;
    Btoa(plain)
  }

  /** `loginUser(name, password)` at time `now`. */
  function Login(users: Slot<User>, name: string, password: string, now: Timestamp): (r: Transition<Session, User>)
    ensures r.outcome == Rejected(UserNotFound) <==> GetUserData(users, name).None?
    ensures r.outcome == Rejected(InvalidCredentials) <==>
      GetUserData(users, name).Some? && IsLatin1(password) && Btoa(password) != Some(GetUserData(users, name).value.password)
    ensures r.outcome.Unsettled? <==>
      GetUserData(users, name).Some? &&
      (!IsLatin1(password) || (Btoa(password) == Some(GetUserData(users, name).value.password) && !IsLatin1(name)))
    ensures r.outcome.Resolved? <==>
      GetUserData(users, name).Some? && Btoa(password) == Some(GetUserData(users, name).value.password) && IsLatin1(name)
    ensures r.outcome.Resolved? ==>
      users.Parsed? && FirstIndex(users.items, name).Some? &&
      var i := FirstIndex(users.items, name).value;
      r.outcome.value.user == users.items[i].(lastLogin := Some(now)) &&
      r.after == Parsed(users.items[i := r.outcome.value.user]) &&
      Some(r.outcome.value.token) == LoginToken(name, now)
    ensures !r.outcome.Resolved? ==> r.after == users
  {
    match GetUserData(users, name)
    case None => Transition(Rejected(UserNotFound), users)
    case Some(user) =>
      match Btoa(password)
      case None => Transition(Unsettled, users)
      case Some(hashed) =>
        if user.password != hashed then Transition(Rejected(InvalidCredentials), users)
        else match LoginToken(name, now)
          case None => Transition(Unsettled, users)
          case Some(token) =>
            var updated := user.(lastLogin := Some(now));
            var i := FirstIndex(users.items, name).value;
            Transition(Resolved(Session(updated, token)), Parsed(users.items[i := updated]))
  }

  /** `(completedGames || 0)`: a missing count reads as zero. */
  function GamesOrZero(games: Option<int>): int {
    match games
    case None => 0
    case Some(n) => n
  }

  /** A user after one more completed game. */
  function Incremented(u: User): User {
    u.(completedGames := Some(GamesOrZero(u.completedGames) + 1))
  }

  /** `updateUserGamesCompleted(name)`: resolves with the updated user, or with
      `null` (None) when no user has that name or the key is missing or corrupt. */
  function UpdateGamesCompleted(users: Slot<User>, name: string): (r: Transition<Option<User>, User>)
    ensures r.outcome.Resolved?
    ensures r.outcome.value.None? <==> GetUserData(users, name).None?
    ensures r.outcome.value.None? ==> r.after == users
    ensures r.outcome.value.Some? ==>
      users.Parsed? && FirstIndex(users.items, name).Some? &&
      var i := FirstIndex(users.items, name).value;
      r.outcome.value.value == Incremented(users.items[i]) &&
      r.after == Parsed(users.items[i := r.outcome.value.value])
  {
    if users.Parsed? then
      match FirstIndex(users.items, name)
      case None => Transition(Resolved(None), users)
      case Some(i) =>
        var updated := Incremented(users.items[i]);
        Transition(Resolved(Some(updated)), Parsed(users.items[i := updated]))
    else Transition(Resolved(None), users)
  }

  /** Both tables hold the same names at the same places. */
  ghost predicate SameUsernames(a: seq<User>, b: seq<User>) {
    |a| == |b| && forall j :: 0 <= j < |a| ==> a[j].username == b[j].username
  }

  lemma SameUsernamesKeepUnique(a: seq<User>, b: seq<User>)
    requires SameUsernames(a, b) && UniqueUsernames(a)
    ensures UniqueUsernames(b)
  {
    forall i, j | 0 <= i < j < |b| ensures b[i].username != b[j].username {
      assert a[i].username != a[j].username;
    }
  }

  /** A registered user is what `getUserData` then finds under that name. */
  lemma RegisterThenLookup(users: Slot<User>, name: string, password: string, now: Timestamp)
    requires Register(users, name, password, now).outcome.Resolved?
    ensures GetUserData(Register(users, name, password, now).after, name) == Some(Register(users, name, password, now).outcome.value)
  {
    var r := Register(users, name, password, now);
    var before, u := users.Items(), r.outcome.value;
    var items := before + [u];
    assert r.after == Parsed(items);
    assert forall j :: 0 <= j < |before| ==> before[j].username != name;
    assert IsFirstMatch(items, name, |before|);
    var i :| IsFirstMatch(items, name, i) && items[i] == GetUserData(r.after, name).value;
    assert items[|before|].username == name;
    assert forall j :: 0 <= j < |before| ==> items[j] == before[j];
  }

  /** Once a name is registered, every later registration of it is rejected,
      whatever the password, and leaves the table alone. */
  lemma RegisterTwiceRejected(users: Slot<User>, name: string, p1: string, p2: string, t1: Timestamp, t2: Timestamp)
    requires Register(users, name, p1, t1).outcome.Resolved?
    ensures Register(Register(users, name, p1, t1).after, name, p2, t2) ==
      Transition(Rejected(UsernameTaken), Register(users, name, p1, t1).after)
  {
    RegisterThenLookup(users, name, p1, t1);
  }

  /** After registering with password `p0`, a login with `password` resolves
      exactly when the passwords are equal and the name is Latin-1; with the
      right password and a name outside Latin-1 the login never settles, and a
      wrong Latin-1 password is rejected with InvalidCredentials. */
  lemma LoginAfterRegister(users: Slot<User>, name: string, p0: string, t0: Timestamp, password: string, now: Timestamp)
    requires Register(users, name, p0, t0).outcome.Resolved?
    ensures var after := Register(users, name, p0, t0).after;
      (Login(after, name, password, now).outcome.Resolved? <==> password == p0 && IsLatin1(name)) &&
      (password == p0 && !IsLatin1(name) ==> Login(after, name, password, now).outcome.Unsettled?) &&
      (password != p0 && IsLatin1(password) ==> Login(after, name, password, now).outcome == Rejected(InvalidCredentials))
  {
    var r := Register(users, name, p0, t0);
    RegisterThenLookup(users, name, p0, t0);
    if Btoa(password) == Btoa(p0) {
      BtoaInjective(p0, password);
    }
  }

  /** A login changes nothing but one user's `lastLogin`, so the names, and
      with them the uniqueness invariant, stay as they were. */
  lemma LoginKeepsUsernames(users: Slot<User>, name: string, password: string, now: Timestamp)
    ensures var after := Login(users, name, password, now).after;
      SameUsernames(users.Items(), after.Items()) && after.Parsed? == users.Parsed?
    ensures ValidUsers(users) ==> ValidUsers(Login(users, name, password, now).after)
  {
    var r := Login(users, name, password, now);
    if r.outcome.Resolved? {
      var i := FirstIndex(users.items, name).value;
      assert SameUsernames(users.items, r.after.items);
      if ValidUsers(users) {
        SameUsernamesKeepUnique(users.items, r.after.items);
      }
    }
  }

  /** An update changes nothing but one user's counter, so the names, and with
      them the uniqueness invariant, stay as they were. */
  lemma UpdateKeepsUsernames(users: Slot<User>, name: string)
    ensures var after := UpdateGamesCompleted(users, name).after;
      SameUsernames(users.Items(), after.Items()) && after.Parsed? == users.Parsed?
    ensures ValidUsers(users) ==> ValidUsers(UpdateGamesCompleted(users, name).after)
  {
    var r := UpdateGamesCompleted(users, name);
    if r.outcome.value.Some? {
      var i := FirstIndex(users.items, name).value;
      assert SameUsernames(users.items, r.after.items);
      if ValidUsers(users) {
        SameUsernamesKeepUnique(users.items, r.after.items);
      }
    }
  }

  /** The table after `n` calls of `updateUserGamesCompleted(name)`. */
  function UpdateRepeatedly(users: Slot<User>, name: string, n: nat): Slot<User>
    decreases n
  {
    if n == 0 then users else UpdateGamesCompleted(UpdateRepeatedly(users, name, n - 1), name).after
  }

  /** One update adds one to the counter of the user found under the name,
      and the same lookup then finds the updated user. */
  lemma UpdateThenLookup(users: Slot<User>, name: string, u: User)
    requires GetUserData(users, name) == Some(u)
    ensures GetUserData(UpdateGamesCompleted(users, name).after, name) == Some(Incremented(u))
  {
    var i := FirstIndex(users.items, name).value;
    var after := users.items[i := Incremented(u)];
    assert UpdateGamesCompleted(users, name).after == Parsed(after);
    SameNamesSameIndex(users.items, after, name);
  }

  /** A user after `n` more completed games (unchanged for `n` = 0). */
  function PlusGames(u: User, n: nat): User {
    if n == 0 then u else u.(completedGames := Some(GamesOrZero(u.completedGames) + n))
  }

  lemma PlusGamesStep(u: User, n: nat)
    ensures PlusGames(u, n + 1) == Incremented(PlusGames(u, n))
  {
  }

  /** Each call adds exactly one to the counter of the user found under the
      name and touches no other field of that user. */
  lemma {:induction false} UpdateRepeatedlyCounts(users: Slot<User>, name: string, u: User, n: nat)
    requires GetUserData(users, name) == Some(u)
    ensures GetUserData(UpdateRepeatedly(users, name, n), name) == Some(PlusGames(u, n))
    decreases n
  {
    if n > 0 {
      UpdateRepeatedlyCounts(users, name, u, n - 1);
      var before := UpdateRepeatedly(users, name, n - 1);
      UpdateThenLookup(before, name, PlusGames(u, n - 1));
      PlusGamesStep(u, n - 1);
    }
  }

  /** For a name nobody has, any number of updates leaves the table as it
      was: no user is ever created. */
  lemma {:induction false} UpdateUnknownNameChangesNothing(users: Slot<User>, name: string, n: nat)
    requires GetUserData(users, name).None?
    ensures UpdateRepeatedly(users, name, n) == users
    decreases n
  {
    if n > 0 {
      UpdateUnknownNameChangesNothing(users, name, n - 1);
    }
  }

  /** A fresh registration starts the counter at zero. */
  lemma RegisteredCounterIsZero(users: Slot<User>, name: string, password: string, now: Timestamp)
    requires Register(users, name, password, now).outcome.Resolved?
    ensures var v := GetUserData(Register(users, name, password, now).after, name);
      v.Some? && v.value.completedGames == Some(0)
  {
    RegisterThenLookup(users, name, password, now);
  }

  /** From a zero counter, `n` updates leave it at exactly `n`. */
  lemma CounterFromZero(users: Slot<User>, name: string, n: nat)
    requires GetUserData(users, name).Some? && GetUserData(users, name).value.completedGames == Some(0)
    ensures var v := GetUserData(UpdateRepeatedly(users, name, n), name);
      v.Some? && v.value.completedGames == Some(n)
  {
    UpdateRepeatedlyCounts(users, name, GetUserData(users, name).value, n);
  }

  /** Registering and then completing `n` games leaves the counter at exactly `n`. */
  lemma CounterAfterRegistration(users: Slot<User>, name: string, password: string, now: Timestamp, n: nat)
    requires Register(users, name, password, now).outcome.Resolved?
    ensures var v := GetUserData(UpdateRepeatedly(Register(users, name, password, now).after, name, n), name);
      v.Some? && v.value.completedGames == Some(n)
  {
    RegisteredCounterIsZero(users, name, password, now);
    CounterFromZero(Register(users, name, password, now).after, name, n);
  }
}
