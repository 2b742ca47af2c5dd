/** `TreasureMapAPI`'s account and leaderboard calls over the browser's
    storage, held here by one object with a field per storage key. Each call
    reads a key, changes the array in memory, and writes it back; the timer
    delay and the promise wrapper around each call are not modelled, so a call
    returns its outcome directly. */
module TreasureMapApi {
  import opened Common
  import opened Base64
  import opened Accounts
  import opened Leaderboard

  class Store {
    /** The contents of `treasureHuntUsers`. */
    var users: Slot<User>
    /** The contents of `treasureHuntLeaderboard`. */
    var leaderboard: Slot<LeaderboardRecord>

    /** The invariant every call keeps: usernames are unique. */
    ghost predicate Valid()
      reads this
    {
      ValidUsers(users)
    }

    /** A store over whatever the two keys hold when the page loads. */
    constructor(users: Slot<User>, leaderboard: Slot<LeaderboardRecord>)
      ensures this.users == users && this.leaderboard == leaderboard
    {
      this.users := users;
      this.leaderboard := leaderboard;
    }

    /** `getUserData(username)`: under the invariant, the one user holding the
        name is the user returned. */
    method GetUserData(name: string) returns (user: Option<User>)
      ensures user == Accounts.GetUserData(users, name)
      ensures Valid() && users.Parsed? ==>
        forall i :: 0 <= i < |users.items| && users.items[i].username == name ==> user == Some(users.items[i])
    {
      user := Accounts.GetUserData(users, name);
      if Valid() && users.Parsed? {
        forall i | 0 <= i < |users.items| && users.items[i].username == name
          ensures user == Some(users.items[i])
        {
          OnlyMatch(users, name, i);
        }
      }
    }

    /** `registerUser(username, password)` at time `now`. */
    method RegisterUser(name: string, password: string, now: Timestamp) returns (outcome: Outcome<User>)
      modifies this
      ensures Transition(outcome, users) == Register(old(users), name, password, now)
      ensures leaderboard == old(leaderboard)
      ensures old(Valid()) ==> Valid()
    {
      var existing := GetUserData(name);
      if existing.Some? {
        return Rejected(UsernameTaken);
      }
      if users.Corrupt? {
        return Unsettled;  // JSON.parse throws inside the timer callback
      }
      var list := users.Items();
      var hashed := Btoa(password);
      if hashed.None? {
        return Unsettled;  // btoa throws inside the timer callback
      }
      var user := User(name, hashed.value, now, None, Some(0));
      list := list + [user];
      users := Parsed(list);
      outcome := Resolved(user);
    }

    /** `loginUser(username, password)` at time `now`. */
    method LoginUser(name: string, password: string, now: Timestamp) returns (outcome: Outcome<Session>)
      modifies this
      ensures Transition(outcome, users) == Login(old(users), name, password, now)
      ensures leaderboard == old(leaderboard)
      ensures old(Valid()) ==> Valid()
    {
      LoginKeepsUsernames(users, name, password, now);
      var found := GetUserData(name);
      if found.None? {
        return Rejected(UserNotFound);
      }
      var hashed := Btoa(password);
      if hashed.None? {
        return Unsettled;
      }
      if found.value.password != hashed.value {
        return Rejected(InvalidCredentials);
      }
      var token := LoginToken(name, now);
      if token.None? {
        return Unsettled;
      }
      var user := found.value.(lastLogin := Some(now));
      if users.Parsed? {
        var index := FirstIndex(users.items, name);
        if index.Some? {
          users := Parsed(users.items[index.value := user]);
        }
      }
      outcome := Resolved(Session(user, token.value));
    }

    /** `updateUserGamesCompleted(username)`. */
    method UpdateUserGamesCompleted(name: string) returns (user: Option<User>)
      modifies this
      ensures Transition(Resolved(user), users) == UpdateGamesCompleted(old(users), name)
      ensures leaderboard == old(leaderboard)
      ensures old(Valid()) ==> Valid()
    {
      UpdateKeepsUsernames(users, name);
      user := None;
      if users.Parsed? {
        var list := users.items;
        var index := FirstIndex(list, name);
        if index.Some? {
          var i := index.value;
          list := list[i := list[i].(completedGames := Some(GamesOrZero(list[i].completedGames) + 1))];
          users := Parsed(list);
          user := Some(list[i]);
        }
      }
    }

    /** `getLeaderboard()`: reads the key and changes nothing. */
    method GetLeaderboard() returns (top: seq<LeaderboardRecord>)
      ensures top == Ranking(leaderboard)
    {
      top := Ranking(leaderboard);
    }

    /** `saveToLeaderboard(userData)` at time `now`, displayed as `displayTime`. */
    method SaveToLeaderboard(username: string, now: Timestamp, displayTime: string) returns (outcome: Outcome<bool>)
      modifies this
      ensures Transition(outcome, leaderboard) == Save(old(leaderboard), username, now, displayTime)
      ensures users == old(users)
    {
      if leaderboard.Corrupt? {
        return Unsettled;  // JSON.parse throws inside the timer callback
      }
      var list := leaderboard.Items();
      list := list + [LeaderboardRecord(username, now, displayTime)];
      leaderboard := Parsed(list);
      outcome := Resolved(true);
    }
  }
}
