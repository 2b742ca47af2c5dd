# Treasure hunt API: accounts, leaderboard and narrative calls

This project models `TreasureMapAPI`, the service behind a browser treasure-hunt
game. The service has two parts:

- **Narrative calls.** `getInitialClue`, `decodeAncientScript`, `searchTemple`
  and `openTreasureBox` are stateless. Only `searchTemple` can reject, and only
  `openTreasureBox` depends on chance.
- **Account and leaderboard calls.** These work on two browser-storage keys:
  - `treasureHuntUsers` holds an array of users. It is read by `getUserData`
    and `loginUser`, and changed in place by `registerUser` (push), `loginUser`
    (replace one entry) and `updateUserGamesCompleted` (bump one counter).
  - `treasureHuntLeaderboard` holds an array of completion records. It is
    appended to by `saveToLeaderboard` and read by `getLeaderboard`, which
    sorts by completion time and keeps the first ten.

The Dafny modules follow those parts:

- `Common` (common.dfy): shared vocabulary.
  - `Slot`: what a storage key holds. It is `Absent` when the key is missing
    or empty, `Corrupt` when the text is not valid JSON, and `Parsed(items)`
    otherwise.
  - `Outcome`: how a call's promise ends. It is `Resolved`, `Rejected` with
    one of the four API errors, or `Unsettled`. `Unsettled` is the case where
    an exception escapes the `setTimeout` callback, so the promise never
    settles. That happens when `JSON.parse` meets corrupt text in
    `registerUser` or `saveToLeaderboard`, or when `btoa` meets a character
    above U+00FF.
- `Base64` (base64.dfy): the browser's `btoa`, which the API uses to obscure
  passwords and to build login tokens. It is full base64 (RFC 4648,
  section 4) over Latin-1 strings, and it fails on any other string. A
  decoder and the round trip prove it injective.
- `Narrative` (narrative.dfy): the four narrative calls as functions.
  `Math.random()` becomes a real parameter in [0, 1).
- `Accounts` (accounts.dfy): the user table.
  - Each call is a function from the key's old contents to the call's outcome
    and the key's new contents.
  - Lemmas relate several calls: register then look up, register twice,
    register then log in, and N completed games.
- `Leaderboard` (leaderboard.dfy): the records.
  - The sort is specified by a stable insertion sort, matching JavaScript's
    stable `Array.prototype.sort`.
  - The top-ten read is proved sorted, the earliest records, and independent
    of insertion order when completion times are distinct.
- `TreasureMapApi` (store.dfy): class `Store`, with one field per storage
  key. It has one method per account or leaderboard call.
  - Each state-changing method performs the call's steps in place, and its
    `ensures` equates the new field value and the outcome with the
    `Accounts` or `Leaderboard` function.
  - Every method keeps the unique-usernames invariant `Valid()`.

Timestamps are milliseconds, passed to each call as `now`. The display string
that `toLocaleString` would produce is passed in as well.

One consequence of the code as written is stated as a lemma: a username outside
Latin-1 (a Chinese name, for instance) can be registered, because only the
password goes through `btoa` at registration. A login with that name and the
right password never settles, because the token `btoa(username + ':' + Date.now())`
throws (`Accounts.LoginAfterRegister`).

## Model

| member | source | states |
|---|---|---|
| `Base64.EncodeLatin1` | src/services/TreasureMapAPI.js:126 | base64 of a Latin-1 string has 4 characters per started group of three bytes |
| `Base64.Btoa` | src/services/TreasureMapAPI.js:126 | `btoa` produces an encoding exactly when every character is below 256 and throws otherwise |
| `Base64.AtobBtoa` | src/services/TreasureMapAPI.js:126 | decoding the encoding of any Latin-1 string gives the string back |
| `Base64.BtoaInjective` | src/services/TreasureMapAPI.js:154-155 | two passwords with the same stored encoding are the same password, so comparing encodings compares passwords |
| `Narrative.IncludesIffOccurs` | src/services/TreasureMapAPI.js:25 | `clue.includes(w)` is true exactly when `w` occurs at some position of `clue` |
| `Narrative.InitialClueText` | src/services/TreasureMapAPI.js:4-10 | the initial parchment text does not contain the temple word anywhere |
| `Narrative.DecodeAncientScript` | src/services/TreasureMapAPI.js:13-19 | whatever text is given, the decoded clue names the temple (at position 13) |
| `Narrative.SearchTemple` | src/services/TreasureMapAPI.js:22-33 | resolves with the chest text exactly when the clue contains 神庙, and otherwise rejects with ClueNotUnderstood |
| `Narrative.NarrativeOrder` | src/services/TreasureMapAPI.js:4-33 | searching with the raw parchment is rejected; searching with the decoded clue resolves with the chest text |
| `Narrative.TreasureIndex` | src/services/TreasureMapAPI.js:44 | `Math.floor(Math.random() * 3)` is a valid index into the three treasures |
| `Narrative.OpenTreasureBox` | src/services/TreasureMapAPI.js:36-48 | the result is one of the three treasures followed by the completion suffix |
| `Narrative.EveryTreasureReachable` | src/services/TreasureMapAPI.js:44 | every one of the three rewards is produced by some random draw |
| `Narrative.TreasureOutcomesDistinct` | src/services/TreasureMapAPI.js:39-45 | the three possible results differ pairwise, so there are exactly three |
| `Accounts.FirstIndex` | src/services/TreasureMapAPI.js:171 | `findIndex` by username returns the first position holding the name, or none when no position holds it |
| `Accounts.GetUserData` | src/services/TreasureMapAPI.js:92-109 | a user found has the name asked for and comes from a key that parses; missing or corrupt data gives null |
| `Accounts.LookupFindsFirst` | src/services/TreasureMapAPI.js:95-104 | the lookup finds a user exactly when the key parses and some stored user has the name, and the user found is the first with that name |
| `Accounts.OnlyMatch` | src/services/TreasureMapAPI.js:99 | in a table with unique names, the lookup returns the one user with that name |
| `Accounts.Register` | src/services/TreasureMapAPI.js:112-140 | rejects with UsernameTaken exactly when the name is found. Never settles when the key is corrupt or the password is not Latin-1. Otherwise appends one user with the encoded password, the registration time, no last login and 0 games. Only success changes the table. Unique names are preserved |
| `Accounts.RegisterThenLookup` | src/services/TreasureMapAPI.js:128-137 | after a successful registration, `getUserData` with that name returns exactly the new user |
| `Accounts.RegisterTwiceRejected` | src/services/TreasureMapAPI.js:115-120 | registering a name a second time is rejected with UsernameTaken, whatever the password, and leaves the table unchanged |
| `Accounts.DecimalString` | src/services/TreasureMapAPI.js:161 | the clock value in the token is written with decimal digits only |
| `Accounts.LoginToken` | src/services/TreasureMapAPI.js:161 | the token can be built exactly when the username is Latin-1 |
| `Accounts.Login` | src/services/TreasureMapAPI.js:143-187 | UserNotFound exactly when the lookup fails. InvalidCredentials exactly when the encoded password differs. Never settles when the password or, after a correct password, the name is outside Latin-1. Success means user found, password matches and name is Latin-1; it then sets only `lastLogin` of the first match. Any other outcome changes nothing |
| `Accounts.LoginAfterRegister` | src/services/TreasureMapAPI.js:146-175 | after registering with p0, a login resolves exactly when the password equals p0 and the name is Latin-1. The right password with a non-Latin-1 name never settles. A wrong Latin-1 password is rejected with InvalidCredentials |
| `Accounts.LoginKeepsUsernames` | src/services/TreasureMapAPI.js:164-175 | a login keeps the table's length and every name in place, and so keeps names unique |
| `Accounts.UpdateGamesCompleted` | src/services/TreasureMapAPI.js:190-212 | always resolves. Gives null and changes nothing exactly when no user is found. Otherwise sets the first match's counter to the old value (missing as 0) plus one, changes no other entry, and returns the updated user |
| `Accounts.UpdateKeepsUsernames` | src/services/TreasureMapAPI.js:197-201 | an update keeps the table's length and every name in place, and so keeps names unique |
| `Accounts.UpdateThenLookup` | src/services/TreasureMapAPI.js:197-202 | after one update, the lookup under the same name finds the old user with its counter (missing as 0) raised by one |
| `Accounts.UpdateRepeatedlyCounts` | src/services/TreasureMapAPI.js:200 | after n updates the lookup finds the user with the old count (missing as 0) plus n, every other field unchanged |
| `Accounts.UpdateUnknownNameChangesNothing` | src/services/TreasureMapAPI.js:197-209 | for a name nobody has, any number of updates leaves the table as it was, creating no user |
| `Accounts.RegisteredCounterIsZero` | src/services/TreasureMapAPI.js:128-132 | the user found right after a registration has a counter of 0 |
| `Accounts.CounterFromZero` | src/services/TreasureMapAPI.js:200 | from a counter of 0, n updates leave it at exactly n |
| `Accounts.CounterAfterRegistration` | src/services/TreasureMapAPI.js:132 | registering and then completing n games leaves the counter at exactly n |
| `Leaderboard.Insert` | src/services/TreasureMapAPI.js:59 | inserting a record adds exactly that record to the sequence's records |
| `Leaderboard.InsertKeepsSorted` | src/services/TreasureMapAPI.js:59 | inserting a record into a time-sorted sequence keeps it sorted by time |
| `Leaderboard.SortByTime` | src/services/TreasureMapAPI.js:59 | the sorted records are ordered by completion time and are a permutation of the stored ones |
| `Leaderboard.SortByTimeStable` | src/services/TreasureMapAPI.js:59 | the sort is stable: the records of each completion time keep their stored order |
| `Leaderboard.SortedDeterminedByTimes` | src/services/TreasureMapAPI.js:59 | two time-sorted sequences with the same records in the same order for every time are equal |
| `Leaderboard.SortIgnoresInsertionOrder` | src/services/TreasureMapAPI.js:59-60 | with distinct completion times, any two insertion orders of the same records sort to the same sequence |
| `Leaderboard.Ranking` | src/services/TreasureMapAPI.js:51-69 | at most ten records, sorted by completion time; nothing when the key is missing or corrupt |
| `Leaderboard.RankingIsEarliest` | src/services/TreasureMapAPI.js:59-60 | the ranking holds min(10, n) stored records, and every stored record left out completed no earlier than every record shown |
| `Leaderboard.Save` | src/services/TreasureMapAPI.js:72-89 | when the key is not corrupt: resolves true and appends exactly one record with the given name and time, all earlier records kept. When it is corrupt: never settles and changes nothing |
| `Leaderboard.SavedRecordShown` | src/services/TreasureMapAPI.js:84 | while fewer than ten records are stored, a newly saved record appears in the ranking |
| `TreasureMapApi.Store.GetUserData` | src/services/TreasureMapAPI.js:92-109 | reads the users key and returns the lookup `Accounts.GetUserData` specifies, changing nothing; while names are unique it returns the one user holding the name |
| `TreasureMapApi.Store.RegisterUser` | src/services/TreasureMapAPI.js:112-140 | outcome and new users key are those of `Accounts.Register`; the leaderboard key is untouched; unique names are kept |
| `TreasureMapApi.Store.LoginUser` | src/services/TreasureMapAPI.js:143-187 | outcome and new users key are those of `Accounts.Login`; the leaderboard key is untouched; unique names are kept |
| `TreasureMapApi.Store.UpdateUserGamesCompleted` | src/services/TreasureMapAPI.js:190-212 | result and new users key are those of `Accounts.UpdateGamesCompleted`; the leaderboard key is untouched; unique names are kept |
| `TreasureMapApi.Store.GetLeaderboard` | src/services/TreasureMapAPI.js:51-69 | returns the ranking `Leaderboard.Ranking` specifies and changes nothing |
| `TreasureMapApi.Store.SaveToLeaderboard` | src/services/TreasureMapAPI.js:72-89 | outcome and new leaderboard key are those of `Leaderboard.Save`; the users key is untouched |

## Left out

- Timer delays and promises: each call runs to completion at once. Calls
  interleaving during their delays, and the lost updates that read-modify-write
  allows under such interleaving, are not modelled.
- `localStorage` and JSON text: each key is a field holding the parsed array.
  It may instead be absent or unparsable. JSON that parses to something other
  than an array of well-formed records is not modelled. Neither are field
  values of other JSON types, such as a string `completedGames`.
- The clock: timestamps are millisecond numbers passed in as `now`. The code
  reads the clock again for `displayTime`, for `lastLogin` and for the token
  within one call; the model uses one instant per call. ISO-string formatting
  and `Date` parsing are not modelled, and `toLocaleString` is passed in as
  `displayTime`.
- `Math.random`: the draw is a real number in [0, 1) rather than a double.
  The uniform distribution over the three rewards is not modelled, only that
  each is reachable.
- Error messages: rejections carry the error kind, not the message text. The
  exception a never-settling call throws, and the unhandled rejection it causes,
  are not modelled beyond `Unsettled`.
- `console.error` diagnostics in `loginUser` and `updateUserGamesCompleted`
  are output only.
- vite.config.js is bundler configuration with no behaviour.
- Accounts.UpdateGamesCompleted: the counter is an unbounded integer. In the
  browser it is a double, so `(completedGames || 0) + 1` is exact only up to
  `Number.MAX_SAFE_INTEGER` (2^53 - 1) and stops changing at 2^53. The
  statements that n updates add exactly n (`Accounts.UpdateRepeatedlyCounts`,
  `Accounts.CounterFromZero`, `Accounts.CounterAfterRegistration`) hold for the
  browser only while the counter stays below 2^53.
- Leaderboard.Save: `saveToLeaderboard` receives a `userData` object and reads
  its `username`. The model takes the name itself. A null or undefined
  `userData` (which throws inside the timer callback, so the call never
  settles) and an object without `username` (which stores a record with no
  name) are not modelled.
