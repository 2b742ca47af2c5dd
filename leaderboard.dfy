/** The leaderboard kept under the storage key `treasureHuntLeaderboard`:
    records are appended in completion order by `saveToLeaderboard`, and
    `getLeaderboard` reads them sorted by completion time, earliest first,
    keeping the first ten. The sort is JavaScript's `Array.prototype.sort`,
    which is stable; it is specified here by a stable insertion sort. */
module Leaderboard {
  import opened Common

  /** One completed game. `displayTime` is the locale rendering of the same instant. */
  datatype LeaderboardRecord = LeaderboardRecord(username: string, completionTime: Timestamp, displayTime: string)

  /** `leaderboard.slice(0, 10)`: how many records `getLeaderboard` returns at most. */
  const ShownRecords: nat := 10

  ghost predicate SortedByTime(s: seq<LeaderboardRecord>) {
    forall i, j :: 0 <= i < j < |s| ==> s[i].completionTime <= s[j].completionTime
  }

  /** The records of `s` completed at time `t`, in their order in `s`. */
  function WithTime(s: seq<LeaderboardRecord>, t: Timestamp): seq<LeaderboardRecord>
    decreases |s|
  {
    if |s| == 0 then []
    else (if s[0].completionTime == t then [s[0]] else []) + WithTime(s[1..], t)
  }

  /** Places `x` before the first record that was not completed earlier than it. */
  function Insert(x: LeaderboardRecord, s: seq<LeaderboardRecord>): (r: seq<LeaderboardRecord>)
    ensures multiset(r) == multiset(s) + multiset{x}
    decreases |s|
  {
    if |s| == 0 || x.completionTime <= s[0].completionTime then [x] + s
    else
      assert s == [s[0]] + s[1..];
      [s[0]] + Insert(x, s[1..])
  }

  lemma {:induction false} InsertKeepsSorted(x: LeaderboardRecord, s: seq<LeaderboardRecord>)
    requires SortedByTime(s)
    ensures SortedByTime(Insert(x, s))
    decreases |s|
  {
    if |s| > 0 && s[0].completionTime < x.completionTime {
      var rest := Insert(x, s[1..]);
      InsertKeepsSorted(x, s[1..]);
      assert s == [s[0]] + s[1..];
      forall j | 0 <= j < |rest| ensures s[0].completionTime <= rest[j].completionTime {
        assert rest[j] in multiset(rest);
        if rest[j] != x {
          assert rest[j] in multiset(s[1..]);
          var k :| 0 <= k < |s[1..]| && s[1..][k] == rest[j];
          assert s[k + 1] == rest[j];
        }
      }
      assert Insert(x, s) == [s[0]] + rest;
    }
  }

  /** A stable sort of the records by completion time, as `Array.prototype.sort` does with a
      comparator that subtracts the two completion dates. */
  function SortByTime(s: seq<LeaderboardRecord>): (r: seq<LeaderboardRecord>)
    ensures SortedByTime(r)
    ensures multiset(r) == multiset(s)
    decreases |s|
  {
    if |s| == 0 then []
    else
      assert s == [s[0]] + s[1..];
      InsertKeepsSorted(s[0], SortByTime(s[1..]));
      Insert(s[0], SortByTime(s[1..]))
  }

  /** Inserting `x` adds it in front of the records with its time and leaves
      every other time's records as they were. */
  lemma {:induction false} InsertWithTime(x: LeaderboardRecord, s: seq<LeaderboardRecord>, t: Timestamp)
    ensures WithTime(Insert(x, s), t) == (if x.completionTime == t then [x] else []) + WithTime(s, t)
    decreases |s|
  {
    if |s| == 0 || x.completionTime <= s[0].completionTime {
      assert ([x] + s)[1..] == s;
    } else {
      var rest := Insert(x, s[1..]);
      assert ([s[0]] + rest)[1..] == rest;
      InsertWithTime(x, s[1..], t);
    }
  }

  /** The sort is stable: for every completion time, the records with that
      time keep the order in which they were saved. */
  lemma {:induction false} SortByTimeStable(s: seq<LeaderboardRecord>, t: Timestamp)
    ensures WithTime(SortByTime(s), t) == WithTime(s, t)
    decreases |s|
  {
    if |s| > 0 {
      SortByTimeStable(s[1..], t);
      InsertWithTime(s[0], SortByTime(s[1..]), t);
    }
  }

  lemma {:induction false} WithTimeMembers(s: seq<LeaderboardRecord>, t: Timestamp)
    ensures forall x :: x in WithTime(s, t) ==> x in s && x.completionTime == t
    decreases |s|
  {
    if |s| > 0 {
      WithTimeMembers(s[1..], t);
    }
  }

  lemma FirstTimePresent(s: seq<LeaderboardRecord>)
    requires |s| > 0
    ensures WithTime(s, s[0].completionTime) != []
  {
  }

  /** A sequence sorted by time is determined by its records of each time:
      two sorted sequences that agree on every time's records are equal. */
  lemma {:induction false} SortedDeterminedByTimes(r1: seq<LeaderboardRecord>, r2: seq<LeaderboardRecord>)
    requires SortedByTime(r1) && SortedByTime(r2)
    requires forall t :: WithTime(r1, t) == WithTime(r2, t)
    ensures r1 == r2
    decreases |r1| + |r2|
  {
    if |r1| == 0 && |r2| > 0 {
      FirstTimePresent(r2);
      assert false;
    } else if |r2| == 0 && |r1| > 0 {
      FirstTimePresent(r1);
      assert false;
    } else if |r1| > 0 {
      var a, b := r1[0], r2[0];
      WithTimeMembers(r1, b.completionTime);
      WithTimeMembers(r2, a.completionTime);
      assert WithTime(r1, a.completionTime)[0] == a;
      assert WithTime(r2, b.completionTime)[0] == b;
      assert a.completionTime <= b.completionTime by {
        var y := WithTime(r1, b.completionTime)[0];
        assert y in r1;
      }
      assert b.completionTime <= a.completionTime by {
        var y := WithTime(r2, a.completionTime)[0];
        assert y in r2;
      }
      assert a == b;
      forall t ensures WithTime(r1[1..], t) == WithTime(r2[1..], t) {
        var w1, w2 := WithTime(r1[1..], t), WithTime(r2[1..], t);
        var head := if a.completionTime == t then [a] else [];
        assert head + w1 == WithTime(r1, t) == WithTime(r2, t) == head + w2;
        assert w1 == (head + w1)[|head|..];
      }
      SortedDeterminedByTimes(r1[1..], r2[1..]);
      assert r1 == [a] + r1[1..] && r2 == [b] + r2[1..];
    }
  }

  /** No two records share a completion time. */
  ghost predicate DistinctTimes(s: seq<LeaderboardRecord>) {
    forall i, j :: 0 <= i < j < |s| ==> s[i].completionTime != s[j].completionTime
  }

  /** How often a record occurs among those of time `t`. */
  lemma {:induction false} WithTimeCounts(s: seq<LeaderboardRecord>, t: Timestamp, x: LeaderboardRecord)
    ensures multiset(WithTime(s, t))[x] == if x.completionTime == t then multiset(s)[x] else 0
    decreases |s|
  {
    if |s| > 0 {
      WithTimeCounts(s[1..], t, x);
      assert s == [s[0]] + s[1..];
    }
  }

  lemma {:induction false} WithTimeNone(s: seq<LeaderboardRecord>, t: Timestamp)
    requires forall i :: 0 <= i < |s| ==> s[i].completionTime != t
    ensures WithTime(s, t) == []
    decreases |s|
  {
    if |s| > 0 {
      WithTimeNone(s[1..], t);
    }
  }

  lemma {:induction false} DistinctTimesAtMostOne(s: seq<LeaderboardRecord>, t: Timestamp)
    requires DistinctTimes(s)
    ensures |WithTime(s, t)| <= 1
    decreases |s|
  {
    if |s| > 0 {
      assert DistinctTimes(s[1..]) by {
        forall i, j | 0 <= i < j < |s[1..]| ensures s[1..][i].completionTime != s[1..][j].completionTime {
          assert s[1..][i] == s[i + 1] && s[1..][j] == s[j + 1];
        }
      }
      DistinctTimesAtMostOne(s[1..], t);
      if s[0].completionTime == t {
        WithTimeNone(s[1..], t);
      }
    }
  }

  /** With distinct completion times, stores holding the same records hold
      the same records of each time. */
  lemma SameRecordsOfEachTime(s1: seq<LeaderboardRecord>, s2: seq<LeaderboardRecord>, t: Timestamp)
    requires multiset(s1) == multiset(s2) && DistinctTimes(s1)
    ensures WithTime(s1, t) == WithTime(s2, t)
  {
    var w1, w2 := WithTime(s1, t), WithTime(s2, t);
    forall x ensures multiset(w1)[x] == multiset(w2)[x] {
      WithTimeCounts(s1, t, x);
      WithTimeCounts(s2, t, x);
    }
    assert multiset(w1) == multiset(w2);
    assert |w1| == |multiset(w1)| == |multiset(w2)| == |w2|;
    DistinctTimesAtMostOne(s1, t);
    if |w1| == 1 {
      assert w1[0] in multiset(w2);
      assert w1 == [w1[0]] && w2 == [w2[0]];
    }
  }

  /** When completion times are distinct, the order in which the records were
      saved does not matter: any two stores holding the same records sort alike. */
  lemma SortIgnoresInsertionOrder(s1: seq<LeaderboardRecord>, s2: seq<LeaderboardRecord>)
    requires multiset(s1) == multiset(s2) && DistinctTimes(s1)
    ensures SortByTime(s1) == SortByTime(s2)
  {
    forall t ensures WithTime(SortByTime(s1), t) == WithTime(SortByTime(s2), t) {
      SortByTimeStable(s1, t);
      SortByTimeStable(s2, t);
      SameRecordsOfEachTime(s1, s2, t);
    }
    SortedDeterminedByTimes(SortByTime(s1), SortByTime(s2));
  }

  /** `getLeaderboard()`: the stored records sorted by completion time, at
      most the first ten; nothing when the key is missing or does not parse. */
  function Ranking(board: Slot<LeaderboardRecord>): (r: seq<LeaderboardRecord>)
    ensures |r| <= ShownRecords
    ensures SortedByTime(r)
    ensures !board.Parsed? ==> r == []
  {
    if board.Parsed? then
      var sorted := SortByTime(board.items);
      if |sorted| <= ShownRecords then sorted else sorted[..ShownRecords]
    else []
  }

  /** The ranking is the earliest records: it holds min(10, n) of the n stored
      records, each stored record appears in it at most as often as stored,
      and every stored record left out completed no earlier than every record
      shown. */
  lemma RankingIsEarliest(board: Slot<LeaderboardRecord>)
    requires board.Parsed?
    ensures var r := Ranking(board);
      |r| == (if |board.items| <= ShownRecords then |board.items| else ShownRecords) &&
      multiset(r) <= multiset(board.items) &&
      forall x, y :: x in multiset(board.items) - multiset(r) && y in r ==> y.completionTime <= x.completionTime
  {
    var sorted := SortByTime(board.items);
    var k := if |sorted| <= ShownRecords then |sorted| else ShownRecords;
    var r := sorted[..k];
    assert Ranking(board) == r;
    assert sorted == r + sorted[k..];
    assert multiset(board.items) == multiset(r) + multiset(sorted[k..]);
    PrefixIsEarliest(sorted, k);
    forall x, y | x in multiset(board.items) - multiset(r) && y in r
      ensures y.completionTime <= x.completionTime
    {
      assert x in multiset(sorted[k..]);
    }
  }

  /** In a time-sorted sequence nothing after position `k` completed earlier
      than anything before it. */
  lemma PrefixIsEarliest(sorted: seq<LeaderboardRecord>, k: nat)
    requires SortedByTime(sorted) && k <= |sorted|
    ensures forall x, y :: x in sorted[k..] && y in sorted[..k] ==> y.completionTime <= x.completionTime
  {
    forall x, y | x in sorted[k..] && y in sorted[..k] ensures y.completionTime <= x.completionTime {
      var m :| 0 <= m < |sorted[k..]| && sorted[k..][m] == x;
      var l :| 0 <= l < k && sorted[..k][l] == y;
      assert sorted[l] == y && sorted[k + m] == x;
    }
  }

  /** `saveToLeaderboard(userData)` at time `now`, rendered for display as `displayTime`. */
  function Save(board: Slot<LeaderboardRecord>, username: string, now: Timestamp, displayTime: string): (r: Transition<bool, LeaderboardRecord>)
    ensures r.outcome.Unsettled? <==> board.Corrupt?
    ensures board.Corrupt? ==> r.after == board
    ensures !board.Corrupt? ==>
      r.outcome == Resolved(true) && r.after.Parsed? &&
      |r.after.items| == |board.Items()| + 1 &&
      r.after.items[..|board.Items()|] == board.Items() &&
      r.after.items[|board.Items()|] == LeaderboardRecord(username, now, displayTime)
  {
    if board.Corrupt? then Transition(Unsettled, board)  // JSON.parse throws
    else
      var record := LeaderboardRecord(username, now, displayTime);
      Transition(Resolved(true), Parsed(board.Items() + [record]))
  }

  /** While fewer than ten records are stored, a newly saved record is shown. */
  lemma SavedRecordShown(board: Slot<LeaderboardRecord>, username: string, now: Timestamp, displayTime: string)
    requires !board.Corrupt? && |board.Items()| < ShownRecords
    ensures LeaderboardRecord(username, now, displayTime) in Ranking(Save(board, username, now, displayTime).after)
  {
    var after := Save(board, username, now, displayTime).after;
    var record := LeaderboardRecord(username, now, displayTime);
    assert after.items == board.Items() + [record];
    assert record in multiset(after.items);
    assert record in multiset(SortByTime(after.items));
  }
}
