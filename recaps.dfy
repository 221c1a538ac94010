/**
 * The weekly recap of controllers/emailController.js: which users get one,
 * the statistics it reports (calculateAverageScore, the entry count and
 * calculateStreak), and the tally sendAllRecaps reports.
 *
 * The clock is the parameter `now`; whether the mail service accepted a
 * message is the parameter `delivered`. Composing and sending the message
 * are not modelled.
 */
module Recaps {
  import opened Base
  import Stats
  import opened Entries
  import Social

  /** The statistics a recap reports: the weekly average in tenths, the number of entries of the
      last week, and the current streak. */
  datatype RecapStats = RecapStats(averageTenths: int, entriesCount: nat, currentStreak: nat)

  datatype RecapError =
    | UserNotFound      // 404, "User not found"
    | NoEmail           // 400, "User does not have an email address"
    | NoRecentEntries   // 400, "User has no entries for the past week"
    | SendFailed        // 500, "Failed to send email"
    | NoRecipients      // 404, "No users with email addresses found"

  /** The number of messages sent and of users whose recap failed. */
  datatype Tally = Tally(sent: nat, failed: nat)

  /** The statistics of `owner`'s recap at time `now`. */
  ghost function RecapOf(m: map<EntryId, Day>, owner: UserId, now: int): RecapStats
    requires OneEntryPerDay(m)
  {
    var week := LastWeek(m, owner, now);
    RecapStats(
      Stats.AverageTenths(ScoresOf(m, week)),
      |week|,
      Stats.PreviousDateStreak(DaysOf(m, History(m, owner))))
  }

  /** A user with at least one entry in the last week: the scores average between 1.0 and 10.0,
      the streak is at least one and at most the number of all entries. */
  lemma RecapBounds(m: map<EntryId, Day>, owner: UserId, now: int)
    requires OneEntryPerDay(m) && forall id :: id in m ==> WellFormed(m[id])
    requires Matching(m, owner, Some(WeekStart(now)), None) != {}
    ensures var r := RecapOf(m, owner, now);
      && 10 <= r.averageTenths <= 100
      && r.entriesCount == |Matching(m, owner, Some(WeekStart(now)), None)| >= 1
      && 1 <= r.currentStreak <= |Matching(m, owner, None, None)|
  {
    var week := LastWeek(m, owner, now);
    MeanOfStored(m, week);
    var id := Pick(Matching(m, owner, Some(WeekStart(now)), None));
    assert id in Matching(m, owner, None, None);
    Stats.PreviousDateStreakShape(DaysOf(m, History(m, owner)));
  }

  /** calculateStreak: the streak of day-by-day previous dates, over all of `owner`'s entries. */
  method CalculateStreak(store: EntryStore, owner: UserId) returns (streak: nat)
    requires store.Valid()
    ensures streak == Stats.PreviousDateStreak(DaysOf(store.entries, History(store.entries, owner)))
  {
    var ids := store.Find(owner, None, None);
    var days := DaysOf(store.entries, ids);
    streak := Stats.CountPreviousDateStreak(days);
  }

  /** The statistics for the entries of the last week, `week`, as found. */
  method ComputeStats(store: EntryStore, owner: UserId, now: int, week: seq<EntryId>) returns (stats: RecapStats)
    requires store.Valid() && week == LastWeek(store.entries, owner, now)
    ensures stats == RecapOf(store.entries, owner, now)
  {
    var streak := CalculateStreak(store, owner);
    stats := RecapStats(Stats.AverageTenths(ScoresOf(store.entries, week)), |week|, streak);
  }

  /** sendUserRecap: the recap of user `userId`, if that user exists, has an address and has an
      entry in the last week; then whether the message went out. */
  method SendUserRecap(graph: Social.SocialGraph, store: EntryStore, userId: UserId, now: int, delivered: bool)
    returns (r: Result<RecapStats, RecapError>)
    requires store.Valid()
    ensures userId !in graph.users ==> r == Failure(UserNotFound)
    ensures userId in graph.users && graph.users[userId].email == "" ==> r == Failure(NoEmail)
    ensures (userId in graph.users && graph.users[userId].email != "" &&
             Matching(store.entries, userId, Some(WeekStart(now)), None) == {}) ==> r == Failure(NoRecentEntries)
    ensures (userId in graph.users && graph.users[userId].email != "" &&
             Matching(store.entries, userId, Some(WeekStart(now)), None) != {}) ==>
      r == (if delivered then Success(RecapOf(store.entries, userId, now)) else Failure(SendFailed))
  {
    if userId !in graph.users {
      return Failure(UserNotFound);
    }
    if graph.users[userId].email == "" {
      return Failure(NoEmail);
    }
    var week := store.Find(userId, Some(WeekStart(now)), None);
    if |week| == 0 {
      return Failure(NoRecentEntries);
    }
    var stats := ComputeStats(store, userId, now, week);
    if !delivered {
      return Failure(SendFailed);
    }
    r := Success(stats);
  }

  /** The users with an address: `User.find({ email: { $exists: true, $ne: '' } })`. */
  function Recipients(users: Social.Users): (s: set<UserId>)
    ensures forall id :: id in s <==> id in users && users[id].email != ""
  {
    set id | id in users && users[id].email != ""
  }

  /** The recipients with an entry in the last week: those a recap is attempted for. */
  ghost function Due(users: Social.Users, m: map<EntryId, Day>, now: int): (s: set<UserId>)
    ensures s <= Recipients(users)
  {
    set id | id in Recipients(users) && Matching(m, id, Some(WeekStart(now)), None) != {}
  }

  ghost function SentTo(users: Social.Users, m: map<EntryId, Day>, now: int, delivered: UserId -> bool): set<UserId> {
    set id | id in Due(users, m, now) && delivered(id)
  }

  ghost function FailedFor(users: Social.Users, m: map<EntryId, Day>, now: int, delivered: UserId -> bool): set<UserId> {
    set id | id in Due(users, m, now) && !delivered(id)
  }

  /** Every due user is counted once, as sent or as failed; users skipped for having no entry
      are counted in neither, so the two counts add up to at most the number of users. */
  lemma TallyCovers(users: Social.Users, m: map<EntryId, Day>, now: int, delivered: UserId -> bool)
    ensures SentTo(users, m, now, delivered) * FailedFor(users, m, now, delivered) == {}
    ensures SentTo(users, m, now, delivered) + FailedFor(users, m, now, delivered) == Due(users, m, now)
    ensures |SentTo(users, m, now, delivered)| + |FailedFor(users, m, now, delivered)| == |Due(users, m, now)|
    ensures |Due(users, m, now)| <= |Recipients(users)| <= |users|
  {
    var s, f := SentTo(users, m, now, delivered), FailedFor(users, m, now, delivered);
    assert s * f == {};
    assert s + f == Due(users, m, now);
    assert |s + f| == |s| + |f| - |s * f|;
    var r := Recipients(users);
    assert r <= users.Keys;
    SubsetCard(Due(users, m, now), r);
    SubsetCard(r, users.Keys);
  }

  lemma SubsetCard<T>(a: set<T>, b: set<T>)
    requires a <= b
    ensures |a| <= |b|
  {
    assert b == a + (b - a) && a * (b - a) == {};
    assert |b| == |a| + |b - a|;
  }

  /** sendAllRecaps: attempt a recap for every recipient with an entry in the last week and count
      what went out and what did not. */
  method SendAllRecaps(graph: Social.SocialGraph, store: EntryStore, now: int, delivered: UserId -> bool)
    returns (r: Result<Tally, RecapError>)
    requires store.Valid()
    ensures Recipients(graph.users) == {} ==> r == Failure(NoRecipients)
    ensures Recipients(graph.users) != {} ==>
      && r.Success?
      && r.value.sent == |SentTo(graph.users, store.entries, now, delivered)|
      && r.value.failed == |FailedFor(graph.users, store.entries, now, delivered)|
  {
    var users := graph.users;
    var recipients := set id | id in users && users[id].email != "";
    assert recipients == Recipients(users);
    if recipients == {} {
      return Failure(NoRecipients);
    }
    ghost var sendTo := SentTo(users, store.entries, now, delivered);
    ghost var failTo := FailedFor(users, store.entries, now, delivered);
    var sent, failed := 0, 0;
    ghost var done: set<UserId> := {};
    ghost var sentTo: set<UserId> := {};
    ghost var failedFor: set<UserId> := {};
    var rest := recipients;
    while rest != {}
      invariant rest <= recipients && done == recipients - rest
      invariant sentTo == done * sendTo && failedFor == done * failTo
      invariant sent == |sentTo| && failed == |failedFor|
      decreases rest
    {
      ghost var some := Pick(rest);
      var id :| id in rest;
      DueIff(users, store.entries, now, delivered, id);
      AddOne(done, id, sendTo);
      AddOne(done, id, failTo);
      var wasSent, hasFailed := RecapFor(store, id, now, delivered(id));
      if wasSent {
        GrowByOne(sentTo, id);
        sent := sent + 1;
        sentTo := sentTo + {id};
      }
      if hasFailed {
        GrowByOne(failedFor, id);
        failed := failed + 1;
        failedFor := failedFor + {id};
      }
      MoveOne(done, rest, recipients, id);
      done := done + {id};
      rest := rest - {id};
    }
    WithinRecipients(users, store.entries, now, delivered);
    WithinAll(rest, done, recipients, sendTo);
    WithinAll(rest, done, recipients, failTo);
    r := Success(Tally(sent, failed));
  }

  /** One step of sendAllRecaps: a user without an entry in the last week is skipped; otherwise
      the recap is computed and counted as sent or as failed. */
  method RecapFor(store: EntryStore, id: UserId, now: int, delivered: bool) returns (sent: bool, failed: bool)
    requires store.Valid()
    ensures sent <==> Matching(store.entries, id, Some(WeekStart(now)), None) != {} && delivered
    ensures failed <==> Matching(store.entries, id, Some(WeekStart(now)), None) != {} && !delivered
  {
    var week := store.Find(id, Some(WeekStart(now)), None);
    sent, failed := false, false;
    if |week| > 0 {
      var stats := ComputeStats(store, id, now, week);
      sent, failed := delivered, !delivered;
    }
  }

  lemma WithinRecipients(users: Social.Users, m: map<EntryId, Day>, now: int, delivered: UserId -> bool)
    ensures SentTo(users, m, now, delivered) <= Recipients(users)
    ensures FailedFor(users, m, now, delivered) <= Recipients(users)
  {
    assert Due(users, m, now) <= Recipients(users);
  }

  lemma WithinAll<T>(rest: set<T>, done: set<T>, a: set<T>, b: set<T>)
    requires rest == {} && done == a - rest && b <= a
    ensures done * b == b
  {
    assert done == a;
  }

  /** Whether a recipient is sent to, or failed, in terms of its entries and the mail service. */
  lemma DueIff(users: Social.Users, m: map<EntryId, Day>, now: int, delivered: UserId -> bool, id: UserId)
    requires id in Recipients(users)
    ensures id in SentTo(users, m, now, delivered) <==>
      Matching(m, id, Some(WeekStart(now)), None) != {} && delivered(id)
    ensures id in FailedFor(users, m, now, delivered) <==>
      Matching(m, id, Some(WeekStart(now)), None) != {} && !delivered(id)
  {
  }

  lemma GrowByOne<T>(s: set<T>, x: T)
    requires x !in s
    ensures |s + {x}| == |s| + 1
  {
  }

  lemma MoveOne<T>(done: set<T>, rest: set<T>, a: set<T>, x: T)
    requires rest <= a && done == a - rest && x in rest
    ensures rest - {x} <= a && done + {x} == a - (rest - {x}) && x !in done
  {
  }

  /** Counting one more element of a set's intersection with `s`. */
  lemma AddOne<T>(done: set<T>, x: T, s: set<T>)
    requires x !in done
    ensures (done + {x}) * s == (if x in s then done * s + {x} else done * s)
    ensures x !in done * s
  {
  }
}
