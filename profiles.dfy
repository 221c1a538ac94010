/**
 * getUserProfile of controllers/userController.js: a user's public page, looked up by
 * username, with the statistics of models/Day.js and the most recent entries.
 *
 * The public part of the user document (getPublicProfile) is reduced to the user's id and
 * username.
 */
module Profiles {
  import opened Base
  import Stats
  import opened Entries
  import Social

  /** How many recent entries the page shows (`.limit(5)`). */
  const RecentCount: nat := 5

  datatype Profile = Profile(
    user: UserId,
    username: string,
    streak: nat,
    weeklyAverage: real,
    totalEntries: nat,
    recentDays: seq<EntryId>)

  /** The first `n` entries of a newest-first list, or all of them when there are fewer. */
  function Newest(xs: seq<EntryId>, n: nat): (ys: seq<EntryId>)
    ensures |ys| == Min(n, |xs|) && ys <= xs
  {
    if |xs| <= n then xs else xs[..n]
  }

  /** The entries shown are `owner`'s, newest first, and no entry left out is newer than one
      shown: exactly the most recent ones. */
  lemma RecentAreNewest(m: map<EntryId, Day>, owner: UserId, n: nat)
    requires OneEntryPerDay(m)
    ensures var recent := Newest(History(m, owner), n);
      && |recent| == Min(n, |Matching(m, owner, None, None)|)
      && NewestFirst(m, recent)
      && Elems(recent) <= Matching(m, owner, None, None)
      && forall i, id :: 0 <= i < |recent| && id in Matching(m, owner, None, None) && id !in Elems(recent) ==>
           m[recent[i]].day > m[id].day
  {
    var h := History(m, owner);
    var recent := Newest(h, n);
    forall i | 0 <= i < |recent|
      ensures recent[i] in Elems(h)
    {
      ElemsAt(h, i);
    }
    forall i, id | 0 <= i < |recent| && id in Matching(m, owner, None, None) && id !in Elems(recent)
      ensures m[recent[i]].day > m[id].day
    {
      var j := IndexOfElem(h, id);
      if j < |recent| {
        ElemsAt(recent, j);
        assert false;
      }
    }
  }

  /** getUserProfile: the page of the user named `name`, or 404 when there is none. */
  method GetUserProfile(graph: Social.SocialGraph, store: EntryStore, name: string, now: int)
    returns (r: Result<Profile, Social.Error>)
    requires graph.Valid() && store.Valid()
    ensures Social.UserNamed(graph.users, name).None? ==> r == Failure(Social.UserNotFound)
    ensures Social.UserNamed(graph.users, name).Some? ==>
      var id := Social.UserNamed(graph.users, name).value;
      && r.Success?
      && r.value.user == id
      && r.value.username == name
      && r.value.streak == Stats.DifferenceStreak(DaysOf(store.entries, History(store.entries, id)))
      && r.value.weeklyAverage == Stats.Mean(ScoresOf(store.entries, LastWeek(store.entries, id, now)))
      && r.value.totalEntries == |Matching(store.entries, id, None, None)|
      && r.value.recentDays == Newest(History(store.entries, id), RecentCount)
    ensures r.Success? ==>
      && |r.value.recentDays| == Min(RecentCount, r.value.totalEntries)
      && r.value.streak <= r.value.totalEntries
      && (r.value.streak == 0 <==> r.value.totalEntries == 0)
      && (r.value.weeklyAverage == 0.0 || 1.0 <= r.value.weeklyAverage <= 10.0)
  {
    var found := graph.FindByUsername(name);
    if found.None? {
      return Failure(Social.UserNotFound);
    }
    var id := found.value;
    var all := store.Find(id, None, None);
    var recent := Newest(all, RecentCount);
    var streak := store.UserStreak(id);
    var weeklyAverage := store.WeeklyAverage(id, now);
    var total := |Matching(store.entries, id, None, None)|;
    r := Success(Profile(id, graph.users[id].username, streak, weeklyAverage, total, recent));
  }
}
