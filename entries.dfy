/**
 * The day-entry store: the Day schema of models/Day.js, its unique
 * (user, date) index, its two statistics, and the create / list / get /
 * update / delete handlers of controllers/dayController.js.
 *
 * A timestamp is an integer number of milliseconds; `DayOf` truncates it to
 * its day number, and a stored entry's date is midnight of that day.
 */
module Entries {
  import opened Base
  import opened Validators
  import Stats

  type UserId = int
  type EntryId = int

  const MsPerDay: int := 86_400_000

  // ---------------------------------------------------------------------------
  // Days and timestamps
  // ---------------------------------------------------------------------------

  /** The day a timestamp falls on: `setHours(0, 0, 0, 0)`. */
  function DayOf(t: int): int {
    t / MsPerDay
  }

  /** Midnight of day `d`, the date the store keeps. */
  function Midnight(d: int): int {
    d * MsPerDay
  }

  /** Truncation keeps exactly the timestamps of that day: a timestamp maps to day d if and only
      if it lies between midnight of d and midnight of the next day. */
  lemma DayOfIff(t: int, d: int)
    ensures DayOf(t) == d <==> Midnight(d) <= t < Midnight(d + 1)
  {
    var q := t / MsPerDay;
    assert Midnight(q) <= t < Midnight(q + 1);
  }

  /** Two timestamps of the same day collide on the store's key. */
  lemma SameDaySameKey(t1: int, t2: int, d: int)
    requires Midnight(d) <= t1 < Midnight(d + 1) && Midnight(d) <= t2 < Midnight(d + 1)
    ensures DayOf(t1) == DayOf(t2) == d
  {
    DayOfIff(t1, d);
    DayOfIff(t2, d);
  }

  // ---------------------------------------------------------------------------
  // Entries
  // ---------------------------------------------------------------------------

  /** A stored day entry; `day` is the entry's date as a day number. */
  datatype Day = Day(owner: UserId, day: int, score: int, high: string, low: string)

  /** The length of a text as the schema's `maxlength` measures it: in UTF-16 code units, so a
      character beyond U+FFFF counts twice. */
  function Utf16Length(s: string): (n: nat)
    ensures |s| <= n <= 2 * |s|
  {
    if s == [] then 0 else (if s[0] >= '\U{10000}' then 2 else 1) + Utf16Length(s[1..])
  }

  /** A text made only of characters beyond U+FFFF is twice as long in code units. */
  lemma {:induction false} AstralUnits(s: string)
    requires forall i :: 0 <= i < |s| ==> s[i] >= '\U{10000}'
    ensures Utf16Length(s) == 2 * |s|
  {
    if s != [] {
      AstralUnits(s[1..]);
    }
  }

  /** The schema: a score from 1 to 10, and a high and a low that are present after the schema's
      own trim and at most 500 UTF-16 code units long. */
  predicate SchemaValid(d: Day) {
    && 1 <= d.score <= 10
    && |d.high| > 0 && Utf16Length(d.high) <= 500
    && |d.low| > 0 && Utf16Length(d.low) <= 500
  }

  /** What every stored entry satisfies: the schema, with its text fields already trimmed. */
  predicate WellFormed(d: Day) {
    SchemaValid(d) && IsTrimmed(d.high) && IsTrimmed(d.low)
  }

  /** The unique index on (user, date): no two entries share an owner and a day. */
  predicate OneEntryPerDay(m: map<EntryId, Day>) {
    forall i, j :: i in m && j in m && m[i].owner == m[j].owner && m[i].day == m[j].day ==> i == j
  }

  predicate HasEntryOn(m: map<EntryId, Day>, owner: UserId, day: int) {
    exists id :: id in m && m[id].owner == owner && m[id].day == day
  }

  datatype Error =
    | ValidationFailed   // 400, the rule set rejected the request
    | AlreadyExists      // 400, "You already have an entry for this day"
    | NotFound           // 404, "Day entry not found"
    | NotAuthorized      // 401, the entry belongs to someone else
    | SchemaRejected     // the schema refused the document on save
    | NegativeSkip       // the database refuses a negative skip

  /** The entry createDay builds: the caller as owner, the date truncated to its day, the score as
      the schema casts it, and high and low as both trims leave them. */
  function NewDay(caller: UserId, req: CreateDayRequest): (d: Day)
    requires CreateDayValid(req)
    ensures d.owner == caller && d.day == DayOf(req.date.value)
    ensures 1 <= d.score <= 10 && d.score == IntValue(req.score.value)
    ensures d.high == Trim(req.high.value) && d.low == Trim(req.low.value)
    ensures |d.high| <= 500 && |d.low| <= 500
  {
    // the rule chain trims, and the schema trims again; the second trim changes nothing (TrimIdempotent)
    Day(caller, DayOf(req.date.value), IntValue(req.score.value), Trim(req.high.value), Trim(req.low.value))
  }

  /** Whether the schema accepts what validation let through depends only on high and low: a text
      of blanks passes the rule chain but trims to nothing, and a text the rule chain measures at
      500 characters or fewer may still exceed 500 code units. */
  lemma CreateSchemaIff(caller: UserId, req: CreateDayRequest)
    requires CreateDayValid(req)
    ensures SchemaValid(NewDay(caller, req)) <==>
      && !AllSpaces(req.high.value) && Utf16Length(Trim(req.high.value)) <= 500
      && !AllSpaces(req.low.value) && Utf16Length(Trim(req.low.value)) <= 500
  {
    TrimEmptyIff(req.high.value);
    TrimEmptyIff(req.low.value);
  }

  /** A high point of 300 emoji passes the rule chain, which counts 300 characters, and the schema
      refuses it, since it counts 600 code units. */
  lemma AstralPointRefused(caller: UserId)
    ensures var req := CreateDayRequest(Some(0), Some("5"), Some(seq(300, _ => '\U{1F600}')), Some("ok"));
      CreateDayValid(req) && !SchemaValid(NewDay(caller, req))
  {
    var high := seq(300, _ => '\U{1F600}');
    assert high[0] == high[299] == '\U{1F600}';
    assert !IsSpace('\U{1F600}');
    TrimmedIff(high);
    AstralUnits(high);
    assert Trim(high) == high && Utf16Length(high) == 600;
    TrimmedIff("ok");
    ScoreTextRoundTrip(5);
    assert DecimalText(5) == "5";
  }

  /** The fields updateDay overwrites: only those present in the request. */
  function Updated(d: Day, req: UpdateDayRequest): (e: Day)
    requires UpdateDayValid(req)
    ensures e.owner == d.owner && e.day == d.day
    ensures req.score.None? ==> e.score == d.score
    ensures req.high.None? ==> e.high == d.high
    ensures req.low.None? ==> e.low == d.low
    ensures req.score.Some? ==> 1 <= e.score <= 10 && e.score == IntValue(req.score.value)
    ensures req.high.Some? ==> |e.high| <= 500 && e.high == Trim(req.high.value)
    ensures req.low.Some? ==> |e.low| <= 500 && e.low == Trim(req.low.value)
  {
    d.(score := if req.score.Some? then IntValue(req.score.value) else d.score,
       high := if req.high.Some? then Trim(req.high.value) else d.high,
       low := if req.low.Some? then Trim(req.low.value) else d.low)
  }

  /** An update that passes the schema keeps an entry well formed, and an empty update is no change. */
  lemma UpdatedWellFormed(d: Day, req: UpdateDayRequest)
    requires WellFormed(d) && UpdateDayValid(req) && SchemaValid(Updated(d, req))
    ensures WellFormed(Updated(d, req))
    ensures req == UpdateDayRequest(None, None, None) ==> Updated(d, req) == d
  {
    if req.high.Some? { TrimIsTrimmed(req.high.value); }
    if req.low.Some? { TrimIsTrimmed(req.low.value); }
  }

  /** What createDay stores is well formed once the schema accepts it. */
  lemma NewDayWellFormed(caller: UserId, req: CreateDayRequest)
    requires CreateDayValid(req) && SchemaValid(NewDay(caller, req))
    ensures WellFormed(NewDay(caller, req))
  {
    TrimIsTrimmed(req.high.value);
    TrimIsTrimmed(req.low.value);
  }

  /** What the store keeps: ids below the next fresh one, well-formed entries, the unique index. */
  predicate StoreInvariant(m: map<EntryId, Day>, nextId: EntryId) {
    && (forall id :: id in m ==> id < nextId && WellFormed(m[id]))
    && OneEntryPerDay(m)
  }

  /** Adding a well-formed entry under the fresh id, for a day its owner has no entry on, keeps
      the invariant. */
  lemma AddKeepsInvariant(m: map<EntryId, Day>, nextId: EntryId, d: Day)
    requires StoreInvariant(m, nextId) && WellFormed(d) && !HasEntryOn(m, d.owner, d.day)
    ensures nextId !in m && StoreInvariant(m[nextId := d], nextId + 1)
  {
  }

  // ---------------------------------------------------------------------------
  // Newest-first order
  // ---------------------------------------------------------------------------

  /** `xs` lists entries of `m` with strictly decreasing dates. */
  predicate NewestFirst(m: map<EntryId, Day>, xs: seq<EntryId>) {
    && (forall i :: 0 <= i < |xs| ==> xs[i] in m)
    && (forall i, j :: 0 <= i < j < |xs| ==> m[xs[i]].day > m[xs[j]].day)
  }

  /** No two entries of `s` share a date. */
  predicate DistinctDays(m: map<EntryId, Day>, s: set<EntryId>)
    requires s <= m.Keys
  {
    forall i, j :: i in s && j in s && i != j ==> m[i].day != m[j].day
  }

  /** Puts `k` into a newest-first list at its place. */
  function Insert(m: map<EntryId, Day>, xs: seq<EntryId>, k: EntryId): (ys: seq<EntryId>)
    requires k in m && forall i :: 0 <= i < |xs| ==> xs[i] in m
    ensures Elems(ys) == Elems(xs) + {k} && |ys| == |xs| + 1
    ensures forall i :: 0 <= i < |ys| ==> ys[i] in m
  {
    if xs == [] then [k]
    else if m[k].day > m[xs[0]].day then ElemsAppend([k], xs); [k] + xs
    else
      assert xs == [xs[0]] + xs[1..];
      ElemsAppend([xs[0]], xs[1..]);
      ElemsAppend([xs[0]], Insert(m, xs[1..], k));
      [xs[0]] + Insert(m, xs[1..], k)
  }

  lemma {:induction false} InsertNewestFirst(m: map<EntryId, Day>, xs: seq<EntryId>, k: EntryId)
    requires k in m && NewestFirst(m, xs)
    requires forall i :: 0 <= i < |xs| ==> m[xs[i]].day != m[k].day
    ensures NewestFirst(m, Insert(m, xs, k))
  {
    if xs != [] && m[k].day <= m[xs[0]].day {
      var tail := xs[1..];
      assert NewestFirst(m, tail) by {
        forall i, j | 0 <= i < j < |tail| ensures m[tail[i]].day > m[tail[j]].day {
          assert tail[i] == xs[i + 1] && tail[j] == xs[j + 1];
        }
      }
      InsertNewestFirst(m, tail, k);
      var ys := Insert(m, tail, k);
      var zs := [xs[0]] + ys;
      forall j | 0 <= j < |ys| ensures m[xs[0]].day > m[ys[j]].day {
        assert ys[j] in Elems(tail) + {k};
        if ys[j] != k {
          var i :| 0 <= i < |tail| && tail[i] == ys[j];
          assert tail[i] == xs[i + 1];
        }
      }
      forall i, j | 0 <= i < j < |zs| ensures m[zs[i]].day > m[zs[j]].day {
        if i == 0 {
          assert zs[j] == ys[j - 1];
        } else {
          assert zs[i] == ys[i - 1] && zs[j] == ys[j - 1];
        }
      }
    }
  }

  /** The tail of a newest-first list is newest first, and below its head. */
  lemma NewestFirstTail(m: map<EntryId, Day>, xs: seq<EntryId>)
    requires NewestFirst(m, xs) && xs != []
    ensures NewestFirst(m, xs[1..])
    ensures xs[0] !in Elems(xs[1..])
    ensures Elems(xs) == {xs[0]} + Elems(xs[1..])
  {
    var tail := xs[1..];
    forall i, j | 0 <= i < j < |tail| ensures m[tail[i]].day > m[tail[j]].day {
      assert tail[i] == xs[i + 1] && tail[j] == xs[j + 1];
    }
    if xs[0] in Elems(tail) {
      assert false;
    }
    assert xs == [xs[0]] + tail;
    ElemsAppend([xs[0]], tail);
  }

  /** A newest-first list has no repeated id, so it is exactly as long as its set of ids. */
  lemma {:induction false} NewestFirstLength(m: map<EntryId, Day>, xs: seq<EntryId>)
    requires NewestFirst(m, xs)
    ensures |Elems(xs)| == |xs|
  {
    if xs != [] {
      NewestFirstTail(m, xs);
      NewestFirstLength(m, xs[1..]);
    }
  }

  /** The listing order is determined: two newest-first lists of the same entries are equal.
      So listing twice, with no write in between, gives the same answer. */
  lemma {:induction false} NewestFirstUnique(m: map<EntryId, Day>, xs: seq<EntryId>, ys: seq<EntryId>)
    requires NewestFirst(m, xs) && NewestFirst(m, ys) && Elems(xs) == Elems(ys)
    ensures xs == ys
    decreases |xs|
  {
    if xs == [] {
      if ys != [] { ElemsAt(ys, 0); }
    } else {
      ElemsAt(xs, 0);
      assert ys != [];
      ElemsAt(ys, 0);
      if xs[0] != ys[0] {
        assert false;
      }
      NewestFirstTail(m, xs);
      NewestFirstTail(m, ys);
      assert Elems(xs[1..]) == Elems(ys[1..]);
      NewestFirstUnique(m, xs[1..], ys[1..]);
      assert xs == [xs[0]] + xs[1..] && ys == [ys[0]] + ys[1..];
    }
  }

  lemma {:induction false} NewestFirstExists(m: map<EntryId, Day>, s: set<EntryId>)
    requires s <= m.Keys && DistinctDays(m, s)
    ensures exists xs :: NewestFirst(m, xs) && Elems(xs) == s
    decreases s
  {
    if s == {} {
      var none: seq<EntryId> := [];
      assert NewestFirst(m, none) && Elems(none) == s;
    } else {
      var k := Pick(s);
      NewestFirstExists(m, s - {k});
      var xs :| NewestFirst(m, xs) && Elems(xs) == s - {k};
      forall i | 0 <= i < |xs| ensures m[xs[i]].day != m[k].day {
        ElemsAt(xs, i);
        assert xs[i] in s && xs[i] != k;
      }
      InsertNewestFirst(m, xs, k);
      assert NewestFirst(m, Insert(m, xs, k)) && Elems(Insert(m, xs, k)) == s;
    }
  }

  /** The entries of `s`, newest first. */
  ghost function Ordered(m: map<EntryId, Day>, s: set<EntryId>): (xs: seq<EntryId>)
    requires s <= m.Keys && DistinctDays(m, s)
    ensures NewestFirst(m, xs) && Elems(xs) == s && |xs| == |s|
  {
    NewestFirstExists(m, s);
    var xs :| NewestFirst(m, xs) && Elems(xs) == s;
    NewestFirstLength(m, xs);
    xs
  }

  // ---------------------------------------------------------------------------
  // Queries
  // ---------------------------------------------------------------------------

  /** The query filter `{ user: owner, date: { $gte: start, $lte: end } }`, each bound optional. */
  predicate Matches(d: Day, owner: UserId, start: Option<int>, end: Option<int>) {
    && d.owner == owner
    && (start.Some? ==> Midnight(d.day) >= start.value)
    && (end.Some? ==> Midnight(d.day) <= end.value)
  }

  function Matching(m: map<EntryId, Day>, owner: UserId, start: Option<int>, end: Option<int>): (s: set<EntryId>)
    ensures s <= m.Keys
    ensures forall id :: id in s <==> id in m && Matches(m[id], owner, start, end)
  {
    set id | id in m && Matches(m[id], owner, start, end)
  }

  /** One owner's entries never share a date. */
  lemma MatchingDistinct(m: map<EntryId, Day>, owner: UserId, start: Option<int>, end: Option<int>)
    requires OneEntryPerDay(m)
    ensures DistinctDays(m, Matching(m, owner, start, end))
  {
  }

  /** The query's result, newest first. */
  ghost function Query(m: map<EntryId, Day>, owner: UserId, start: Option<int>, end: Option<int>): seq<EntryId>
    requires OneEntryPerDay(m)
  {
    MatchingDistinct(m, owner, start, end);
    Ordered(m, Matching(m, owner, start, end))
  }

  /** Everything `owner` has recorded, newest first. */
  ghost function History(m: map<EntryId, Day>, owner: UserId): seq<EntryId>
    requires OneEntryPerDay(m)
  {
    Query(m, owner, None, None)
  }

  /** One week before `now` (`setDate(getDate() - 7)`). */
  function WeekStart(now: int): int {
    now - 7 * MsPerDay
  }

  /** The entries of the last week: date at or after one week before now. */
  ghost function LastWeek(m: map<EntryId, Day>, owner: UserId, now: int): seq<EntryId>
    requires OneEntryPerDay(m)
  {
    Query(m, owner, Some(WeekStart(now)), None)
  }

  function DaysOf(m: map<EntryId, Day>, ids: seq<EntryId>): (ds: seq<int>)
    requires forall i :: 0 <= i < |ids| ==> ids[i] in m
    ensures |ds| == |ids| && forall i :: 0 <= i < |ids| ==> ds[i] == m[ids[i]].day
  {
    if ids == [] then [] else [m[ids[0]].day] + DaysOf(m, ids[1..])
  }

  function ScoresOf(m: map<EntryId, Day>, ids: seq<EntryId>): (ss: seq<int>)
    requires forall i :: 0 <= i < |ids| ==> ids[i] in m
    ensures |ss| == |ids| && forall i :: 0 <= i < |ids| ==> ss[i] == m[ids[i]].score
  {
    if ids == [] then [] else [m[ids[0]].score] + ScoresOf(m, ids[1..])
  }

  /** A newest-first list has strictly decreasing dates, so both streak loops agree on it. */
  lemma StreaksAgreeOnQuery(m: map<EntryId, Day>, ids: seq<EntryId>)
    requires NewestFirst(m, ids)
    ensures Stats.DifferenceStreak(DaysOf(m, ids)) == Stats.PreviousDateStreak(DaysOf(m, ids))
  {
    var ds := DaysOf(m, ids);
    assert forall k :: 0 < k < |ds| ==> ds[k] <= ds[k - 1];
    Stats.StreaksAgree(ds);
  }

  /** Stored scores lie in 1..10, so their mean lies in [1, 10] when there is any. */
  lemma MeanOfStored(m: map<EntryId, Day>, ids: seq<EntryId>)
    requires forall id :: id in m ==> WellFormed(m[id])
    requires forall i :: 0 <= i < |ids| ==> ids[i] in m
    ensures Stats.AllWithin(ScoresOf(m, ids), 1, 10)
    ensures ids == [] ==> Stats.Mean(ScoresOf(m, ids)) == 0.0
    ensures ids != [] ==> 1.0 <= Stats.Mean(ScoresOf(m, ids)) <= 10.0
    ensures ids != [] ==> 10 <= Stats.AverageTenths(ScoresOf(m, ids)) <= 100
  {
    var ss := ScoresOf(m, ids);
    forall i | 0 <= i < |ss| ensures 1 <= ss[i] <= 10 {
      var id := ids[i];
      assert id in m;
      assert WellFormed(m[id]);
    }
    if ids != [] {
      Stats.MeanWithin(ss, 1, 10);
      Stats.TenthsWithin(ss);
    }
  }

  /** A newest-first list whose dates lie within `lo..hi` has at most one entry per day there. */
  lemma {:induction false} NewestFirstSpan(m: map<EntryId, Day>, xs: seq<EntryId>, lo: int, hi: int)
    requires NewestFirst(m, xs)
    requires forall i :: 0 <= i < |xs| ==> lo <= m[xs[i]].day <= hi
    ensures xs != [] ==> |xs| <= hi - lo + 1
    decreases |xs|
  {
    if xs != [] {
      NewestFirstTail(m, xs);
      var tail := xs[1..];
      forall i | 0 <= i < |tail| ensures lo <= m[tail[i]].day <= m[xs[0]].day - 1 {
        assert tail[i] == xs[i + 1];
      }
      NewestFirstSpan(m, tail, lo, m[xs[0]].day - 1);
    }
  }

  /** The dates from one week before `now` up to `now` fall on at most eight days, so there are at
      most eight such entries. */
  lemma WeekHoldsAtMostEight(m: map<EntryId, Day>, owner: UserId, now: int)
    requires OneEntryPerDay(m)
    ensures |Query(m, owner, Some(WeekStart(now)), Some(now))| <= 8
  {
    var xs := Query(m, owner, Some(WeekStart(now)), Some(now));
    var q := DayOf(now);
    forall i | 0 <= i < |xs| ensures q - 7 <= m[xs[i]].day <= q {
      ElemsAt(xs, i);
      var d := m[xs[i]].day;
      assert WeekStart(now) <= Midnight(d) <= now;
      DayOfIff(now, q);
      if d > q {
        assert false;
      }
      if d < q - 7 {
        assert false;
      }
    }
    NewestFirstSpan(m, xs, q - 7, q);
  }

  /** sendUserRecap counts the entries of the last week; when none is dated after `now` that
      count is at most eight. */
  lemma LastWeekAtMostEight(m: map<EntryId, Day>, owner: UserId, now: int)
    requires OneEntryPerDay(m)
    requires forall id :: id in m && m[id].owner == owner ==> Midnight(m[id].day) <= now
    ensures |LastWeek(m, owner, now)| <= 8
  {
    var week := Matching(m, owner, Some(WeekStart(now)), None);
    var bounded := Matching(m, owner, Some(WeekStart(now)), Some(now));
    forall id ensures id in week <==> id in bounded {
    }
    assert week == bounded;
    WeekHoldsAtMostEight(m, owner, now);
  }

  // ---------------------------------------------------------------------------
  // Paging
  // ---------------------------------------------------------------------------

  /** A listing request: optional inclusive bounds, and `limit` and `page` as parsed
      (30 and 1 when absent). */
  datatype ListQuery = ListQuery(start: Option<int>, end: Option<int>, limit: Option<int>, page: Option<int>)

  /** `count`, `pagination.total`, `pagination.page`, `pagination.pages` and `data` of the response.
      `pages` is None where `Math.ceil(total / limit)` is not a finite number (a zero limit). */
  datatype Listing = Listing(ids: seq<EntryId>, total: nat, page: int, pages: Option<int>)

  /** `Math.ceil(a / b)` for a non-zero divisor. */
  function CeilDiv(a: int, b: int): (q: int)
    requires b != 0
    ensures b > 0 ==> (q - 1) * b < a <= q * b
    ensures b < 0 ==> q * b <= a < (q - 1) * b
  {
    if b > 0 then -((-a) / b) else -(a / (-b))
  }

  /** The slice `skip(skip).limit(limit)` takes of `n` results: a zero limit means no limit, a
      negative limit is taken by its size. */
  function Window(n: nat, skip: nat, limit: int): (r: (nat, nat))
    ensures r.0 <= r.1 <= n
    ensures r.0 == Min(skip, n)
    ensures limit == 0 ==> r.1 == n
    ensures limit != 0 ==> r.1 - r.0 == Min(Abs(limit), n - r.0)
  {
    var lo := Min(skip, n);
    (lo, if limit == 0 then n else lo + Min(Abs(limit), n - lo))
  }

  // ---------------------------------------------------------------------------
  // The store
  // ---------------------------------------------------------------------------

  class EntryStore {
    var entries: map<EntryId, Day>
    /** ids are never reused; every stored id is below this one */
    var nextId: EntryId

    ghost predicate Valid()
      reads this
    {
      StoreInvariant(entries, nextId)
    }

    constructor ()
      ensures Valid() && entries == map[]
    {
      entries := map[];
      nextId := 0;
    }

    /** `Day.findOne({ user: owner, date: midnight })`. */
    method HasEntry(owner: UserId, day: int) returns (found: bool)
      ensures found == HasEntryOn(entries, owner, day)
    {
      var rest := entries.Keys;
      found := false;
      while rest != {}
        invariant rest <= entries.Keys
        invariant found == exists id :: id in entries.Keys - rest && entries[id].owner == owner && entries[id].day == day
        decreases rest
      {
        ghost var some := Pick(rest);
        var id :| id in rest;
        if entries[id].owner == owner && entries[id].day == day {
          found := true;
        }
        rest := rest - {id};
      }
    }

    /** `Day.find(filter).sort({ date: -1 })`: the matching ids, newest first. */
    method Find(owner: UserId, start: Option<int>, end: Option<int>) returns (ids: seq<EntryId>)
      requires Valid()
      ensures ids == Query(entries, owner, start, end)
    {
      var rest := entries.Keys;
      ids := [];
      while rest != {}
        invariant rest <= entries.Keys
        invariant NewestFirst(entries, ids)
        invariant Elems(ids) == Matching(entries, owner, start, end) - rest
        decreases rest
      {
        ghost var some := Pick(rest);
        var k :| k in rest;
        if Matches(entries[k], owner, start, end) {
          forall i | 0 <= i < |ids| ensures entries[ids[i]].day != entries[k].day {
            ElemsAt(ids, i);
            assert ids[i] in entries && ids[i] != k && entries[ids[i]].owner == entries[k].owner;
          }
          InsertNewestFirst(entries, ids, k);
          ids := Insert(entries, ids, k);
        }
        rest := rest - {k};
      }
      MatchingDistinct(entries, owner, start, end);
      NewestFirstUnique(entries, ids, Query(entries, owner, start, end));
    }

    /** createDay: validate, truncate the date, refuse a second entry for the same day, let the
        schema check the document, then store it under a fresh id. */
    method Create(caller: UserId, req: CreateDayRequest) returns (r: Result<EntryId, Error>)
      requires Valid()
      modifies this
      ensures Valid()
      ensures !CreateDayValid(req) ==> r == Failure(ValidationFailed)
      ensures CreateDayValid(req) && HasEntryOn(old(entries), caller, DayOf(req.date.value)) ==>
        r == Failure(AlreadyExists)
      ensures CreateDayValid(req) && !HasEntryOn(old(entries), caller, DayOf(req.date.value)) ==>
        r == (if SchemaValid(NewDay(caller, req)) then Success(old(nextId)) else Failure(SchemaRejected))
      ensures r.Failure? ==> entries == old(entries) && nextId == old(nextId)
      ensures r.Success? ==> r.value !in old(entries) && entries == old(entries)[r.value := NewDay(caller, req)]
    {
      if !CreateDayValid(req) {
        return Failure(ValidationFailed);
      }
      var day := DayOf(req.date.value);
      var taken := HasEntry(caller, day);
      if taken {
        return Failure(AlreadyExists);
      }
      var d := NewDay(caller, req);
      if !SchemaValid(d) {
        return Failure(SchemaRejected);
      }
      NewDayWellFormed(caller, req);
      var id := Save(d);
      r := Success(id);
    }

    /** `day.save()` of a new entry: store a well-formed entry, for a day its owner has no entry
        on, under the next fresh id. */
    method Save(d: Day) returns (id: EntryId)
      requires Valid() && WellFormed(d) && !HasEntryOn(entries, d.owner, d.day)
      modifies this
      ensures Valid()
      ensures id == old(nextId) && id !in old(entries) && nextId == id + 1
      ensures entries == old(entries)[id := d]
    {
      AddKeepsInvariant(entries, nextId, d);
      id := nextId;
      entries := entries[id := d];
      nextId := nextId + 1;
    }

    /** The lookup and ownership check shared by get, update and delete. */
    method Access(caller: UserId, id: EntryId) returns (r: Result<Day, Error>)
      ensures id !in entries ==> r == Failure(NotFound)
      ensures id in entries && entries[id].owner != caller ==> r == Failure(NotAuthorized)
      ensures id in entries && entries[id].owner == caller ==> r == Success(entries[id])
    {
      if id !in entries {
        return Failure(NotFound);
      }
      if entries[id].owner != caller {
        return Failure(NotAuthorized);
      }
      return Success(entries[id]);
    }

    /** getDay: the entry, to its owner only. */
    method Get(caller: UserId, id: EntryId) returns (r: Result<Day, Error>)
      ensures r.Success? <==> id in entries && entries[id].owner == caller
      ensures r.Success? ==> r.value == entries[id]
      ensures r == Failure(NotFound) <==> id !in entries
      ensures r == Failure(NotAuthorized) <==> id in entries && entries[id].owner != caller
    {
      r := Access(caller, id);
    }

    /** getDays: the caller's entries within the bounds, newest first, one page of them, with the
        number of all matches and the number of pages. */
    method List(caller: UserId, q: ListQuery) returns (r: Result<Listing, Error>)
      requires Valid()
      ensures var page := q.page.GetOr(1); var limit := q.limit.GetOr(30);
        var skip := (page - 1) * limit;
        var all := Query(entries, caller, q.start, q.end);
        && (skip < 0 ==> r == Failure(NegativeSkip))
        && (skip >= 0 ==>
             && r.Success?
             && r.value.ids == all[Window(|all|, skip, limit).0..Window(|all|, skip, limit).1]
             && r.value.total == |Matching(entries, caller, q.start, q.end)|
             && r.value.page == page
             && r.value.pages == (if limit == 0 then None else Some(CeilDiv(r.value.total, limit))))
    {
      var page := q.page.GetOr(1);
      var limit := q.limit.GetOr(30);
      var skip := (page - 1) * limit;
      if skip < 0 {
        return Failure(NegativeSkip);
      }
      var all := Find(caller, q.start, q.end);
      var w := Window(|all|, skip, limit);
      var total := |all|;
      var pages := if limit == 0 then None else Some(CeilDiv(total, limit));
      r := Success(Listing(all[w.0..w.1], total, page, pages));
    }

    /** updateDay: validate, check the owner, overwrite the fields present, let the schema check. */
    method Update(caller: UserId, id: EntryId, req: UpdateDayRequest) returns (r: Result<Day, Error>)
      requires Valid()
      modifies this
      ensures Valid() && nextId == old(nextId)
      ensures !UpdateDayValid(req) ==> r == Failure(ValidationFailed)
      ensures UpdateDayValid(req) && id !in old(entries) ==> r == Failure(NotFound)
      ensures UpdateDayValid(req) && id in old(entries) && old(entries)[id].owner != caller ==>
        r == Failure(NotAuthorized)
      ensures UpdateDayValid(req) && id in old(entries) && old(entries)[id].owner == caller ==>
        r == (if SchemaValid(Updated(old(entries)[id], req)) then Success(Updated(old(entries)[id], req))
              else Failure(SchemaRejected))
      ensures r.Failure? ==> entries == old(entries)
      ensures r.Success? ==> entries == old(entries)[id := r.value]
    {
      if !UpdateDayValid(req) {
        return Failure(ValidationFailed);
      }
      var found := Access(caller, id);
      if found.Failure? {
        return Failure(found.error);
      }
      var d := Updated(found.value, req);
      if !SchemaValid(d) {
        return Failure(SchemaRejected);
      }
      UpdatedWellFormed(found.value, req);
      entries := entries[id := d];
      r := Success(d);
    }

    /** deleteDay: check the owner, then remove that one entry. */
    method Delete(caller: UserId, id: EntryId) returns (r: Outcome<Error>)
      requires Valid()
      modifies this
      ensures Valid() && nextId == old(nextId)
      ensures id !in old(entries) ==> r == Failed(NotFound)
      ensures id in old(entries) && old(entries)[id].owner != caller ==> r == Failed(NotAuthorized)
      ensures id in old(entries) && old(entries)[id].owner == caller ==> r == Done
      ensures r.Failed? ==> entries == old(entries)
      ensures r.Done? ==> entries == old(entries) - {id}
    {
      var found := Access(caller, id);
      if found.Failure? {
        return Failed(found.error);
      }
      entries := entries - {id};
      r := Done;
    }

    /** getUserStreak: how many consecutive days, going back from the newest entry, have an entry. */
    method UserStreak(owner: UserId) returns (streak: nat)
      requires Valid()
      ensures streak == Stats.DifferenceStreak(DaysOf(entries, History(entries, owner)))
      ensures streak == Stats.PreviousDateStreak(DaysOf(entries, History(entries, owner)))
      ensures streak == 0 <==> Matching(entries, owner, None, None) == {}
      ensures streak <= |Matching(entries, owner, None, None)|
    {
      var ids := Find(owner, None, None);
      var days := DaysOf(entries, ids);
      streak := Stats.CountDifferenceStreak(days);
      StreaksAgreeOnQuery(entries, ids);
      Stats.PreviousDateStreakShape(days);
    }

    /** getWeeklyAverage: the mean score of the entries of the last week, 0 when there are none. */
    method WeeklyAverage(owner: UserId, now: int) returns (average: real)
      requires Valid()
      ensures average == Stats.Mean(ScoresOf(entries, LastWeek(entries, owner, now)))
      ensures Matching(entries, owner, Some(WeekStart(now)), None) == {} ==> average == 0.0
      ensures Matching(entries, owner, Some(WeekStart(now)), None) != {} ==> 1.0 <= average <= 10.0
    {
      var ids := Find(owner, Some(WeekStart(now)), None);
      var scores := ScoresOf(entries, ids);
      average := Stats.Mean(scores);
      MeanOfStored(entries, ids);
    }
  }
}
