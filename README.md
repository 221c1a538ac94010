# HandL core, modelled in Dafny

HandL is a journal service. Each user records one entry per calendar day: a
mood score from 1 to 10, a "high" and a "low". The service derives two
statistics from a user's entries, the current streak of consecutive days and
the weekly average score. Users can also send friend requests, accept or
reject them, and remove friends. This project models that core and proves
its properties:

- `base.dfy` (module `Base`): `Option`, `Result` and `Outcome`, plus a few
  small helpers on sets and sequences.
- `validators.dfy` (module `Validators`): the request rule sets of
  `middleware/validators.js`, one predicate per rule chain. It also
  models `trim()` and the integer-text check.
- `stats.dfy` (module `Stats`): the two current-streak loops and the
  arithmetic mean. One loop is `getUserStreak` in `models/Day.js`; the other
  is `calculateStreak` in `controllers/emailController.js`. The mean is also
  given rounded to tenths, as `calculateAverageScore` reports it.
- `entries.dfy` (module `Entries`): the `Day` schema and its unique
  (user, date) index. The class `EntryStore` holds a map from entry id to
  entry. Its methods are the create, list, get, update and delete handlers
  of `controllers/dayController.js`, plus the two statistics of
  `models/Day.js`.
- `social.dfy` (module `Social`): the friend graph of
  `controllers/userController.js`. Each handler is first a function from
  users to users, with lemmas about it. The class `SocialGraph` then
  performs the steps in place and is proved equal to those functions.
  Removal and the listings follow the handlers as written. Responding
  follows the corrected `Respond`, which pushes a friend only when it is
  not already listed (see "## Findings").
- `recaps.dfy` (module `Recaps`): the recap logic of `sendUserRecap` and
  `sendAllRecaps`. It covers who gets a recap, the statistics it reports,
  and the sent/failed tally.
- `profiles.dfy` (module `Profiles`): `getUserProfile`.

Days are integer day numbers. A timestamp is an integer count of
milliseconds. `DayOf` truncates a timestamp to its day, and a stored entry's
date is midnight of that day. So "the day before" is `d - 1`.

Some behaviour of the code worth stating:

- `sendFriendRequest` reports a missing user before a request to oneself.
- Accepting a request is two separate saves, with no transaction. The
  requester is saved first. The current user is saved last, from the copy
  that was loaded before that.
- `getWeeklyAverage` returns the exact mean. Only the recap rounds to one
  decimal place.
- A repeated day stops the streak walk. It does not raise an error.

## Model

| member | source | states |
|---|---|---|
| `Validators.IsSpace` | middleware/validators.js:8 | the white space `trim()` strips: the characters of JavaScript's `\s` class |
| `Validators.Trim` | middleware/validators.js:8 | the `trim()` sanitizer: white space cut from both ends |
| `Validators.IsIntText` | middleware/validators.js:103 | the texts `isInt` reads as integers: an optional sign, then one or more digits, leading zeros allowed |
| `Validators.IntValue` | middleware/validators.js:103 | the integer such a text denotes, which is also what the schema's Number cast stores |
| `Validators.IsScoreText` | middleware/validators.js:103 | `isInt({ min: 1, max: 10 })` |
| `Validators.MatchesPhone` | middleware/validators.js:39 | the pattern `^\+?[1-9]\d{9,14}$` |
| `Validators.ValidUsername` | middleware/validators.js:7-15 | username: trim, not empty, 3 to 20 characters of `[a-zA-Z0-9_]` |
| `Validators.ValidRequiredName` | middleware/validators.js:17-23 | name on registration: trim, not empty, at most 50 characters |
| `Validators.ValidRequiredPhone` | middleware/validators.js:34-40 | phone number on registration: trim, not empty, the phone pattern |
| `Validators.ValidNewPassword` | middleware/validators.js:42-48 | password on registration: trim, not empty, at least 6 characters |
| `Validators.ValidLoginPassword` | middleware/validators.js:64-68 | password on login: trim, not empty |
| `Validators.ValidOptionalName` | middleware/validators.js:75-79 | name on profile update: absent, or at most 50 characters once trimmed |
| `Validators.ValidOptionalPhone` | middleware/validators.js:81-85 | phone number on profile update: absent, or the phone pattern once trimmed |
| `Validators.ValidRequiredScore` | middleware/validators.js:99-104 | score on create: not empty, then the score rule |
| `Validators.ValidRequiredPoint` | middleware/validators.js:106-120 | high or low on create: not empty before the trim, then at most 500 characters once trimmed |
| `Validators.ValidOptionalScore` | middleware/validators.js:127-130 | score on update: absent, or the score rule |
| `Validators.ValidOptionalPoint` | middleware/validators.js:132-142 | high or low on update: absent, or at most 500 characters once trimmed |
| `Validators.ValidAction` | middleware/validators.js:149-151 | action: one of "accept" and "reject" |
| `Validators.RegisterValid` | middleware/validators.js:6-49 | the registration rule set, apart from the e-mail rule |
| `Validators.LoginValid` | middleware/validators.js:54-69 | the login rule set, apart from the e-mail rule |
| `Validators.ProfileUpdateValid` | middleware/validators.js:74-86 | the profile-update rule set |
| `Validators.CreateDayValid` | middleware/validators.js:91-121 | the create-day rule set, the date taken as already parsed |
| `Validators.UpdateDayValid` | middleware/validators.js:126-143 | the update-day rule set |
| `Validators.FriendRequestResponseValid` | middleware/validators.js:148-151 | the friend-request response rule set |
| `Validators.TrimIsInnerSlice` | middleware/validators.js:8 | trim returns a slice of its input, with only white space cut before and after it |
| `Validators.TrimIsTrimmed` | middleware/validators.js:8 | the trimmed text neither starts nor ends with white space |
| `Validators.TrimmedIff` | models/Day.js:23 | trimming leaves a text unchanged exactly when it has no white space at either end |
| `Validators.TrimIdempotent` | models/Day.js:23 | the schema's second trim of already trimmed text changes nothing |
| `Validators.TrimEmptyIff` | middleware/validators.js:106-110 | a text trims to nothing exactly when it is all white space |
| `Validators.DecimalTextValue` | middleware/validators.js:103 | the decimal text of a number reads back as that number |
| `Validators.ScoreTextRoundTrip` | middleware/validators.js:99-104 | every score 1..10, written in decimal, passes `isInt({min:1,max:10})` and reads back as itself |
| `Validators.UsernameHasNoSpace` | middleware/validators.js:7-15 | an accepted username, once trimmed, holds no white space at all |
| `Validators.UsernameSanitizedStable` | middleware/validators.js:7-15 | validating the trimmed username gives the same verdict as validating the raw one |
| `Validators.PhoneDigitCount` | middleware/validators.js:34-40 | a text matches the phone pattern exactly when it is 10 to 15 digits with a first digit other than '0', with at most a '+' in front; both directions are stated character by character |
| `Validators.RegisterImpliesProfileUpdate` | middleware/validators.js:74-86 | a name and phone number that registration accepts are also accepted by a profile update |
| `Validators.RegisterImpliesLoginPassword` | middleware/validators.js:42-48 | a registration password is always an acceptable login password |
| `Validators.ShortPasswordLoginOnly` | middleware/validators.js:64-68 | the converse fails: "abc" can log in but cannot register |
| `Validators.CreateImpliesUpdate` | middleware/validators.js:126-143 | score, high and low that creation accepts are also accepted by an update |
| `Validators.ScoreSign` | middleware/validators.js:99-104 | an accepted score text carries no '-' sign, so its digits alone give its value, from 1 to 10 |
| `Validators.LeadingZerosValue` | middleware/validators.js:103 | leading zeros do not change the number a digit string denotes |
| `Validators.CanonicalDigits` | middleware/validators.js:103 | a digit string without a leading zero is the decimal text of its own value |
| `Validators.SpelledScoreText` | middleware/validators.js:99-104 | an optional '+', any zeros, then the decimal text of n in 1..10 passes the score rule and denotes n |
| `Validators.ScoreTextShape` | middleware/validators.js:99-130 | the score rule accepts exactly the texts made of an optional '+', any number of zeros, and the decimal text of a number from 1 to 10; no '-' sign passes |
| `Validators.BlankPointPassesCreate` | middleware/validators.js:106-112 | the non-empty test runs before the trim, so a blank high passes the rule chain although it trims to nothing |
| `Stats.DifferenceRun` | models/Day.js:70-83 | the entries `getUserStreak` counts after the newest: each exactly one day away from the previous one, by absolute difference |
| `Stats.DifferenceStreak` | models/Day.js:64-85 | `getUserStreak`'s result: 0 for no entries, otherwise the newest entry plus that run |
| `Stats.PreviousDateRun` | controllers/emailController.js:224-239 | the entries `calculateStreak` counts after the newest: each dated the day before the previous one |
| `Stats.PreviousDateStreak` | controllers/emailController.js:214-242 | `calculateStreak`'s result: 0 for no entries, otherwise the newest entry plus that run |
| `Stats.Sum` | controllers/emailController.js:209 | the sum of the scores, as `reduce` forms it |
| `Stats.Mean` | models/Day.js:93-108 | `$avg` of the scores: their exact mean, and 0 when there are none |
| `Stats.CountDifferenceStreak` | models/Day.js:64-85 | the `getUserStreak` loop computes the streak: the newest entry plus each next entry exactly one day away from the anchor, stopping at the first that is not |
| `Stats.CountPreviousDateStreak` | controllers/emailController.js:218-241 | the `calculateStreak` loop computes the streak in which each next entry is dated the day before the anchor |
| `Stats.PreviousDateStreakShape` | controllers/emailController.js:218-241 | the streak is 0 exactly for no entries and is at most the number of entries; the counted entries are consecutive days back from the newest; the first entry not counted is not the day before the last one counted |
| `Stats.StreakIsLongestRun` | controllers/emailController.js:224-239 | those facts have exactly one solution, so the streak is the longest run of consecutive days starting at the newest entry |
| `Stats.StreaksAgree` | models/Day.js:70-83 | on dates that never rise from one entry to the next, the two streak loops report the same value |
| `Stats.StreaksDifferOnAscending` | models/Day.js:74-77 | on rising dates they differ, because `getUserStreak` takes an absolute difference |
| `Stats.StreakExamples` | models/Day.js:64-85 | D, D-1, D-2 gives 3; D, D-2 gives 1; a repeated day stops the walk |
| `Stats.MeanWithin` | models/Day.js:93-108 | the mean of scores within [lo, hi] lies within [lo, hi] |
| `Stats.SumWithin` | controllers/emailController.js:209 | the sum of n scores within [lo, hi] lies between lo·n and hi·n |
| `Stats.AverageTenths` | controllers/emailController.js:206-211 | no scores give 0; otherwise the result, in tenths, is within half a tenth of ten times the mean |
| `Stats.TenthsNearMean` | controllers/emailController.js:210 | `toFixed(1)` stays within half a tenth of the exact mean |
| `Stats.TenthsWithin` | controllers/emailController.js:206-211 | for scores 1..10 the rounded average lies between 1.0 and 10.0 |
| `Stats.AverageExample` | controllers/emailController.js:209-210 | scores 8, 6 and 10 average 8.0 |
| `Entries.DayOf` | controllers/dayController.js:20-22 | `setHours(0, 0, 0, 0)`: the day a timestamp falls on |
| `Entries.Midnight` | controllers/dayController.js:20-22 | the date the store keeps for a day: its midnight |
| `Entries.SchemaValid` | models/Day.js:14-31 | the schema: score from 1 to 10, high and low present after the schema's trim and at most 500 code units |
| `Entries.WellFormed` | models/Day.js:14-31 | what a stored entry satisfies: the schema, with high and low already trimmed |
| `Entries.OneEntryPerDay` | models/Day.js:38-45 | the unique index on (user, date) |
| `Entries.Matches` | controllers/dayController.js:65-72 | the filter `getDays` builds: the caller's entries, from `start` and up to `end` when given |
| `Entries.Query` | controllers/dayController.js:65-79 | the entries that filter selects, newest first |
| `Entries.LastWeek` | controllers/emailController.js:26-32 | the recap's query: the owner's entries dated from one week before now, newest first, with no upper bound |
| `Entries.DayOfIff` | controllers/dayController.js:20-22 | a timestamp truncates to day d exactly when it lies between midnight of d and midnight of d+1 |
| `Entries.SameDaySameKey` | controllers/dayController.js:20-28 | two timestamps on the same day give the same key for the duplicate check |
| `Entries.NewDay` | controllers/dayController.js:35-41 | the new entry has the caller as owner, the truncated day, the score in 1..10 and the trimmed high and low of at most 500 characters |
| `Entries.Utf16Length` | models/Day.js:24-30 | the schema's `maxlength` measures UTF-16 code units: at least one and at most two per character |
| `Entries.AstralUnits` | models/Day.js:24-30 | a text of characters beyond U+FFFF measures two code units per character |
| `Entries.CreateSchemaIff` | models/Day.js:20-31 | after validation, the schema accepts the entry exactly when neither high nor low is all white space and each, trimmed, is at most 500 code units |
| `Entries.AstralPointRefused` | models/Day.js:24 | a high point of 300 emoji passes the rule chain, which counts 300 characters, and the schema refuses it at 600 code units |
| `Entries.NewDayWellFormed` | models/Day.js:14-31 | an entry the schema accepts is well formed: score 1..10, high and low non-empty, trimmed, at most 500 code units |
| `Entries.Updated` | controllers/dayController.js:153-157 | owner and day never change; an absent field keeps its value; a present one is overwritten with its validated value |
| `Entries.UpdatedWellFormed` | controllers/dayController.js:153-159 | an update the schema accepts keeps the entry well formed; an empty update changes nothing |
| `Entries.AddKeepsInvariant` | models/Day.js:38-45 | adding an entry for a day the owner has no entry on keeps the unique (user, date) index and the well-formedness of every entry |
| `Entries.NewestFirstUnique` | controllers/dayController.js:78-79 | two newest-first lists of the same entries are equal, so a listing is fully determined |
| `Entries.StreaksAgreeOnQuery` | models/Day.js:60-62 | a newest-first query result has strictly falling dates, so both streak loops agree on it |
| `Entries.MeanOfStored` | models/Day.js:14-19 | over stored entries, the mean is 0 for none and otherwise lies in [1, 10], and so does the rounded average |
| `Entries.WeekHoldsAtMostEight` | models/Day.js:90-97 | the entries dated from one week before now up to now fall on at most eight days, so there are at most eight |
| `Entries.LastWeekAtMostEight` | controllers/emailController.js:26-41 | with no entry dated after now, the recap's last-week count is at most eight |
| `Entries.CeilDiv` | controllers/dayController.js:92 | `Math.ceil(a / b)` for a non-zero divisor: the least q with a ≤ q·b (for b > 0) |
| `Entries.Window` | controllers/dayController.js:75-81 | the slice `skip(skip).limit(limit)` takes: starts at min(skip, n) and holds at most abs(limit) results, or all of them for limit 0 |
| `Entries.EntryStore.constructor` | models/Day.js:3-45 | an empty collection of day entries |
| `Entries.EntryStore.Save` | controllers/dayController.js:43 | `day.save()`: the entry is stored under a fresh id, and the store's invariant is kept |
| `Entries.EntryStore.HasEntry` | controllers/dayController.js:25-28 | finds an entry of this owner on this day exactly when one exists |
| `Entries.EntryStore.Find` | controllers/dayController.js:65-79 | returns exactly the owner's entries within the inclusive optional bounds, newest first |
| `Entries.EntryStore.Create` | controllers/dayController.js:10-52 | a validation failure returns 400 and stores nothing; an existing entry for (caller, truncated day) fails and stores nothing; otherwise exactly one new entry is added under a fresh id; the unique index is kept |
| `Entries.EntryStore.Access` | controllers/dayController.js:108-117 | 404 for an unknown id, 401 for someone else's entry, otherwise the entry |
| `Entries.EntryStore.Get` | controllers/dayController.js:106-126 | the entry is returned exactly when it exists and belongs to the caller; 404 and 401 exactly in the other two cases |
| `Entries.EntryStore.List` | controllers/dayController.js:59-99 | one page of the caller's matching entries, newest first, after skipping (page−1)·limit; total counts every match; pages = ceil(total / limit) |
| `Entries.EntryStore.Update` | controllers/dayController.js:133-168 | 400, 404 and 401 change nothing; otherwise only the supplied fields of that one entry change |
| `Entries.EntryStore.Delete` | controllers/dayController.js:175-197 | 404 and 401 change nothing; otherwise exactly that one entry is removed |
| `Entries.EntryStore.UserStreak` | models/Day.js:59-86 | the owner's streak; it is 0 exactly when the owner has no entries and at most the number of entries; both implementations agree on it |
| `Entries.EntryStore.WeeklyAverage` | models/Day.js:89-109 | the mean score of the last week's entries; 0 when there are none, otherwise between 1 and 10 |
| `Social.IndexOf` | controllers/userController.js:112-114 | `findIndex`: −1 exactly when absent, otherwise the first position of the element |
| `Social.RemoveAt` | controllers/userController.js:136 | `splice(i, 1)`: removes that one element and keeps the others in order |
| `Social.RemoveOnly` | controllers/userController.js:210-219 | in a list without repeats, removing the found occurrence of x leaves every other element and no x |
| `Social.UserNamed` | controllers/userController.js:54 | `findOne({ username })` finds a user exactly when one has that name |
| `Social.Send` | controllers/userController.js:51-90 | a successful request changes only friends and requests |
| `Social.SendChecks` | controllers/userController.js:54-81 | checks the target exists, is not the caller, is not already a friend and has no pending request from the caller, failing with 404, 400, 400 and 400 in that order; on success exactly one request from the caller is appended and nothing else changes |
| `Social.SendTwiceRefused` | controllers/userController.js:70-77 | sending the same request again is refused |
| `Social.RespondAsWritten` | controllers/userController.js:97-146 | the handler as written (unconditional pushes) changes only friends and requests |
| `Social.Respond` | controllers/userController.js:121-137 | the corrected handler, which adds each side only when absent, changes only friends and requests |
| `Social.AddOnce` | controllers/userController.js:123 | the friend is in the result, and nothing else is added |
| `Social.Remove` | controllers/userController.js:201-242 | removing a friend changes only friends and requests |
| `Social.Existing` | controllers/userController.js:179-180 | the populated friends are exactly the listed friends that still exist, and no more of them |
| `Social.ExistingAppend` | controllers/userController.js:179-180 | population goes element by element: the listing of a concatenation is the concatenation of the listings, so order and repeats are kept |
| `Social.ExistingAll` | controllers/userController.js:179-190 | the listing is the friend list itself exactly when every listed friend exists |
| `Social.PopulatedSenders` | controllers/userController.js:155-156 | every request stays listed; its sender is shown exactly when that user exists |
| `Social.RespondChecks` | controllers/userController.js:97-146 | 400 for a bad action, then 404 for a missing user, 404 when no request from `from` is pending, 404 for a missing requester on accept; succeeds otherwise; on accept each user's friends gain the other unless already there and the request is consumed, on reject only the request is consumed, and no other record changes |
| `Social.RespondAsWrittenChecks` | controllers/userController.js:97-146 | the same outcomes for the handler as written, except that accepting appends each user to the other's friends whether or not it is already there |
| `Social.RespondConsumesRequest` | controllers/userController.js:112-137 | a successful response leaves the current user's requests with exactly the first request from `from` removed and the others in order, and no other user's requests change |
| `Social.RespondAsWrittenConsumesRequest` | controllers/userController.js:112-137 | the same holds for the handler as written |
| `Social.RespondActionChecked` | controllers/userController.js:101-103 | the handler fails with 400 exactly for an action other than "accept" or "reject" |
| `Social.AcceptMakesFriends` | controllers/userController.js:121-133 | after accepting, each user lists the other as a friend |
| `Social.AcceptNeedsRequester` | controllers/userController.js:126-129 | if the requester no longer exists, accepting fails with 404 and nothing is saved |
| `Social.RejectKeepsFriends` | controllers/userController.js:135-137 | rejecting leaves every friend list unchanged |
| `Social.RemoveChecks` | controllers/userController.js:204-233 | 404 when the user is missing or does not list the friend; succeeds otherwise; gives the exact result for a missing friend record and for a friend who does not list the caller (only the caller's list changes), and for a friend who does (the first occurrence is dropped from both lists) |
| `Social.SendKeepsConsistent` | controllers/userController.js:80-81 | sending keeps the graph consistent |
| `Social.BefriendKeeps` | controllers/userController.js:123-131 | adding each user to the other's list once keeps the friend lists symmetric and free of repeats |
| `Social.UnfriendKeeps` | controllers/userController.js:219-230 | dropping one occurrence from each side clears both sides and keeps the graph symmetric |
| `Social.RespondKeepsConsistent` | controllers/userController.js:121-137 | the corrected response keeps the graph consistent |
| `Social.RemoveClearsBoth` | controllers/userController.js:218-233 | after removal neither user lists the other, the caller's other friends remain, and the graph stays consistent |
| `Social.CrossRequestsSent` | controllers/userController.js:65-80 | two users may each send the other a request |
| `Social.CrossRequestsAsWritten` | controllers/userController.js:121-137 | as written, accepting both cross requests lists each friend twice, and one removal leaves them still friends |
| `Social.CrossRequestsCorrected` | controllers/userController.js:121-137 | corrected, the same history leaves one entry on each side, and one removal ends the friendship |
| `Social.SocialGraph.FindByUsername` | controllers/userController.js:54 | the lookup by username over the user collection |
| `Social.SocialGraph.SendFriendRequest` | controllers/userController.js:51-90 | the new state and result are those of `Send`; a failure changes nothing; the graph stays consistent |
| `Social.SocialGraph.RespondToFriendRequest` | controllers/userController.js:97-146 | the new state and result are those of `Respond`; a failure changes nothing |
| `Social.SocialGraph.RemoveFriend` | controllers/userController.js:201-242 | the new state and result are those of `Remove`; a failure changes nothing |
| `Social.SocialGraph.Friends` | controllers/userController.js:177-194 | 404 exactly for a missing user; otherwise exactly the listed friends that exist, and in a consistent graph the whole friend list in order, so `count` is its length |
| `Social.SocialGraph.FriendRequests` | controllers/userController.js:153-170 | 404 exactly for a missing user; otherwise one item per pending request, in order, showing its sender when that user exists and nothing otherwise |
| `Recaps.RecapOf` | controllers/emailController.js:29-43 | the statistics a recap reports: the rounded average and the count of the last-week entries, and the streak over all entries |
| `Recaps.Due` | controllers/emailController.js:80-99 | the users `sendAllRecaps` does not skip: those with an address and an entry in the last week |
| `Recaps.RecapBounds` | controllers/emailController.js:38-43 | for a user with a recent entry, the average lies in 1.0..10.0, the count equals the number of last-week entries (at least 1), and the streak lies between 1 and the number of all entries |
| `Recaps.CalculateStreak` | controllers/emailController.js:214-242 | the streak of day-by-day previous dates over all the owner's entries |
| `Recaps.ComputeStats` | controllers/emailController.js:38-43 | the reported statistics are the rounded average and the count of the last-week entries, plus the streak |
| `Recaps.SendUserRecap` | controllers/emailController.js:13-67 | 404 for a missing user, 400 for no address, 400 for no entries in the last week, all before any send; otherwise the stats on delivery and 500 if not delivered |
| `Recaps.Recipients` | controllers/emailController.js:80 | exactly the users with a non-empty address |
| `Recaps.TallyCovers` | controllers/emailController.js:86-131 | every due user is counted once, as sent or as failed; skipped users are counted in neither, so sent + failed ≤ number of users |
| `Recaps.RecapFor` | controllers/emailController.js:92-126 | a user is counted as sent or as failed exactly when they have a recent entry, depending on delivery |
| `Recaps.SendAllRecaps` | controllers/emailController.js:74-137 | 404 when nobody has an address; otherwise sent counts the due users whose recap was delivered, and failed counts the due users whose recap was not |
| `Profiles.Newest` | controllers/userController.js:19-21 | `limit(5)` on a newest-first list: its first min(5, n) elements |
| `Profiles.RecentAreNewest` | controllers/userController.js:18-21 | the recent entries are the owner's own, newest first, and every entry left out is older than every entry shown |
| `Profiles.GetUserProfile` | controllers/userController.js:10-44 | 404 for an unknown username; otherwise streak, weekly average, total count and the five most recent entries; the streak is at most the total and is 0 exactly when the total is 0 |

## Left out

- Authentication is not part of this model. That covers JWT verification, the
  auth bypass switch, register, login and profile handlers, and password
  hashing. The caller's id is a parameter.
- `models/User` is not part of this model. A user is reduced to username,
  email, friends and pending requests. The public profile is reduced to id
  and username.
- The email rules (`isEmail`, `normalizeEmail`) and the date rule
  (`isISO8601`) are library validators and are not modelled. A create
  request carries its date already parsed to milliseconds.
- `searchUsers` is not modelled. It is a case-insensitive database regex
  query.
- E-mail content generation and sending are not modelled. Whether a message
  went out is a parameter (`delivered`). The SMS, image-upload and
  notification services are not modelled either.
- The scheduled jobs, the routes and server start-up are not modelled.
- Recaps.SendAllRecaps: an exception thrown inside the loop counts as a
  failure in the source. The model covers a failed send, but not a failing
  database read for a user who would otherwise be skipped.
- Concurrency is not modelled: the race between the duplicate pre-check and
  the unique index, and the lack of atomicity across the two saves of
  accept and remove. Handlers run one at a time, and the two saves are
  ordered steps.
- Time zones are not modelled. Local midnight and UTC dates are both the
  same abstract day number, and "seven days ago" is exactly seven times 24
  hours. The `Math.ceil` of a millisecond difference between two midnights
  is the difference of their day numbers.
- Floating point is not modelled. `$avg` is an exact `real`. `toFixed(1)`
  is integer tenths with halves rounded up.
- Stats.AverageTenths: rounds an exact half upwards, where `toFixed(1)` on a
  double can round down. Twenty scores summing to 167 have mean 8.35, which
  the model reports as 84 tenths and `toFixed(1)` prints as "8.3", since the
  double nearest 8.35 lies below it. With at most eight scores a half of a
  tenth arises only from four or eight scores (1.25, say), which a double
  holds exactly and `toFixed(1)` rounds up as the model does. The recap's
  last week holds at most eight entries only when no entry is dated after
  now (`Entries.LastWeekAtMostEight`). Its query has no upper bound, and a
  create request may carry a future date, so with future-dated entries the
  difference can show in a recap.
- Entries.EntryStore.List: `page` and `limit` are taken as parsed integers.
  Text that `parseInt` reads as NaN is not modelled. A negative skip is a
  database error.
- Entries.EntryStore.List: `start` and `end` are taken as already parsed
  timestamps. Text that `new Date` reads as an invalid date makes the
  database's date cast throw, and the handler passes that error on; this
  path is not modelled.
- Entries.EntryStore.Access: the entry id is taken as an already parsed
  id. A malformed id makes `findById` throw in `getDay`, `updateDay` and
  `deleteDay`, and the handler passes that error on, where the model
  answers 404; the cast failure is not modelled. The same holds for
  `Entries.EntryStore.Get`, `Entries.EntryStore.Update` and
  `Entries.EntryStore.Delete`.
- Social.SocialGraph.RespondToFriendRequest: implements the corrected
  `Respond`, which appends each user to the other's friends only when not
  already there. The handler pushes unconditionally; that version is
  `Social.RespondAsWritten`, modelled as a function only, because it breaks
  the consistency the class keeps (see "## Findings").
- `isLength` is modelled as a count of characters (code points), so a
  surrogate pair counts once. Newer releases of the validator library also
  leave out the variation selectors U+FE0E and U+FE0F, which is not
  modelled.
- A save is modelled as storing the record as the handler left its copy.
  The database writes only the changed fields and appends to arrays in
  place. The two differ only if one handler saved two copies of the same
  user, which would need a request to oneself, and `sendFriendRequest`
  refuses those.
- The `createdAt` timestamps of entries and requests are not modelled.
- User deletion is not modelled, although `populate` drops missing users
  from listings. The drift-tolerant branches of removal are proved on
  `Social.Remove` in `Social.RemoveChecks`: a missing friend record, and a
  friend who does not list the caller.
  `SocialGraph` itself keeps the graph consistent, so those branches never
  arise there.

## Findings

| source | as written | input that shows it | evidently intended | confidence | as-written member | corrected member |
|---|---|---|---|---|---|---|
| controllers/userController.js:121-133 | accepting a request pushes each user onto the other's friends without checking whether they are already there | user 1 sends user 2 a request, and user 2 sends user 1 one (both allowed, since neither is yet a friend). User 2 accepts, then user 1 accepts the request still pending. Each now lists the other twice, and one `removeFriend` leaves them still friends | each side lists the other exactly once, so the friend graph stays symmetric and free of repeats | high, not executed | `Social.CrossRequestsAsWritten` | `Social.RespondKeepsConsistent` |
