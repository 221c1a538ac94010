/**
 * The friend graph of controllers/userController.js: users with their friends
 * and pending friend requests, the three handlers that change them (send a
 * request, accept or reject one, remove a friend) and the two listings.
 *
 * Each handler is specified by a function from the users before to the users
 * after (`Send`, `Respond`, `Remove`); a failed handler writes nothing.
 * Each save stores the record as the handler left its copy, in the order the
 * handler saves. The database writes only the changed fields, appending to an
 * array in place; the two agree whenever the two copies saved by one handler
 * belong to different users, which holds because a request to oneself is
 * refused.
 */
module Social {
  import opened Base
  import opened Validators

  type UserId = int

  datatype FriendRequest = FriendRequest(from: UserId)

  /** The fields of a user record that the friend graph reads or writes. */
  datatype User = User(username: string, email: string, friends: seq<UserId>, friendRequests: seq<FriendRequest>)

  type Users = map<UserId, User>

  datatype Error =
    | UserNotFound       // 404, "User not found"
    | SelfRequest        // 400, "Cannot send friend request to yourself"
    | AlreadyFriends     // 400, "You are already friends with this user"
    | AlreadyRequested   // 400, "Friend request already sent"
    | InvalidAction      // 400, 'Invalid action. Use "accept" or "reject"'
    | RequestNotFound    // 404, "Friend request not found"
    | RequesterNotFound  // 404, "Requesting user not found"
    | FriendNotFound     // 404, "Friend not found"

  // ---------------------------------------------------------------------------
  // Sequence helpers: findIndex and splice(i, 1)
  // ---------------------------------------------------------------------------

  /** `findIndex(y => y === x)`: the first position of `x`, or -1. */
  function IndexOf(xs: seq<UserId>, x: UserId): (i: int)
    ensures -1 <= i < |xs|
    ensures i == -1 <==> x !in xs
    ensures i >= 0 ==> xs[i] == x && x !in xs[..i]
  {
    if xs == [] then -1
    else if xs[0] == x then 0
    else
      var j := IndexOf(xs[1..], x);
      assert xs[1..][..(if j < 0 then 0 else j)] == xs[1..(if j < 0 then 1 else j + 1)];
      if j == -1 then -1 else j + 1
  }

  /** `splice(i, 1)`: the sequence without its element at `i`. */
  function RemoveAt<T>(xs: seq<T>, i: int): (r: seq<T>)
    requires 0 <= i < |xs|
    ensures |r| == |xs| - 1
    ensures forall k :: 0 <= k < i ==> r[k] == xs[k]
    ensures forall k :: i <= k < |r| ==> r[k] == xs[k + 1]
    ensures multiset(r) == multiset(xs) - multiset{xs[i]}
  {
    assert xs == xs[..i] + [xs[i]] + xs[i + 1..];
    xs[..i] + xs[i + 1..]
  }

  /** The senders of a list of requests, in order. */
  function Senders(rs: seq<FriendRequest>): (ss: seq<UserId>)
    ensures |ss| == |rs| && forall k :: 0 <= k < |rs| ==> ss[k] == rs[k].from
  {
    if rs == [] then [] else [rs[0].from] + Senders(rs[1..])
  }

  lemma SendersRemoveAt(rs: seq<FriendRequest>, i: int)
    requires 0 <= i < |rs|
    ensures Senders(RemoveAt(rs, i)) == RemoveAt(Senders(rs), i)
  {
    var x, y := Senders(RemoveAt(rs, i)), RemoveAt(Senders(rs), i);
    forall k | 0 <= k < |x| ensures x[k] == y[k] {
      if k < i { assert x[k] == rs[k].from; } else { assert x[k] == rs[k + 1].from; }
    }
  }

  predicate NoDuplicates(xs: seq<UserId>) {
    forall i, j :: 0 <= i < j < |xs| ==> xs[i] != xs[j]
  }

  /** In a list without repeats, removing the one occurrence of `x` leaves no `x`, and the rest. */
  lemma {:induction false} RemoveOnly(xs: seq<UserId>, x: UserId)
    requires NoDuplicates(xs) && x in xs
    ensures var r := RemoveAt(xs, IndexOf(xs, x));
      && x !in r && NoDuplicates(r)
      && forall y :: y in r <==> y in xs && y != x
  {
    var i := IndexOf(xs, x);
    var r := RemoveAt(xs, i);
    forall k | 0 <= k < |r| ensures r[k] != x {
      if k < i { assert r[k] == xs[k]; } else { assert r[k] == xs[k + 1]; }
    }
    forall y | y in xs && y != x ensures y in r {
      var k :| 0 <= k < |xs| && xs[k] == y;
      if k < i { assert r[k] == y; } else { assert k != i && r[k - 1] == y; }
    }
  }

  /** Removing an element keeps a list free of repeats and adds nothing to it. */
  lemma RemoveAtKeeps(xs: seq<UserId>, i: int)
    requires 0 <= i < |xs| && NoDuplicates(xs)
    ensures NoDuplicates(RemoveAt(xs, i))
    ensures forall y :: y in RemoveAt(xs, i) ==> y in xs
  {
    var r := RemoveAt(xs, i);
    forall a, b | 0 <= a < b < |r| ensures r[a] != r[b] {
      var a' := if a < i then a else a + 1;
      var b' := if b < i then b else b + 1;
      assert r[a] == xs[a'] && r[b] == xs[b'];
    }
    forall y | y in r ensures y in xs {
      assert y in multiset(r);
    }
  }

  // ---------------------------------------------------------------------------
  // Users by username
  // ---------------------------------------------------------------------------

  /** Registration refuses a taken username, so no two users share one. */
  predicate UniqueUsernames(users: Users) {
    forall a, b :: a in users && b in users && users[a].username == users[b].username ==> a == b
  }

  /** `User.findOne({ username: name })`. */
  ghost function UserNamed(users: Users, name: string): (r: Option<UserId>)
    requires UniqueUsernames(users)
    ensures r.Some? <==> exists id :: id in users && users[id].username == name
    ensures r.Some? ==> r.value in users && users[r.value].username == name
  {
    if exists id :: id in users && users[id].username == name then
      var id :| id in users && users[id].username == name;
      Some(id)
    else
      None
  }

  /** The user of that name is found, whichever way the store is searched. */
  lemma UserNamedIs(users: Users, id: UserId)
    requires UniqueUsernames(users) && id in users
    ensures UserNamed(users, users[id].username) == Some(id)
  {
  }

  /** The handlers change friends and requests only: the same users, names and addresses. */
  predicate OnlySocialChanges(before: Users, after: Users) {
    && before.Keys == after.Keys
    && forall id :: id in before ==>
         after[id].username == before[id].username && after[id].email == before[id].email
  }

  lemma OnlySocialKeepsUnique(before: Users, after: Users)
    requires OnlySocialChanges(before, after) && UniqueUsernames(before)
    ensures UniqueUsernames(after)
  {
  }

  // ---------------------------------------------------------------------------
  // The handlers, as functions of the users
  // ---------------------------------------------------------------------------

  /** sendFriendRequest from `caller` to the user the username lookup found, if any. */
  function Send(users: Users, caller: UserId, target: Option<UserId>): (r: Result<Users, Error>)
    requires target.Some? ==> target.value in users
    ensures r.Success? ==> OnlySocialChanges(users, r.value)
  {
    if target.None? then Failure(UserNotFound)
    else
      var t := target.value;
      var u := users[t];
      if t == caller then Failure(SelfRequest)
      else if caller in u.friends then Failure(AlreadyFriends)
      else if caller in Senders(u.friendRequests) then Failure(AlreadyRequested)
      else Success(users[t := u.(friendRequests := u.friendRequests + [FriendRequest(caller)])])
  }

  /** respondToFriendRequest exactly as the handler does it: accepting pushes each user onto the
      other's friends without looking whether it is already there. The requester is saved first;
      then the current user's copy, loaded before that save, is saved over its record. */
  function RespondAsWritten(users: Users, current: UserId, from: UserId, action: Option<string>): (r: Result<Users, Error>)
    ensures r.Success? ==> OnlySocialChanges(users, r.value)
  {
    if !ValidAction(action) then Failure(InvalidAction)
    else if current !in users then Failure(UserNotFound)
    else
      var me := users[current];
      var i := IndexOf(Senders(me.friendRequests), from);
      if i == -1 then Failure(RequestNotFound)
      else if action == Some("accept") then
        if from !in users then Failure(RequesterNotFound)
        else
          var requester := users[from];
          var saved := users[from := requester.(friends := requester.friends + [current])];
          Success(saved[current := me.(friends := me.friends + [from],
                                       friendRequests := RemoveAt(me.friendRequests, i))])
      else
        Success(users[current := me.(friendRequests := RemoveAt(me.friendRequests, i))])
  }

  /** `friends + [x]` unless `x` is already there. */
  function AddOnce(friends: seq<UserId>, x: UserId): (r: seq<UserId>)
    ensures x in r && forall y :: y in r <==> y in friends || y == x
    ensures NoDuplicates(friends) ==> NoDuplicates(r)
  {
    if x in friends then friends else friends + [x]
  }

  /** respondToFriendRequest with the push on each side made only when the other user is not
      already a friend; otherwise as the handler does it. */
  function Respond(users: Users, current: UserId, from: UserId, action: Option<string>): (r: Result<Users, Error>)
    ensures r.Success? ==> OnlySocialChanges(users, r.value)
  {
    if !ValidAction(action) then Failure(InvalidAction)
    else if current !in users then Failure(UserNotFound)
    else
      var me := users[current];
      var i := IndexOf(Senders(me.friendRequests), from);
      if i == -1 then Failure(RequestNotFound)
      else if action == Some("accept") then
        if from !in users then Failure(RequesterNotFound)
        else
          var requester := users[from];
          var saved := users[from := requester.(friends := AddOnce(requester.friends, current))];
          Success(saved[current := me.(friends := AddOnce(me.friends, from),
                                       friendRequests := RemoveAt(me.friendRequests, i))])
      else
        Success(users[current := me.(friendRequests := RemoveAt(me.friendRequests, i))])
  }

  /** removeFriend: drop the first occurrence of `friendId` from the current user's friends and
      save; then, if that user exists and lists the current user, drop the first occurrence there. */
  function Remove(users: Users, current: UserId, friendId: UserId): (r: Result<Users, Error>)
    ensures r.Success? ==> OnlySocialChanges(users, r.value)
  {
    if current !in users then Failure(UserNotFound)
    else
      var me := users[current];
      var i := IndexOf(me.friends, friendId);
      if i == -1 then Failure(FriendNotFound)
      else
        var saved := users[current := me.(friends := RemoveAt(me.friends, i))];
        FriendsWriteOnlySocial(users, current, RemoveAt(me.friends, i));
        if friendId !in saved then Success(saved)
        else
          var f := saved[friendId];
          var j := IndexOf(f.friends, current);
          if j == -1 then Success(saved)
          else
            FriendsWriteOnlySocial(saved, friendId, RemoveAt(f.friends, j));
            Success(saved[friendId := f.(friends := RemoveAt(f.friends, j))])
  }

  /** Saving a user with a new friend list changes only friends and requests. */
  lemma FriendsWriteOnlySocial(users: Users, id: UserId, friends: seq<UserId>)
    requires id in users
    ensures OnlySocialChanges(users, users[id := users[id].(friends := friends)])
  {
  }

  // ---------------------------------------------------------------------------
  // The listings
  // ---------------------------------------------------------------------------

  /** `populate('friends')`: the friends that still exist, in order. */
  function Existing(users: Users, ids: seq<UserId>): (r: seq<UserId>)
    ensures |r| <= |ids|
    ensures forall x :: x in r <==> x in ids && x in users
  {
    if ids == [] then []
    else if ids[0] in users then [ids[0]] + Existing(users, ids[1..])
    else Existing(users, ids[1..])
  }

  /** The listing is taken element by element: listing a concatenation concatenates the listings. */
  lemma {:induction false} ExistingAppend(users: Users, a: seq<UserId>, b: seq<UserId>)
    ensures Existing(users, a + b) == Existing(users, a) + Existing(users, b)
  {
    if a == [] {
      assert a + b == b;
    } else {
      assert (a + b)[0] == a[0] && (a + b)[1..] == a[1..] + b;
      ExistingAppend(users, a[1..], b);
    }
  }

  /** The listing is the friend list itself, in order and with its repeats, exactly when every
      listed friend exists. */
  lemma {:induction false} ExistingAll(users: Users, ids: seq<UserId>)
    ensures (forall x :: x in ids ==> x in users) <==> Existing(users, ids) == ids
  {
    if ids != [] {
      ExistingAll(users, ids[1..]);
      assert ids == [ids[0]] + ids[1..];
      if ids[0] !in users {
        var y := ids[0];
        assert y in ids && y !in users;
        assert |Existing(users, ids)| < |ids|;
      } else {
        var e := Existing(users, ids[1..]);
        assert Existing(users, ids) == [ids[0]] + e && ([ids[0]] + e)[1..] == e;
        assert forall x :: x in ids <==> x == ids[0] || x in ids[1..];
      }
    }
  }

  /** `populate('friendRequests.from')`: every request stays, its sender absent when that user
      no longer exists. */
  function PopulatedSenders(users: Users, rs: seq<FriendRequest>): (r: seq<Option<UserId>>)
    ensures |r| == |rs|
    ensures forall k :: 0 <= k < |rs| ==>
      r[k] == (if rs[k].from in users then Some(rs[k].from) else None)
  {
    if rs == [] then []
    else [if rs[0].from in users then Some(rs[0].from) else None] + PopulatedSenders(users, rs[1..])
  }

  // ---------------------------------------------------------------------------
  // What the handlers guarantee
  // ---------------------------------------------------------------------------

  /** The checks of sendFriendRequest, in order, and what a successful one does. */
  lemma SendChecks(users: Users, caller: UserId, target: Option<UserId>)
    requires target.Some? ==> target.value in users
    ensures target.None? ==> Send(users, caller, target) == Failure(UserNotFound)
    ensures target == Some(caller) ==> Send(users, caller, target) == Failure(SelfRequest)
    ensures target.Some? && target.value != caller && caller in users[target.value].friends ==>
      Send(users, caller, target) == Failure(AlreadyFriends)
    ensures (&& target.Some? && target.value != caller && caller !in users[target.value].friends
             && caller in Senders(users[target.value].friendRequests)) ==>
      Send(users, caller, target) == Failure(AlreadyRequested)
    ensures Send(users, caller, target).Success? <==>
      && target.Some? && target.value != caller
      && caller !in users[target.value].friends
      && caller !in Senders(users[target.value].friendRequests)
    ensures Send(users, caller, target).Success? ==>
      var after := Send(users, caller, target).value;
      && after[target.value].friendRequests == users[target.value].friendRequests + [FriendRequest(caller)]
      && after[target.value].friends == users[target.value].friends
      && forall id :: id in users && id != target.value ==> after[id] == users[id]
  {
  }

  /** A request cannot be sent twice: once sent, the same request is refused. */
  lemma {:induction false} SendTwiceRefused(users: Users, caller: UserId, target: UserId)
    requires target in users && Send(users, caller, Some(target)).Success?
    ensures Send(Send(users, caller, Some(target)).value, caller, Some(target)) == Failure(AlreadyRequested)
  {
    var after := Send(users, caller, Some(target)).value;
    var rs := after[target].friendRequests;
    assert Senders(rs)[|rs| - 1] == caller;
  }

  /** `after` differs from `before` in requests by exactly one request to `current` from `from`. */
  predicate ConsumedOne(before: Users, after: Users, current: UserId, from: UserId)
    requires before.Keys == after.Keys && current in before
  {
    && multiset(Senders(after[current].friendRequests)) ==
         multiset(Senders(before[current].friendRequests)) - multiset{from}
    && forall id :: id in before && id != current ==> after[id].friendRequests == before[id].friendRequests
  }

  /** A successful response consumes exactly one request, the first one from `from`, and keeps
      the others in their order; nobody else's requests change. */
  lemma RespondConsumesRequest(users: Users, current: UserId, from: UserId, action: Option<string>)
    requires Respond(users, current, from, action).Success?
    ensures current in users && from in Senders(users[current].friendRequests)
    ensures ConsumedOne(users, Respond(users, current, from, action).value, current, from)
    ensures var rs := users[current].friendRequests;
      Respond(users, current, from, action).value[current].friendRequests == RemoveAt(rs, IndexOf(Senders(rs), from))
  {
    var rs := users[current].friendRequests;
    var i := IndexOf(Senders(rs), from);
    var after := Respond(users, current, from, action).value;
    assert after[current].friendRequests == RemoveAt(rs, i);
    assert forall id :: id in users && id != current ==> after[id].friendRequests == users[id].friendRequests;
    SendersRemoveAt(rs, i);
  }

  /** So does the handler as written. */
  lemma RespondAsWrittenConsumesRequest(users: Users, current: UserId, from: UserId, action: Option<string>)
    requires RespondAsWritten(users, current, from, action).Success?
    ensures current in users && from in Senders(users[current].friendRequests)
    ensures ConsumedOne(users, RespondAsWritten(users, current, from, action).value, current, from)
    ensures var rs := users[current].friendRequests;
      RespondAsWritten(users, current, from, action).value[current].friendRequests == RemoveAt(rs, IndexOf(Senders(rs), from))
  {
    var rs := users[current].friendRequests;
    var i := IndexOf(Senders(rs), from);
    var after := RespondAsWritten(users, current, from, action).value;
    assert after[current].friendRequests == RemoveAt(rs, i);
    assert forall id :: id in users && id != current ==> after[id].friendRequests == users[id].friendRequests;
    SendersRemoveAt(rs, i);
  }

  /** The handler accepts only "accept" and "reject", exactly what the rule set allows. */
  lemma RespondActionChecked(users: Users, current: UserId, from: UserId, action: Option<string>)
    ensures RespondAsWritten(users, current, from, action) == Failure(InvalidAction) <==> !FriendRequestResponseValid(action)
    ensures Respond(users, current, from, action) == Failure(InvalidAction) <==> !FriendRequestResponseValid(action)
  {
  }

  /** The outcomes of the corrected response, check by check, and the exact effect of a
      successful one: accepting adds each user to the other's friends unless already there and
      consumes the request, rejecting only consumes it, and no other record changes. */
  lemma RespondChecks(users: Users, current: UserId, from: UserId, action: Option<string>)
    ensures ValidAction(action) && current !in users ==>
      Respond(users, current, from, action) == Failure(UserNotFound)
    ensures ValidAction(action) && current in users && from !in Senders(users[current].friendRequests) ==>
      Respond(users, current, from, action) == Failure(RequestNotFound)
    ensures Respond(users, current, from, action).Success? <==>
      && ValidAction(action) && current in users && from in Senders(users[current].friendRequests)
      && (action == Some("accept") ==> from in users)
    ensures Respond(users, current, from, action).Success? ==>
      var me, after := users[current], Respond(users, current, from, action).value;
      var rest := RemoveAt(me.friendRequests, IndexOf(Senders(me.friendRequests), from));
      && after.Keys == users.Keys
      && (forall id :: id in users && id != current && id != from ==> after[id] == users[id])
      && (action == Some("reject") ==> after == users[current := me.(friendRequests := rest)])
      && (action == Some("accept") ==>
            && after[current] == me.(friends := AddOnce(me.friends, from), friendRequests := rest)
            && (from != current ==> after[from] == users[from].(friends := AddOnce(users[from].friends, current))))
  {
  }

  /** The same for the handler as written: accepting appends each user to the other's friends
      whether or not it is already there. */
  lemma RespondAsWrittenChecks(users: Users, current: UserId, from: UserId, action: Option<string>)
    ensures ValidAction(action) && current !in users ==>
      RespondAsWritten(users, current, from, action) == Failure(UserNotFound)
    ensures ValidAction(action) && current in users && from !in Senders(users[current].friendRequests) ==>
      RespondAsWritten(users, current, from, action) == Failure(RequestNotFound)
    ensures RespondAsWritten(users, current, from, action).Success? <==>
      && ValidAction(action) && current in users && from in Senders(users[current].friendRequests)
      && (action == Some("accept") ==> from in users)
    ensures RespondAsWritten(users, current, from, action).Success? ==>
      var me, after := users[current], RespondAsWritten(users, current, from, action).value;
      var rest := RemoveAt(me.friendRequests, IndexOf(Senders(me.friendRequests), from));
      && after.Keys == users.Keys
      && (forall id :: id in users && id != current && id != from ==> after[id] == users[id])
      && (action == Some("reject") ==> after == users[current := me.(friendRequests := rest)])
      && (action == Some("accept") ==>
            && after[current] == me.(friends := me.friends + [from], friendRequests := rest)
            && (from != current ==> after[from] == users[from].(friends := users[from].friends + [current])))
  {
  }

  /** Accepting makes the two users friends of each other. */
  lemma AcceptMakesFriends(users: Users, current: UserId, from: UserId)
    requires Respond(users, current, from, Some("accept")).Success?
    ensures from in users
    ensures var after := Respond(users, current, from, Some("accept")).value;
      from in after[current].friends && current in after[from].friends
  {
  }

  /** Accepting fails with nothing written when the requester no longer exists. */
  lemma AcceptNeedsRequester(users: Users, current: UserId, from: UserId)
    requires current in users && from in Senders(users[current].friendRequests) && from !in users
    ensures Respond(users, current, from, Some("accept")) == Failure(RequesterNotFound)
    ensures RespondAsWritten(users, current, from, Some("accept")) == Failure(RequesterNotFound)
  {
  }

  /** Rejecting leaves every friend list as it was. */
  lemma RejectKeepsFriends(users: Users, current: UserId, from: UserId)
    requires Respond(users, current, from, Some("reject")).Success?
    ensures var after := Respond(users, current, from, Some("reject")).value;
      forall id :: id in users ==> after[id].friends == users[id].friends
  {
  }

  /** Removing needs a current user who lists `friendId`; the first occurrence of the current user
      in the other side's list is dropped too when that user exists and lists the current user, and
      the other side is left as it is when it does not exist or does not list the current user. */
  lemma RemoveChecks(users: Users, current: UserId, friendId: UserId)
    ensures current !in users ==> Remove(users, current, friendId) == Failure(UserNotFound)
    ensures current in users && friendId !in users[current].friends ==>
      Remove(users, current, friendId) == Failure(FriendNotFound)
    ensures Remove(users, current, friendId).Success? <==> current in users && friendId in users[current].friends
    ensures (&& Remove(users, current, friendId).Success?
             && (friendId !in users || (friendId != current && current !in users[friendId].friends))) ==>
      Remove(users, current, friendId).value ==
        users[current := users[current].(friends := RemoveAt(users[current].friends, IndexOf(users[current].friends, friendId)))]
    ensures (&& Remove(users, current, friendId).Success?
             && friendId in users && friendId != current && current in users[friendId].friends) ==>
      var f := users[friendId];
      Remove(users, current, friendId).value ==
        users[current := users[current].(friends := RemoveAt(users[current].friends, IndexOf(users[current].friends, friendId)))]
             [friendId := f.(friends := RemoveAt(f.friends, IndexOf(f.friends, current)))]
  {
  }

  // ---------------------------------------------------------------------------
  // A consistent friend graph
  // ---------------------------------------------------------------------------

  /** Friend lists without repeats and without oneself, naming existing users who list back. */
  predicate FriendsConsistent(users: Users) {
    forall u :: u in users ==>
      && u !in users[u].friends
      && NoDuplicates(users[u].friends)
      && (forall v :: v in users[u].friends ==> v in users && u in users[v].friends)
  }

  /** No request from oneself, and at most one pending request from each sender. */
  predicate RequestsConsistent(users: Users) {
    forall u :: u in users ==>
      && u !in Senders(users[u].friendRequests)
      && NoDuplicates(Senders(users[u].friendRequests))
  }

  predicate Consistent(users: Users) {
    FriendsConsistent(users) && RequestsConsistent(users)
  }

  /** Sending a request keeps the graph consistent. */
  lemma SendKeepsConsistent(users: Users, caller: UserId, target: Option<UserId>)
    requires target.Some? ==> target.value in users
    requires Consistent(users) && Send(users, caller, target).Success?
    ensures Consistent(Send(users, caller, target).value)
  {
    var t := target.value;
    var after := Send(users, caller, target).value;
    var rs := after[t].friendRequests;
    assert rs == users[t].friendRequests + [FriendRequest(caller)];
    var ss := Senders(rs);
    assert NoDuplicates(ss) by {
      forall a, b | 0 <= a < b < |ss| ensures ss[a] != ss[b] {
        if b == |ss| - 1 {
          assert ss[a] == Senders(users[t].friendRequests)[a];
        } else {
          assert ss[a] == Senders(users[t].friendRequests)[a];
          assert ss[b] == Senders(users[t].friendRequests)[b];
        }
      }
    }
    forall k | 0 <= k < |ss| ensures ss[k] != t {
      if k < |ss| - 1 { assert ss[k] == Senders(users[t].friendRequests)[k]; }
    }
  }

  /** Removing one request keeps the request lists consistent. */
  lemma DropRequestKeeps(users: Users, current: UserId, i: int)
    requires current in users && RequestsConsistent(users)
    requires 0 <= i < |users[current].friendRequests|
    ensures var me := users[current];
      RequestsConsistent(users[current := me.(friendRequests := RemoveAt(me.friendRequests, i))])
  {
    var rs := users[current].friendRequests;
    SendersRemoveAt(rs, i);
    RemoveAtKeeps(Senders(rs), i);
  }

  predicate SameFriends(x: Users, y: Users) {
    x.Keys == y.Keys && forall u :: u in x ==> x[u].friends == y[u].friends
  }

  predicate SameRequests(x: Users, y: Users) {
    x.Keys == y.Keys && forall u :: u in x ==> x[u].friendRequests == y[u].friendRequests
  }

  lemma SameFriendsConsistent(x: Users, y: Users)
    requires SameFriends(x, y) && FriendsConsistent(x)
    ensures FriendsConsistent(y)
  {
    forall u | u in y
      ensures u !in y[u].friends && NoDuplicates(y[u].friends)
      ensures forall v :: v in y[u].friends ==> v in y && u in y[v].friends
    {
      assert y[u].friends == x[u].friends;
    }
  }

  lemma SameRequestsConsistent(x: Users, y: Users)
    requires SameRequests(x, y) && RequestsConsistent(x)
    ensures RequestsConsistent(y)
  {
    forall u | u in y
      ensures u !in Senders(y[u].friendRequests) && NoDuplicates(Senders(y[u].friendRequests))
    {
      assert y[u].friendRequests == x[u].friendRequests;
    }
  }

  /** `users` with the friend lists of `a` and `b` replaced. */
  function WithFriends(users: Users, a: UserId, fa: seq<UserId>, b: UserId, fb: seq<UserId>): Users
    requires a in users && b in users
  {
    users[a := users[a].(friends := fa)][b := users[b].(friends := fb)]
  }

  /** Two users who become friends, each added to the other's list unless already there. */
  lemma BefriendKeeps(users: Users, a: UserId, b: UserId)
    requires FriendsConsistent(users) && a in users && b in users && a != b
    ensures FriendsConsistent(WithFriends(users, a, AddOnce(users[a].friends, b), b, AddOnce(users[b].friends, a)))
  {
    var w := WithFriends(users, a, AddOnce(users[a].friends, b), b, AddOnce(users[b].friends, a));
    forall u | u in w
      ensures u !in w[u].friends && NoDuplicates(w[u].friends)
      ensures forall v :: v in w[u].friends ==> v in w && u in w[v].friends
    {
      forall v | v in w[u].friends ensures v in w && u in w[v].friends {
        if !((u == a && v == b) || (u == b && v == a)) {
          assert v in users[u].friends;
        }
      }
    }
  }

  /** Two friends who stop being friends, one occurrence dropped from each list. */
  lemma UnfriendKeeps(users: Users, a: UserId, b: UserId)
    requires FriendsConsistent(users) && a in users && b in users[a].friends
    ensures b in users && a != b && a in users[b].friends
    ensures var fa := RemoveAt(users[a].friends, IndexOf(users[a].friends, b));
      var fb := RemoveAt(users[b].friends, IndexOf(users[b].friends, a));
      && b !in fa && a !in fb
      && (forall v :: v in fa <==> v in users[a].friends && v != b)
      && FriendsConsistent(WithFriends(users, a, fa, b, fb))
  {
    RemoveOnly(users[a].friends, b);
    RemoveOnly(users[b].friends, a);
    var fa := RemoveAt(users[a].friends, IndexOf(users[a].friends, b));
    var fb := RemoveAt(users[b].friends, IndexOf(users[b].friends, a));
    var w := WithFriends(users, a, fa, b, fb);
    forall u | u in w
      ensures u !in w[u].friends && NoDuplicates(w[u].friends)
      ensures forall v :: v in w[u].friends ==> v in w && u in w[v].friends
    {
      forall v | v in w[u].friends ensures v in w && u in w[v].friends {
        assert v in users[u].friends;
      }
    }
  }

  /** The corrected response keeps the graph consistent. */
  lemma RespondKeepsConsistent(users: Users, current: UserId, from: UserId, action: Option<string>)
    requires Consistent(users) && Respond(users, current, from, action).Success?
    ensures Consistent(Respond(users, current, from, action).value)
  {
    var me := users[current];
    var i := IndexOf(Senders(me.friendRequests), from);
    DropRequestKeeps(users, current, i);
    var dropped := users[current := me.(friendRequests := RemoveAt(me.friendRequests, i))];
    var after := Respond(users, current, from, action).value;
    SameFriendsConsistent(users, dropped);
    if action == Some("accept") {
      assert from != current;
      BefriendKeeps(users, current, from);
      var w := WithFriends(users, current, AddOnce(me.friends, from), from, AddOnce(users[from].friends, current));
      assert SameFriends(w, after);
      SameFriendsConsistent(w, after);
      assert SameRequests(dropped, after);
      SameRequestsConsistent(dropped, after);
    } else {
      assert after == dropped;
    }
  }

  /** In a consistent graph, removing a friend clears both sides, keeps the other friends, and
      keeps the graph consistent. */
  lemma RemoveClearsBoth(users: Users, current: UserId, friendId: UserId)
    requires Consistent(users) && Remove(users, current, friendId).Success?
    ensures var after := Remove(users, current, friendId).value;
      && friendId !in after[current].friends
      && current !in after[friendId].friends
      && (forall v :: v in after[current].friends <==> v in users[current].friends && v != friendId)
      && Consistent(after)
  {
    UnfriendKeeps(users, current, friendId);
    var fa := RemoveAt(users[current].friends, IndexOf(users[current].friends, friendId));
    var fb := RemoveAt(users[friendId].friends, IndexOf(users[friendId].friends, current));
    var after := Remove(users, current, friendId).value;
    assert after == WithFriends(users, current, fa, friendId, fb);
    assert SameRequests(users, after);
    SameRequestsConsistent(users, after);
  }

  // ---------------------------------------------------------------------------
  // Cross requests
  // ---------------------------------------------------------------------------

  /** Users 1 and 2 with the given friends and pending request senders. */
  function Pair(friends1: seq<UserId>, senders1: seq<UserId>, friends2: seq<UserId>, senders2: seq<UserId>): Users {
    map[1 := User("alice", "", friends1, Requests(senders1)), 2 := User("bob", "", friends2, Requests(senders2))]
  }

  function Requests(senders: seq<UserId>): (rs: seq<FriendRequest>)
    ensures Senders(rs) == senders
  {
    if senders == [] then [] else [FriendRequest(senders[0])] + Requests(senders[1..])
  }

  /** Both users send each other a request; each is allowed, since neither sees the other's. */
  lemma CrossRequestsSent()
    ensures Send(Pair([], [], [], []), 1, Some(2)) == Success(Pair([], [], [], [1]))
    ensures Send(Pair([], [], [], [1]), 2, Some(1)) == Success(Pair([], [2], [], [1]))
  {
    var none: seq<UserId> := [];
    assert Requests(none) == [];
    assert Requests([1]) == [FriendRequest(1)];
    assert Requests([2]) == [FriendRequest(2)];
    var s0 := Pair([], [], [], []);
    assert s0[2].friendRequests + [FriendRequest(1)] == Requests([1]);
    assert s0[2 := s0[2].(friendRequests := Requests([1]))] == Pair([], [], [], [1]);
    var s1 := Pair([], [], [], [1]);
    assert s1[1].friendRequests + [FriendRequest(2)] == Requests([2]);
    assert s1[1 := s1[1].(friendRequests := Requests([2]))] == Pair([], [2], [], [1]);
  }

  /** As written: user 2 accepts, then user 1 accepts the request still pending, and each now
      lists the other twice; the graph is no longer consistent, and removing the friend once
      leaves both still friends. */
  lemma CrossRequestsAsWritten()
    ensures RespondAsWritten(Pair([], [2], [], [1]), 2, 1, Some("accept")) == Success(Pair([2], [2], [1], []))
    ensures RespondAsWritten(Pair([2], [2], [1], []), 1, 2, Some("accept")) == Success(Pair([2, 2], [], [1, 1], []))
    ensures !Consistent(Pair([2, 2], [], [1, 1], []))
    ensures Remove(Pair([2, 2], [], [1, 1], []), 1, 2) == Success(Pair([2], [], [1], []))
  {
    FirstAcceptAsWritten();
    SecondAcceptAsWritten();
    RemoveOneCopy();
    var s4 := Pair([2, 2], [], [1, 1], []);
    assert s4[1].friends[0] == s4[1].friends[1];
  }

  lemma FirstAcceptAsWritten()
    ensures RespondAsWritten(Pair([], [2], [], [1]), 2, 1, Some("accept")) == Success(Pair([2], [2], [1], []))
  {
    RequestsOfOne();
    var s2 := Pair([], [2], [], [1]);
    assert IndexOf(Senders(s2[2].friendRequests), 1) == 0;
    assert RemoveAt(s2[2].friendRequests, 0) == Requests([]);
    assert s2[1].friends + [2] == [2] && s2[2].friends + [1] == [1];
    assert s2[1 := s2[1].(friends := [2])][2 := s2[2].(friends := [1], friendRequests := Requests([]))]
      == Pair([2], [2], [1], []);
  }

  lemma SecondAcceptAsWritten()
    ensures RespondAsWritten(Pair([2], [2], [1], []), 1, 2, Some("accept")) == Success(Pair([2, 2], [], [1, 1], []))
  {
    RequestsOfOne();
    var s3 := Pair([2], [2], [1], []);
    assert IndexOf(Senders(s3[1].friendRequests), 2) == 0;
    assert RemoveAt(s3[1].friendRequests, 0) == Requests([]);
    assert s3[2].friends + [1] == [1, 1] && s3[1].friends + [2] == [2, 2];
    assert s3[2 := s3[2].(friends := [1, 1])][1 := s3[1].(friends := [2, 2], friendRequests := Requests([]))]
      == Pair([2, 2], [], [1, 1], []);
  }

  lemma RemoveOneCopy()
    ensures Remove(Pair([2, 2], [], [1, 1], []), 1, 2) == Success(Pair([2], [], [1], []))
  {
    var s4 := Pair([2, 2], [], [1, 1], []);
    assert IndexOf(s4[1].friends, 2) == 0 && RemoveAt(s4[1].friends, 0) == [2];
    assert IndexOf(s4[2].friends, 1) == 0 && RemoveAt(s4[2].friends, 0) == [1];
    assert s4[1 := s4[1].(friends := [2])][2 := s4[2].(friends := [1])] == Pair([2], [], [1], []);
  }

  /** Corrected: the same history leaves one entry on each side, and removing the friend ends
      the friendship. */
  lemma CrossRequestsCorrected()
    ensures Respond(Pair([], [2], [], [1]), 2, 1, Some("accept")) == Success(Pair([2], [2], [1], []))
    ensures Respond(Pair([2], [2], [1], []), 1, 2, Some("accept")) == Success(Pair([2], [], [1], []))
    ensures Consistent(Pair([2], [], [1], []))
    ensures Remove(Pair([2], [], [1], []), 1, 2) == Success(Pair([], [], [], []))
  {
    FirstAcceptCorrected();
    SecondAcceptCorrected();
    RemoveLastCopy();
    FriendsOnceConsistent();
  }

  lemma FriendsOnceConsistent()
    ensures Consistent(Pair([2], [], [1], []))
  {
    RequestsOfOne();
    var s := Pair([2], [], [1], []);
    assert s.Keys == {1, 2};
    assert s[1].friends == [2] && s[2].friends == [1];
    assert Senders(s[1].friendRequests) == [] && Senders(s[2].friendRequests) == [];
  }

  lemma FirstAcceptCorrected()
    ensures Respond(Pair([], [2], [], [1]), 2, 1, Some("accept")) == Success(Pair([2], [2], [1], []))
  {
    RequestsOfOne();
    var s2 := Pair([], [2], [], [1]);
    assert IndexOf(Senders(s2[2].friendRequests), 1) == 0;
    assert RemoveAt(s2[2].friendRequests, 0) == Requests([]);
    assert AddOnce(s2[1].friends, 2) == [2] && AddOnce(s2[2].friends, 1) == [1];
    assert s2[1 := s2[1].(friends := [2])][2 := s2[2].(friends := [1], friendRequests := Requests([]))]
      == Pair([2], [2], [1], []);
  }

  lemma SecondAcceptCorrected()
    ensures Respond(Pair([2], [2], [1], []), 1, 2, Some("accept")) == Success(Pair([2], [], [1], []))
  {
    RequestsOfOne();
    var s3 := Pair([2], [2], [1], []);
    assert IndexOf(Senders(s3[1].friendRequests), 2) == 0;
    assert RemoveAt(s3[1].friendRequests, 0) == Requests([]);
    assert AddOnce(s3[1].friends, 2) == [2] && AddOnce(s3[2].friends, 1) == [1];
    assert s3[2 := s3[2]][1 := s3[1].(friendRequests := Requests([]))] == Pair([2], [], [1], []);
  }

  lemma RemoveLastCopy()
    ensures Remove(Pair([2], [], [1], []), 1, 2) == Success(Pair([], [], [], []))
  {
    var s4 := Pair([2], [], [1], []);
    assert IndexOf(s4[1].friends, 2) == 0 && RemoveAt(s4[1].friends, 0) == [];
    assert IndexOf(s4[2].friends, 1) == 0 && RemoveAt(s4[2].friends, 0) == [];
    assert s4[1 := s4[1].(friends := [])][2 := s4[2].(friends := [])] == Pair([], [], [], []);
  }

  lemma RequestsOfOne()
    ensures Requests([]) == [] && Requests([1]) == [FriendRequest(1)] && Requests([2]) == [FriendRequest(2)]
  {
    var none: seq<UserId> := [];
    assert Requests(none) == [];
  }

  // ---------------------------------------------------------------------------
  // The user collection
  // ---------------------------------------------------------------------------

  /** Whether a handler's result and the new state agree with its specification. */
  predicate Applied(step: Result<Users, Error>, r: Outcome<Error>, before: Users, after: Users) {
    && (step.Failure? ==> r == Failed(step.error) && after == before)
    && (step.Success? ==> r == Done && after == step.value)
  }

  class SocialGraph {
    var users: Users

    ghost predicate Valid()
      reads this
    {
      UniqueUsernames(users) && Consistent(users)
    }

    constructor (initial: Users)
      requires UniqueUsernames(initial) && Consistent(initial)
      ensures Valid() && users == initial
    {
      users := initial;
    }

    /** `User.findOne({ username: name })`, over every stored user. */
    method FindByUsername(name: string) returns (r: Option<UserId>)
      requires Valid()
      ensures r == UserNamed(users, name)
    {
      var rest := users.Keys;
      r := None;
      while rest != {}
        invariant rest <= users.Keys
        invariant r.None? ==> forall id :: id in users.Keys - rest ==> users[id].username != name
        invariant r.Some? ==> r.value in users && users[r.value].username == name
        decreases rest
      {
        ghost var some := Pick(rest);
        var id :| id in rest;
        if users[id].username == name {
          r := Some(id);
        }
        rest := rest - {id};
      }
      if r.Some? {
        UserNamedIs(users, r.value);
      }
    }

    /** sendFriendRequest: `caller` asks the user named `name` to be friends. */
    method SendFriendRequest(caller: UserId, name: string) returns (r: Outcome<Error>)
      requires Valid()
      modifies this
      ensures Valid()
      ensures Applied(Send(old(users), caller, UserNamed(old(users), name)), r, old(users), users)
    {
      var target := FindByUsername(name);
      if target.None? {
        return Failed(UserNotFound);
      }
      var t := target.value;
      var u := users[t];
      if t == caller {
        return Failed(SelfRequest);
      }
      if caller in u.friends {
        return Failed(AlreadyFriends);
      }
      if caller in Senders(u.friendRequests) {
        return Failed(AlreadyRequested);
      }
      SendKeepsConsistent(users, caller, target);
      OnlySocialKeepsUnique(users, Send(users, caller, target).value);
      u := u.(friendRequests := u.friendRequests + [FriendRequest(caller)]);
      users := users[t := u];
      r := Done;
    }

    /** respondToFriendRequest: `current` accepts or rejects the request from `from`. Accepting
        adds each to the other's friends when not already there. */
    method RespondToFriendRequest(current: UserId, from: UserId, action: Option<string>) returns (r: Outcome<Error>)
      requires Valid()
      modifies this
      ensures Valid()
      ensures Applied(Respond(old(users), current, from, action), r, old(users), users)
    {
      if action != Some("accept") && action != Some("reject") {
        return Failed(InvalidAction);
      }
      if current !in users {
        return Failed(UserNotFound);
      }
      var me := users[current];
      var i := IndexOf(Senders(me.friendRequests), from);
      if i == -1 {
        return Failed(RequestNotFound);
      }
      if action == Some("reject") || from in users {
        RespondKeepsConsistent(users, current, from, action);
        OnlySocialKeepsUnique(users, Respond(users, current, from, action).value);
      }
      if action == Some("accept") {
        if from !in me.friends {
          me := me.(friends := me.friends + [from]);
        }
        if from !in users {
          return Failed(RequesterNotFound);
        }
        var requester := users[from];
        if current !in requester.friends {
          requester := requester.(friends := requester.friends + [current]);
        }
        users := users[from := requester];
      }
      me := me.(friendRequests := RemoveAt(me.friendRequests, i));
      users := users[current := me];
      r := Done;
    }

    /** removeFriend: `current` stops being friends with `friendId`. */
    method RemoveFriend(current: UserId, friendId: UserId) returns (r: Outcome<Error>)
      requires Valid()
      modifies this
      ensures Valid()
      ensures Applied(Remove(old(users), current, friendId), r, old(users), users)
    {
      if current !in users {
        return Failed(UserNotFound);
      }
      var me := users[current];
      var i := IndexOf(me.friends, friendId);
      if i == -1 {
        return Failed(FriendNotFound);
      }
      RemoveClearsBoth(users, current, friendId);
      OnlySocialKeepsUnique(users, Remove(users, current, friendId).value);
      me := me.(friends := RemoveAt(me.friends, i));
      users := users[current := me];
      if friendId in users {
        var f := users[friendId];
        var j := IndexOf(f.friends, current);
        if j != -1 {
          f := f.(friends := RemoveAt(f.friends, j));
          users := users[friendId := f];
        }
      }
      r := Done;
    }

    /** getFriends: the current user's friends that exist, in order, and how many; in a consistent
        graph every friend exists, so that is the whole friend list. */
    function Friends(current: UserId): (r: Result<seq<UserId>, Error>)
      reads this
      ensures current !in users <==> r == Failure(UserNotFound)
      ensures r.Success? ==> forall v :: v in r.value <==> v in users[current].friends && v in users
      ensures r.Success? && Valid() ==> r.value == users[current].friends
    {
      if current !in users then Failure(UserNotFound)
      else
        ExistingAll(users, users[current].friends);
        Success(Existing(users, users[current].friends))
    }

    /** getFriendRequests: the current user's pending requests and their senders, if they exist. */
    function FriendRequests(current: UserId): (r: Result<seq<Option<UserId>>, Error>)
      reads this
      ensures current !in users <==> r == Failure(UserNotFound)
      ensures r.Success? ==> |r.value| == |users[current].friendRequests|
      ensures r.Success? ==> forall k :: 0 <= k < |r.value| ==>
        var from := users[current].friendRequests[k].from;
        r.value[k] == (if from in users then Some(from) else None)
    {
      if current !in users then Failure(UserNotFound)
      else Success(PopulatedSenders(users, users[current].friendRequests))
    }
  }
}
