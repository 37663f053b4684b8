/** The friend-request side of src/components/Requests.tsx: `sendFriendRequest`, an
    ordered chain of early-exit checks ending in one new `pending` record, and the
    two live queries that list the pending requests a user received and sent. */
module Requests {
  import opened Base
  import opened Strings
  import opened Types
  import opened DocumentStore

  /** The remote calls `sendFriendRequest` makes, in order. A failing one throws into
      the catch block, which reports a failure and writes nothing. */
  datatype RemoteCall = UserLookup | FriendCheck | PendingCheck | RecordWrite

  /** Where the decision chain stops. */
  datatype SendOutcome =
    | NotLoggedIn
    | BlankName
    | NoSuchUser
    | AlreadyFriends
    | PendingExists
    | Failed
    | Sent(receiverUid: string)

  /** The snackbar text each outcome shows: the success text exactly for a sent request,
      and the failure text exactly when a remote call failed. */
  function SnackbarText(o: SendOutcome): (r: string)
    ensures r == "Friend request sent successfully!" <==> o.Sent?
    ensures r == "Failed to send friend request." <==> o.Failed?
  {
    match o
    case NotLoggedIn => "You need to be logged in to send a friend request."
    case BlankName => "Please enter a valid display name."
    case NoSuchUser => "No user found with the provided display name."
    case AlreadyFriends => "You are already friends."
    case PendingExists => "A pending friend request already exists."
    case Failed => "Failed to send friend request."
    case Sent(_) => "Friend request sent successfully!"
  }

  /** `query(users, where("displayName", "==", name))`, then `docs[0].id`. */
  function FirstUserNamed(users: seq<UserDoc>, name: string): (r: Option<string>)
    ensures r.None? <==> forall i :: 0 <= i < |users| ==> users[i].displayName != name
    ensures r.Some? ==> exists i :: 0 <= i < |users| && users[i].displayName == name && users[i].uid == r.value
                                    && forall j :: 0 <= j < i ==> users[j].displayName != name
  {
    if users == [] then None
    else if users[0].displayName == name then Some(users[0].uid)
    else
      var r := FirstUserNamed(users[1..], name);
      assert forall i :: 1 <= i < |users| ==> users[i] == users[1..][i - 1];
      assert r.Some? ==> exists i :: 0 <= i < |users[1..]| && users[1..][i].displayName == name && users[1..][i].uid == r.value
                                     && forall j :: 0 <= j < i ==> users[1..][j].displayName != name;
      assert r.Some? ==> exists i :: 1 <= i < |users| && users[i].displayName == name && users[i].uid == r.value
                                     && forall j :: 0 <= j < i ==> users[j].displayName != name;
      r
  }

  /** The already-friends query: accepted requests whose sender and receiver are both
      among `{a, b}`. */
  function AcceptedBetween(reqs: seq<FriendRequest>, a: string, b: string): (r: seq<FriendRequest>)
    ensures forall x :: x in r <==> x in reqs && x.status == Accepted
                                    && (x.senderUid == a || x.senderUid == b)
                                    && (x.receiverUid == a || x.receiverUid == b)
  {
    Filter(reqs, (x: FriendRequest) => x.status == Accepted && (x.senderUid == a || x.senderUid == b)
                                       && (x.receiverUid == a || x.receiverUid == b))
  }

  /** The duplicate query: pending requests from `sender` to `receiver`, that direction only. */
  function PendingFromTo(reqs: seq<FriendRequest>, sender: string, receiver: string): (r: seq<FriendRequest>)
    ensures forall x :: x in r <==> x in reqs && x.status == Pending && x.senderUid == sender && x.receiverUid == receiver
  {
    Filter(reqs, (x: FriendRequest) => x.senderUid == sender && x.receiverUid == receiver && x.status == Pending)
  }

  /** The decision `sendFriendRequest` reaches, check by check. */
  function Decide(users: seq<UserDoc>, reqs: seq<FriendRequest>, me: Option<AuthUser>,
                  receiverDisplayName: string, failing: Option<RemoteCall>): (r: SendOutcome)
    ensures r == NotLoggedIn <==> me.None?
    ensures r.Failed? ==> failing.Some?
    ensures r.Sent? ==> me.Some? && failing.None? && FirstUserNamed(users, receiverDisplayName) == Some(r.receiverUid)
  {
    assert failing.Some? ==> failing.value.UserLookup? || failing.value.FriendCheck? || failing.value.PendingCheck? || failing.value.RecordWrite?;
    if me.None? then NotLoggedIn
    else if Trim(receiverDisplayName) == "" then BlankName
    else if failing == Some(UserLookup) then Failed
    else match FirstUserNamed(users, receiverDisplayName)
      case None => NoSuchUser
      case Some(uid) =>
        if failing == Some(FriendCheck) then Failed
        else if |AcceptedBetween(reqs, me.value.uid, uid)| > 0 then AlreadyFriends
        else if failing == Some(PendingCheck) then Failed
        else if |PendingFromTo(reqs, me.value.uid, uid)| > 0 then PendingExists
        else if failing == Some(RecordWrite) then Failed
        else Sent(uid)
  }

  /** The record `addDoc` writes: the sender is the signed-in user, the receiver is the
      uid found for the name, and the name is stored exactly as typed. */
  function NewRequest(me: AuthUser, receiverUid: string, receiverDisplayName: string, id: string, now: int): (r: FriendRequest)
    ensures r.id == id && r.status == Pending && r.createdAt == now
    ensures r.senderUid == me.uid && r.senderDisplayName == me.displayName
    ensures r.receiverUid == receiverUid && r.receiverDisplayName == receiverDisplayName
  {
    FriendRequest(id, me.uid, me.displayName, receiverUid, receiverDisplayName, Pending, now)
  }

  /** The collection after the decision: one appended record when sent, nothing otherwise. */
  function AfterSend(users: seq<UserDoc>, reqs: seq<FriendRequest>, me: Option<AuthUser>,
                     receiverDisplayName: string, failing: Option<RemoteCall>, newId: string, now: int): (r: seq<FriendRequest>)
    ensures !Decide(users, reqs, me, receiverDisplayName, failing).Sent? ==> r == reqs
    ensures Decide(users, reqs, me, receiverDisplayName, failing).Sent? ==>
              r == reqs + [NewRequest(me.value, Decide(users, reqs, me, receiverDisplayName, failing).receiverUid,
                                      receiverDisplayName, newId, now)]
  {
    match Decide(users, reqs, me, receiverDisplayName, failing)
    case Sent(uid) => reqs + [NewRequest(me.value, uid, receiverDisplayName, newId, now)]
    case _ => reqs
  }

  /** `sendFriendRequest(receiverDisplayName)`. `failing` names the remote call that
      throws, if any; `newId` is the id the database gives the new document and `now`
      the creation time. The result is the snackbar text. */
  method SendFriendRequest(store: Store, me: Option<AuthUser>, receiverDisplayName: string,
                           failing: Option<RemoteCall>, newId: string, now: int) returns (snackbar: string)
    modifies store`friendRequests
    ensures snackbar == SnackbarText(Decide(store.users, old(store.friendRequests), me, receiverDisplayName, failing))
    ensures store.friendRequests == AfterSend(store.users, old(store.friendRequests), me, receiverDisplayName, failing, newId, now)
  {
    ghost var outcome := Decide(store.users, store.friendRequests, me, receiverDisplayName, failing);
    if me.None? {
      snackbar := "You need to be logged in to send a friend request.";
      assert outcome == NotLoggedIn;
      return;
    }
    if Trim(receiverDisplayName) == "" {
      snackbar := "Please enter a valid display name.";
      assert outcome == BlankName;
      return;
    }
    var currentUser := me.value;
    if failing == Some(UserLookup) {
      snackbar := "Failed to send friend request.";
      assert outcome == Failed;
      return;
    }
    var receiver := FirstUserNamed(store.users, receiverDisplayName);
    if receiver.None? {
      snackbar := "No user found with the provided display name.";
      assert outcome == NoSuchUser;
      return;
    }
    snackbar := SendToReceiver(store, currentUser, receiver.value, receiverDisplayName, failing, newId, now);
  }

  /** The rest of `sendFriendRequest` once the receiver's uid is known: the friendship
      check, the duplicate check and the write, each of which may throw. */
  method SendToReceiver(store: Store, currentUser: AuthUser, receiverUid: string, receiverDisplayName: string,
                        failing: Option<RemoteCall>, newId: string, now: int) returns (snackbar: string)
    requires Trim(receiverDisplayName) != "" && failing != Some(UserLookup)
    requires FirstUserNamed(store.users, receiverDisplayName) == Some(receiverUid)
    modifies store`friendRequests
    ensures snackbar == SnackbarText(Decide(store.users, old(store.friendRequests), Some(currentUser), receiverDisplayName, failing))
    ensures store.friendRequests == AfterSend(store.users, old(store.friendRequests), Some(currentUser), receiverDisplayName, failing, newId, now)
  {
    var reqs := store.friendRequests;
    ghost var outcome := Decide(store.users, reqs, Some(currentUser), receiverDisplayName, failing);
    if failing == Some(FriendCheck) {
      snackbar := "Failed to send friend request.";
      assert outcome == Failed;
      return;
    }
    var existingFriends := AcceptedBetween(reqs, currentUser.uid, receiverUid);
    if |existingFriends| > 0 {
      snackbar := "You are already friends.";
      assert outcome == AlreadyFriends;
      return;
    }
    if failing == Some(PendingCheck) {
      snackbar := "Failed to send friend request.";
      assert outcome == Failed;
      return;
    }
    var existingRequests := PendingFromTo(reqs, currentUser.uid, receiverUid);
    if |existingRequests| > 0 {
      snackbar := "A pending friend request already exists.";
      assert outcome == PendingExists;
      return;
    }
    if failing == Some(RecordWrite) {
      snackbar := "Failed to send friend request.";
      assert outcome == Failed;
      return;
    }
    assert outcome == Sent(receiverUid);
    store.friendRequests := reqs + [NewRequest(currentUser, receiverUid, receiverDisplayName, newId, now)];
    snackbar := "Friend request sent successfully!";
  }

  /** A request is sent exactly when every check passes: someone is signed in, the
      trimmed name is not blank, a user has the untrimmed name (the first such one is
      the receiver), no accepted request joins the two, no pending request goes from
      the sender to the receiver, and no remote call fails. */
  lemma SentIff(users: seq<UserDoc>, reqs: seq<FriendRequest>, me: Option<AuthUser>,
                name: string, failing: Option<RemoteCall>, uid: string)
    ensures Decide(users, reqs, me, name, failing) == Sent(uid) <==>
      && me.Some?
      && Trim(name) != ""
      && failing.None?
      && FirstUserNamed(users, name) == Some(uid)
      && (forall x :: x in reqs && x.status == Accepted ==>
            !((x.senderUid == me.value.uid || x.senderUid == uid) && (x.receiverUid == me.value.uid || x.receiverUid == uid)))
      && (forall x :: x in reqs && x.status == Pending ==> !(x.senderUid == me.value.uid && x.receiverUid == uid))
  {
    if me.Some? && FirstUserNamed(users, name) == Some(uid) {
      NoAcceptedIff(reqs, me.value.uid, uid);
      NoPendingIff(reqs, me.value.uid, uid);
      DecideSentFor(users, reqs, me.value, name, failing, uid);
    }
  }

  /** With the receiver found, the chain sends exactly when the name is not blank, no call
      fails, and both queries come back empty. */
  lemma DecideSentFor(users: seq<UserDoc>, reqs: seq<FriendRequest>, me: AuthUser,
                      name: string, failing: Option<RemoteCall>, uid: string)
    requires FirstUserNamed(users, name) == Some(uid)
    ensures Decide(users, reqs, Some(me), name, failing) == Sent(uid) <==>
      && Trim(name) != ""
      && failing.None?
      && |AcceptedBetween(reqs, me.uid, uid)| == 0
      && |PendingFromTo(reqs, me.uid, uid)| == 0
  {
    if failing.Some? {
      match failing.value
      case UserLookup =>
      case FriendCheck =>
      case PendingCheck =>
      case RecordWrite =>
    }
  }

  /** The friendship query is empty exactly when no accepted request joins the two. */
  lemma NoAcceptedIff(reqs: seq<FriendRequest>, a: string, b: string)
    ensures |AcceptedBetween(reqs, a, b)| == 0 <==>
      forall x :: x in reqs && x.status == Accepted ==> !((x.senderUid == a || x.senderUid == b) && (x.receiverUid == a || x.receiverUid == b))
  {
    var r := AcceptedBetween(reqs, a, b);
    if |r| > 0 { assert r[0] in r; }
  }

  /** The duplicate query is empty exactly when no pending request goes from `a` to `b`. */
  lemma NoPendingIff(reqs: seq<FriendRequest>, a: string, b: string)
    ensures |PendingFromTo(reqs, a, b)| == 0 <==>
      forall x :: x in reqs && x.status == Pending ==> !(x.senderUid == a && x.receiverUid == b)
  {
    var r := PendingFromTo(reqs, a, b);
    if |r| > 0 { assert r[0] in r; }
  }

  /** When no name matches, or the name is blank, or nobody is signed in, nothing is written. */
  lemma NoWriteWithoutReceiver(users: seq<UserDoc>, reqs: seq<FriendRequest>, me: Option<AuthUser>,
                               name: string, failing: Option<RemoteCall>, newId: string, now: int)
    requires me.None? || Trim(name) == "" || forall i :: 0 <= i < |users| ==> users[i].displayName != name
    ensures AfterSend(users, reqs, me, name, failing, newId, now) == reqs
    ensures Decide(users, reqs, me, name, failing) in {NotLoggedIn, BlankName, NoSuchUser, Failed}
  {
  }

  /** The three early exits a signed-in user can meet, each with its own outcome: a name
      blank after trimming, a name no user has, and a pending request already sent to
      that user when the two are not yet friends. */
  lemma DecideExits(users: seq<UserDoc>, reqs: seq<FriendRequest>, me: AuthUser, name: string,
                    failing: Option<RemoteCall>, uid: string)
    ensures Trim(name) == "" ==> Decide(users, reqs, Some(me), name, failing) == BlankName
    ensures Trim(name) != "" && failing != Some(UserLookup)
            && (forall i :: 0 <= i < |users| ==> users[i].displayName != name) ==>
              Decide(users, reqs, Some(me), name, failing) == NoSuchUser
    ensures Trim(name) != "" && FirstUserNamed(users, name) == Some(uid)
            && failing != Some(UserLookup) && failing != Some(FriendCheck) && failing != Some(PendingCheck)
            && (forall x :: x in reqs && x.status == Accepted ==>
                  !((x.senderUid == me.uid || x.senderUid == uid) && (x.receiverUid == me.uid || x.receiverUid == uid)))
            && (exists x :: x in reqs && x.status == Pending && x.senderUid == me.uid && x.receiverUid == uid) ==>
              Decide(users, reqs, Some(me), name, failing) == PendingExists
  {
    NoAcceptedIff(reqs, me.uid, uid);
    NoPendingIff(reqs, me.uid, uid);
  }

  /** A remote call that fails once the chain reaches it ends the send in the catch
      block: the lookup, the already-friends query once a receiver is found, the
      duplicate query once the two are not friends, and the write once no pending
      request goes the same way. */
  lemma DecideFailures(users: seq<UserDoc>, reqs: seq<FriendRequest>, me: AuthUser, name: string, uid: string)
    requires Trim(name) != ""
    ensures Decide(users, reqs, Some(me), name, Some(UserLookup)) == Failed
    ensures FirstUserNamed(users, name) == Some(uid) ==> Decide(users, reqs, Some(me), name, Some(FriendCheck)) == Failed
    ensures FirstUserNamed(users, name) == Some(uid)
            && (forall x :: x in reqs && x.status == Accepted ==>
                  !((x.senderUid == me.uid || x.senderUid == uid) && (x.receiverUid == me.uid || x.receiverUid == uid))) ==>
              Decide(users, reqs, Some(me), name, Some(PendingCheck)) == Failed
    ensures FirstUserNamed(users, name) == Some(uid)
            && (forall x :: x in reqs && x.status == Accepted ==>
                  !((x.senderUid == me.uid || x.senderUid == uid) && (x.receiverUid == me.uid || x.receiverUid == uid)))
            && (forall x :: x in reqs && x.status == Pending ==> !(x.senderUid == me.uid && x.receiverUid == uid)) ==>
              Decide(users, reqs, Some(me), name, Some(RecordWrite)) == Failed
  {
    NoAcceptedIff(reqs, me.uid, uid);
    NoPendingIff(reqs, me.uid, uid);
  }

  /** The already-friends check runs first: with an accepted request in either direction
      the answer is "already friends" even when a pending duplicate also exists. */
  lemma FriendshipCheckedBeforeDuplicate(users: seq<UserDoc>, reqs: seq<FriendRequest>, me: AuthUser,
                                         name: string, failing: Option<RemoteCall>, uid: string, x: FriendRequest)
    requires Trim(name) != "" && FirstUserNamed(users, name) == Some(uid)
    requires failing != Some(UserLookup) && failing != Some(FriendCheck)
    requires x in reqs && x.status == Accepted
    requires (x.senderUid == me.uid && x.receiverUid == uid) || (x.senderUid == uid && x.receiverUid == me.uid)
    ensures Decide(users, reqs, Some(me), name, failing) == AlreadyFriends
  {
    var a := AcceptedBetween(reqs, me.uid, uid);
    assert x in a;
  }

  /** The ledger invariant the write path keeps: two pending requests in the same
      direction are the same request. */
  ghost predicate PendingUnique(reqs: seq<FriendRequest>) {
    forall x, y ::
      (x in reqs && y in reqs && x.status == Pending && y.status == Pending
       && x.senderUid == y.senderUid && x.receiverUid == y.receiverUid) ==> x == y
  }

  /** Sending a request keeps pending requests unique per direction. */
  lemma SendKeepsPendingUnique(users: seq<UserDoc>, reqs: seq<FriendRequest>, me: Option<AuthUser>,
                               name: string, failing: Option<RemoteCall>, newId: string, now: int)
    requires PendingUnique(reqs)
    ensures PendingUnique(AfterSend(users, reqs, me, name, failing, newId, now))
  {
    var d := Decide(users, reqs, me, name, failing);
    if d.Sent? {
      var n := NewRequest(me.value, d.receiverUid, name, newId, now);
      var p := PendingFromTo(reqs, me.value.uid, d.receiverUid);
      assert |p| == 0;
      assert AfterSend(users, reqs, me, name, failing, newId, now) == reqs + [n];
      AppendKeepsPendingUnique(reqs, n);
    }
  }

  /** A new pending request with no pending twin in its direction keeps them unique. */
  lemma AppendKeepsPendingUnique(reqs: seq<FriendRequest>, n: FriendRequest)
    requires PendingUnique(reqs)
    requires forall x :: x in reqs && x.status == Pending ==> !(x.senderUid == n.senderUid && x.receiverUid == n.receiverUid)
    ensures PendingUnique(reqs + [n])
  {
    forall x | x in reqs + [n] ensures x in reqs || x == n {
    }
  }

  /** The duplicate check looks in one direction only: while a pending request from
      "u1" to "u2" exists, "u2" can still send one to "u1", so two pending requests
      join the same pair of users. */
  lemma ReverseRequestIsNotADuplicate()
    ensures Decide([UserDoc("u1", "alice"), UserDoc("u2", "bob")],
                   [FriendRequest("r1", "u1", Some("alice"), "u2", "bob", Pending, 0)],
                   Some(AuthUser("u2", Some("bob"))), "alice", None) == Sent("u1")
  {
    var reqs := [FriendRequest("r1", "u1", Some("alice"), "u2", "bob", Pending, 0)];
    TrimOfTrimmed("alice");
    assert FirstUserNamed([UserDoc("u1", "alice"), UserDoc("u2", "bob")], "alice") == Some("u1");
    var a := AcceptedBetween(reqs, "u2", "u1");
    var p := PendingFromTo(reqs, "u2", "u1");
    assert reqs[0] !in a && reqs[0] !in p;
  }

  /** The "received" tab's live query: pending requests addressed to the user's display name. */
  function ReceivedRequests(reqs: seq<FriendRequest>, me: AuthUser): (r: seq<FriendRequest>)
    ensures forall x :: x in r <==> x in reqs && Some(x.receiverDisplayName) == me.displayName && x.status == Pending
    ensures SubsequenceOf(r, reqs)
  {
    FilterIsSubsequence(reqs, (x: FriendRequest) => Some(x.receiverDisplayName) == me.displayName && x.status == Pending);
    Filter(reqs, (x: FriendRequest) => Some(x.receiverDisplayName) == me.displayName && x.status == Pending)
  }

  /** The "sent" tab's live query: pending requests sent under the user's display name. */
  function SentRequests(reqs: seq<FriendRequest>, me: AuthUser): (r: seq<FriendRequest>)
    ensures forall x :: x in r <==> x in reqs && x.senderDisplayName == me.displayName && x.status == Pending
    ensures SubsequenceOf(r, reqs)
  {
    FilterIsSubsequence(reqs, (x: FriendRequest) => x.senderDisplayName == me.displayName && x.status == Pending);
    Filter(reqs, (x: FriendRequest) => x.senderDisplayName == me.displayName && x.status == Pending)
  }

  /** A request just sent shows up in the sender's "sent" list, and in the receiver's
      "received" list whenever the receiver's display name is the name that was typed. */
  lemma SentRequestIsListed(users: seq<UserDoc>, reqs: seq<FriendRequest>, me: AuthUser, receiver: AuthUser,
                            name: string, newId: string, now: int)
    requires Decide(users, reqs, Some(me), name, None).Sent?
    ensures var after := AfterSend(users, reqs, Some(me), name, None, newId, now);
            && after[|after| - 1] in SentRequests(after, me)
            && (receiver.displayName == Some(name) ==> after[|after| - 1] in ReceivedRequests(after, receiver))
  {
  }
}
