/** src/components/Messages.tsx: the friend list. It derives the friends from accepted
    requests, filters them by a search term, restores the list and the open chat from the
    browser cache, and deletes a chat or removes a friend. */
module Messages {
  import opened Base
  import opened Strings
  import opened Types
  import opened DocumentStore
  import ChatArea
  import opened FriendSlice
  import Requests

  // ---------------------------------------------------------------------------------
  // The chat id, written as a ternary

  /** `me < friendUid ? `${me}_${friendUid}` : `${friendUid}_${me}``. */
  function ChatIdTernary(me: string, friendUid: string): (r: string)
    ensures r == me + "_" + friendUid || r == friendUid + "_" + me
  {
    if LexLess(me, friendUid) then me + "_" + friendUid else friendUid + "_" + me
  }

  /** The ternary names the same chat as the sort-and-join of the chat view, so deleting a
      chat reaches the messages that were sent to it. */
  lemma TernaryMatchesSortJoin(me: string, friendUid: string)
    ensures ChatIdTernary(me, friendUid) == ChatArea.ChatId(me, friendUid)
  {
    var p := ChatArea.SortPair(me, friendUid);
    assert ChatArea.Join(p, "_") == p[0] + "_" + p[1];
    if me != friendUid {
      LexTrichotomy(me, friendUid);
      LexAsymmetric(me, friendUid);
    }
  }

  /** Either participant computes the same id. */
  lemma TernarySymmetric(a: string, b: string)
    ensures ChatIdTernary(a, b) == ChatIdTernary(b, a)
  {
    TernaryMatchesSortJoin(a, b);
    TernaryMatchesSortJoin(b, a);
    ChatArea.ChatIdSymmetric(a, b);
  }

  // ---------------------------------------------------------------------------------
  // Deleting a chat for one user

  /** `deleteBy.includes(uid) ? deleteBy : [...deleteBy, uid]`, where an absent list reads
      as `[]`. */
  function UpdatedDeleteBy(deleteBy: Option<seq<string>>, uid: string): (r: seq<string>)
    ensures uid in r
    ensures |deleteBy.GetOr([])| <= |r| <= |deleteBy.GetOr([])| + 1
    ensures r[..|deleteBy.GetOr([])|] == deleteBy.GetOr([])
    ensures uid in deleteBy.GetOr([]) ==> r == deleteBy.GetOr([])
  {
    var d := deleteBy.GetOr([]);
    if uid in d then d else d + [uid]
  }

  /** Marking a message twice for the same user is marking it once. */
  lemma UpdatedDeleteByIdempotent(deleteBy: Option<seq<string>>, uid: string)
    ensures UpdatedDeleteBy(Some(UpdatedDeleteBy(deleteBy, uid)), uid) == UpdatedDeleteBy(deleteBy, uid)
  {
  }

  /** What deleting the chat does to one message: `None` when the document is deleted
      (two or more users have deleted it), otherwise the message with the new list. */
  function DeleteStep(m: Message, uid: string): (r: Option<Message>)
    ensures r.None? <==> |UpdatedDeleteBy(m.deleteBy, uid)| >= 2
    ensures r.Some? ==> r.value == m.(deleteBy := Some(UpdatedDeleteBy(m.deleteBy, uid)))
  {
    var updated := UpdatedDeleteBy(m.deleteBy, uid);
    if |updated| >= 2 then None else Some(m.(deleteBy := Some(updated)))
  }

  /** The delete step as a list: the message goes, or stays marked by the deleter alone. */
  function StepList(m: Message, uid: string): (r: seq<Message>)
    ensures |r| <= 1
    ensures r == [] <==> |UpdatedDeleteBy(m.deleteBy, uid)| >= 2
    ensures forall k :: k in r ==> k == m.(deleteBy := Some([uid]))
  {
    if DeleteStep(m, uid).Some? then SurvivorCarriesOnlyDeleter(m, uid); [DeleteStep(m, uid).value] else []
  }

  /** The chat's messages after every message has taken its delete step, in order. */
  function DeleteAll(msgs: seq<Message>, uid: string): (r: seq<Message>)
    ensures |r| <= |msgs|
    decreases |msgs|
  {
    if msgs == [] then [] else DeleteAll(msgs[..|msgs| - 1], uid) + StepList(msgs[|msgs| - 1], uid)
  }

  /** One more message of the chat adds its own delete step at the end: it is kept, with
      the user added to `deleteBy`, exactly when fewer than two users then delete it. */
  lemma DeleteAllStep(msgs: seq<Message>, i: int, uid: string, kept: seq<Message>)
    requires 0 <= i < |msgs|
    requires kept == DeleteAll(msgs[..i], uid)
    ensures |UpdatedDeleteBy(msgs[i].deleteBy, uid)| < 2 ==>
              kept + [msgs[i].(deleteBy := Some(UpdatedDeleteBy(msgs[i].deleteBy, uid)))] == DeleteAll(msgs[..i + 1], uid)
    ensures |UpdatedDeleteBy(msgs[i].deleteBy, uid)| >= 2 ==> kept == DeleteAll(msgs[..i + 1], uid)
  {
    assert msgs[..i + 1][..i] == msgs[..i];
    DeleteAllUnfold(msgs[..i + 1], uid);
    if |UpdatedDeleteBy(msgs[i].deleteBy, uid)| >= 2 {
      assert kept + [] == kept;
    }
  }

  /** The `forEach` over the chat's message documents: each one the user is the second to
      delete is deleted, every other one is updated with the user added to `deleteBy`. */
  method SoftDeleteMessages(msgs: seq<Message>, uid: string) returns (kept: seq<Message>)
    ensures kept == DeleteAll(msgs, uid)
  {
    kept := [];
    var i := 0;
    while i < |msgs|
      invariant 0 <= i <= |msgs|
      invariant kept == DeleteAll(msgs[..i], uid)
    {
      var m := msgs[i];
      var updated := UpdatedDeleteBy(m.deleteBy, uid);
      DeleteAllStep(msgs, i, uid, kept);
      if |updated| < 2 {
        kept := kept + [m.(deleteBy := Some(updated))];
      }
      i := i + 1;
    }
    assert msgs[..i] == msgs;
  }

  /** A message that survives a delete step carries the deleting user alone. */
  lemma SurvivorCarriesOnlyDeleter(m: Message, uid: string)
    requires DeleteStep(m, uid).Some?
    ensures DeleteStep(m, uid).value.deleteBy == Some([uid])
  {
    var u := UpdatedDeleteBy(m.deleteBy, uid);
    assert |u| == 1;
    assert u == [u[0]];
  }

  /** Every message left in the chat after a delete has the deleting user in its list. */
  lemma {:induction false} SurvivorsMarked(msgs: seq<Message>, uid: string)
    ensures forall m :: m in DeleteAll(msgs, uid) ==> m.deleteBy == Some([uid])
    decreases |msgs|
  {
    if msgs != [] {
      SurvivorsMarked(msgs[..|msgs| - 1], uid);
      var last := msgs[|msgs| - 1];
      if DeleteStep(last, uid).Some? {
        SurvivorCarriesOnlyDeleter(last, uid);
      }
    }
  }

  /** Every message left after a delete is one of the chat's own messages, with the
      deleting user as its only list entry: the delete never makes up content. */
  lemma {:induction false} SurvivorsComeFromChat(msgs: seq<Message>, uid: string)
    ensures forall k :: k in DeleteAll(msgs, uid) ==> exists m :: m in msgs && k == m.(deleteBy := Some([uid]))
    decreases |msgs|
  {
    if msgs != [] {
      var init, last := msgs[..|msgs| - 1], msgs[|msgs| - 1];
      SurvivorsComeFromChat(init, uid);
      forall k | k in DeleteAll(msgs, uid) ensures exists m :: m in msgs && k == m.(deleteBy := Some([uid])) {
        if k in DeleteAll(init, uid) {
          var m :| m in init && k == m.(deleteBy := Some([uid]));
          assert m in msgs;
        } else {
          assert k in StepList(last, uid);
          assert last in msgs;
        }
      }
    }
  }

  /** After a delete, none of the chat's messages is in the user's feed any more. */
  lemma DeletedChatLooksEmpty(msgs: seq<Message>, uid: string)
    ensures ChatArea.VisibleFeed(DeleteAll(msgs, uid), uid) == []
  {
    SurvivorsMarked(msgs, uid);
    var r := DeleteAll(msgs, uid);
    forall i | 0 <= i < |r| ensures !ChatArea.VisibleTo(uid, r[i]) {
      assert r[i] in r;
    }
    FilterRejectsAll(r, (m: Message) => ChatArea.VisibleTo(uid, m));
  }

  /** Deleting the same chat twice is deleting it once. */
  lemma {:induction false} DeleteAllIdempotent(msgs: seq<Message>, uid: string)
    ensures DeleteAll(DeleteAll(msgs, uid), uid) == DeleteAll(msgs, uid)
    decreases |msgs|
  {
    if msgs != [] {
      var init := msgs[..|msgs| - 1];
      var last := msgs[|msgs| - 1];
      DeleteAllIdempotent(init, uid);
      DeleteAllAppend(DeleteAll(init, uid), StepList(last, uid), uid);
      if DeleteStep(last, uid).Some? {
        SurvivorCarriesOnlyDeleter(last, uid);
        var k := DeleteStep(last, uid).value;
        assert DeleteAll([k], uid) == DeleteAll([], uid) + StepList(k, uid);
      }
    }
  }

  /** The last message contributes its own delete step at the end, also after a prefix. */
  lemma DeleteAllLast(a: seq<Message>, init: seq<Message>, last: Message, uid: string)
    ensures DeleteAll(a + (init + [last]), uid) == DeleteAll(a + init, uid) + StepList(last, uid)
  {
    var ab := a + (init + [last]);
    assert ab[..|ab| - 1] == a + init;
    assert ab[|ab| - 1] == last;
    DeleteAllUnfold(ab, uid);
  }

  lemma DeleteAllUnfold(msgs: seq<Message>, uid: string)
    requires msgs != []
    ensures DeleteAll(msgs, uid) == DeleteAll(msgs[..|msgs| - 1], uid) + StepList(msgs[|msgs| - 1], uid)
  {
  }

  /** The delete step distributes over concatenation. */
  lemma {:induction false} DeleteAllAppend(a: seq<Message>, b: seq<Message>, uid: string)
    ensures DeleteAll(a + b, uid) == DeleteAll(a, uid) + DeleteAll(b, uid)
    decreases |b|
  {
    if b == [] {
      assert a + b == a;
    } else {
      var init, last := b[..|b| - 1], b[|b| - 1];
      assert b == init + [last];
      DeleteAllLast(a, init, last, uid);
      DeleteAllLast([], init, last, uid);
      assert [] + init == init && [] + (init + [last]) == b;
      DeleteAllAppend(a, init, uid);
      ConcatAssoc(DeleteAll(a, uid), DeleteAll(init, uid), StepList(last, uid));
    }
  }

  lemma ConcatAssoc(x: seq<Message>, y: seq<Message>, z: seq<Message>)
    ensures (x + y) + z == x + (y + z)
  {
  }

  /** A message that survived one participant's delete goes with the other's. */
  lemma SecondDeleteRemoves(m: Message, a: string, b: string)
    requires a != b
    ensures DeleteAll(StepList(m, a), b) == []
  {
    if DeleteStep(m, a).Some? {
      SurvivorCarriesOnlyDeleter(m, a);
      var k := DeleteStep(m, a).value;
      assert UpdatedDeleteBy(k.deleteBy, b) == [a, b];
      assert StepList(m, a) == [k];
      assert DeleteAll([k], b) == DeleteAll([], b) + StepList(k, b);
    }
  }

  /** Once both participants have deleted the chat, no message document is left. */
  lemma {:induction false} BothDeletesEmptyChat(msgs: seq<Message>, a: string, b: string)
    requires a != b
    ensures DeleteAll(DeleteAll(msgs, a), b) == []
    decreases |msgs|
  {
    if msgs != [] {
      var init := msgs[..|msgs| - 1];
      var last := msgs[|msgs| - 1];
      BothDeletesEmptyChat(init, a, b);
      DeleteAllAppend(DeleteAll(init, a), StepList(last, a), b);
      SecondDeleteRemoves(last, a, b);
    }
  }

  // ---------------------------------------------------------------------------------
  // Deriving the friend list from accepted requests

  /** Which field of a request names the friend: `data[key]`. */
  datatype PartyKey = SenderUid | ReceiverUid

  function PartyOf(d: FriendRequest, key: PartyKey): string {
    match key
    case SenderUid => d.senderUid
    case ReceiverUid => d.receiverUid
  }

  /** `uniqueFriends.has(friendUid)`. */
  predicate HasKey(entries: seq<Friend>, uid: string) {
    exists i | 0 <= i < |entries| :: entries[i].friendUid == uid
  }

  /** At most one entry per `friendUid`, as in a `Map` keyed by it. */
  ghost predicate DistinctKeys(entries: seq<Friend>) {
    forall i, j :: 0 <= i < j < |entries| ==> entries[i].friendUid != entries[j].friendUid
  }

  /** One request document taken into the map: a party not seen yet is added at the end,
      with the request's id and the display name found for it (`profile`). */
  function Insert(entries: seq<Friend>, d: FriendRequest, key: PartyKey, profile: string -> Option<string>): (r: seq<Friend>)
    ensures HasKey(r, PartyOf(d, key))
    ensures |entries| <= |r| <= |entries| + 1 && r[..|entries|] == entries
    ensures |r| == |entries| + 1 <==> !HasKey(entries, PartyOf(d, key))
  {
    var uid := PartyOf(d, key);
    if HasKey(entries, uid) then entries
    else
      var r := entries + [Friend(d.id, uid, profile(uid))];
      assert r[|entries|].friendUid == uid;
      r
  }

  /** The map's values, in insertion order, after the documents of a snapshot. */
  function AbsorbSpec(entries: seq<Friend>, docs: seq<FriendRequest>, key: PartyKey,
                      profile: string -> Option<string>): (r: seq<Friend>)
    ensures |entries| <= |r| <= |entries| + |docs|
    decreases |docs|
  {
    if docs == [] then entries
    else Insert(AbsorbSpec(entries, docs[..|docs| - 1], key, profile), docs[|docs| - 1], key, profile)
  }

  /** The derived friend list never has two entries for the same friend. */
  lemma {:induction false} AbsorbKeepsKeysDistinct(entries: seq<Friend>, docs: seq<FriendRequest>, key: PartyKey,
                                                   profile: string -> Option<string>)
    requires DistinctKeys(entries)
    ensures DistinctKeys(AbsorbSpec(entries, docs, key, profile))
    decreases |docs|
  {
    if docs != [] {
      AbsorbKeepsKeysDistinct(entries, docs[..|docs| - 1], key, profile);
    }
  }

  /** Entries are only ever added: what the map held stays, in place. */
  lemma {:induction false} AbsorbExtends(entries: seq<Friend>, docs: seq<FriendRequest>, key: PartyKey,
                                        profile: string -> Option<string>)
    ensures |entries| <= |AbsorbSpec(entries, docs, key, profile)|
    ensures AbsorbSpec(entries, docs, key, profile)[..|entries|] == entries
    decreases |docs|
  {
    if docs != [] {
      AbsorbExtends(entries, docs[..|docs| - 1], key, profile);
    }
  }

  /** One document adds at most its own party to the keys. */
  lemma InsertKeys(entries: seq<Friend>, d: FriendRequest, key: PartyKey, profile: string -> Option<string>, uid: string)
    ensures HasKey(Insert(entries, d, key, profile), uid) <==> HasKey(entries, uid) || PartyOf(d, key) == uid
  {
    var after := Insert(entries, d, key, profile);
    if !HasKey(entries, PartyOf(d, key)) {
      assert after[|entries|].friendUid == PartyOf(d, key);
      if HasKey(after, uid) {
        var i :| 0 <= i < |after| && after[i].friendUid == uid;
        if i < |entries| {
          assert entries[i] == after[i];
        }
      }
      if HasKey(entries, uid) {
        var i :| 0 <= i < |entries| && entries[i].friendUid == uid;
        assert after[i] == entries[i];
      }
    }
  }

  /** A friend is in the map afterwards exactly when it was before or some document names
      it in the key field. */
  lemma {:induction false} AbsorbKeys(entries: seq<Friend>, docs: seq<FriendRequest>, key: PartyKey,
                                     profile: string -> Option<string>, uid: string)
    ensures HasKey(AbsorbSpec(entries, docs, key, profile), uid)
            <==> HasKey(entries, uid) || exists i :: 0 <= i < |docs| && PartyOf(docs[i], key) == uid
    decreases |docs|
  {
    if docs != [] {
      var init := docs[..|docs| - 1];
      var last := docs[|docs| - 1];
      AbsorbKeys(entries, init, key, profile, uid);
      InsertKeys(AbsorbSpec(entries, init, key, profile), last, key, profile, uid);
      assert forall i :: 0 <= i < |init| ==> init[i] == docs[i];
      if exists i :: 0 <= i < |docs| && PartyOf(docs[i], key) == uid {
        var i :| 0 <= i < |docs| && PartyOf(docs[i], key) == uid;
        if i < |init| {
          assert PartyOf(init[i], key) == uid;
        }
      }
    }
  }

  /** Every entry the snapshot added comes from one of its documents: the request's id,
      the party in the key field, and that party's display name. */
  lemma {:induction false} AbsorbedEntriesComeFromDocs(entries: seq<Friend>, docs: seq<FriendRequest>, key: PartyKey,
                                                      profile: string -> Option<string>, j: int)
    requires |entries| <= j < |AbsorbSpec(entries, docs, key, profile)|
    ensures exists i :: 0 <= i < |docs|
                        && AbsorbSpec(entries, docs, key, profile)[j]
                           == Friend(docs[i].id, PartyOf(docs[i], key), profile(PartyOf(docs[i], key)))
    decreases |docs|
  {
    var init := docs[..|docs| - 1];
    var before := AbsorbSpec(entries, init, key, profile);
    AbsorbExtends(before, [docs[|docs| - 1]], key, profile);
    if j < |before| {
      AbsorbExtends(entries, init, key, profile);
      AbsorbedEntriesComeFromDocs(entries, init, key, profile, j);
      var i :| 0 <= i < |init| && before[j] == Friend(init[i].id, PartyOf(init[i], key), profile(PartyOf(init[i], key)));
      assert init[i] == docs[i];
    }
  }

  /** The receiver-side query: accepted requests the user received. */
  function AcceptedReceivedBy(reqs: seq<FriendRequest>, uid: string): (r: seq<FriendRequest>)
    ensures forall x :: x in r <==> x in reqs && x.status == Accepted && x.receiverUid == uid
  {
    Filter(reqs, (x: FriendRequest) => x.status == Accepted && x.receiverUid == uid)
  }

  /** The sender-side query: accepted requests the user sent. */
  function AcceptedSentBy(reqs: seq<FriendRequest>, uid: string): (r: seq<FriendRequest>)
    ensures forall x :: x in r <==> x in reqs && x.status == Accepted && x.senderUid == uid
  {
    Filter(reqs, (x: FriendRequest) => x.status == Accepted && x.senderUid == uid)
  }

  /** From requests the user received the friend is the sender; from requests the user sent
      it is the receiver. Either way each new entry is the other party of an accepted
      request that involves the user. */
  lemma FriendIsOtherParty(entries: seq<Friend>, reqs: seq<FriendRequest>, me: string,
                           profile: string -> Option<string>, j: int)
    ensures var r := AbsorbSpec(entries, AcceptedReceivedBy(reqs, me), SenderUid, profile);
            |entries| <= j < |r| ==>
              exists d :: d in reqs && d.status == Accepted && d.receiverUid == me
                          && r[j].id == d.id && r[j].friendUid == d.senderUid
    ensures var r := AbsorbSpec(entries, AcceptedSentBy(reqs, me), ReceiverUid, profile);
            |entries| <= j < |r| ==>
              exists d :: d in reqs && d.status == Accepted && d.senderUid == me
                          && r[j].id == d.id && r[j].friendUid == d.receiverUid
  {
    var received := AcceptedReceivedBy(reqs, me);
    var r1 := AbsorbSpec(entries, received, SenderUid, profile);
    if |entries| <= j < |r1| {
      AbsorbedEntriesComeFromDocs(entries, received, SenderUid, profile, j);
      var i :| 0 <= i < |received| && r1[j] == Friend(received[i].id, received[i].senderUid, profile(received[i].senderUid));
      assert received[i] in received;
    }
    var sent := AcceptedSentBy(reqs, me);
    var r2 := AbsorbSpec(entries, sent, ReceiverUid, profile);
    if |entries| <= j < |r2| {
      AbsorbedEntriesComeFromDocs(entries, sent, ReceiverUid, profile, j);
      var i :| 0 <= i < |sent| && r2[j] == Friend(sent[i].id, sent[i].receiverUid, profile(sent[i].receiverUid));
      assert sent[i] in sent;
    }
  }

  /** The `uniqueFriends` map shared by both snapshot listeners. */
  class FriendIndex {
    var entries: seq<Friend>

    constructor ()
      ensures entries == []
    {
      entries := [];
    }

    /** `fetchFriendsData(snapshot, key)`, one document after another. */
    method Absorb(docs: seq<FriendRequest>, key: PartyKey, profile: string -> Option<string>)
      modifies this
      ensures entries == AbsorbSpec(old(entries), docs, key, profile)
    {
      var i := 0;
      while i < |docs|
        invariant 0 <= i <= |docs|
        invariant entries == AbsorbSpec(old(entries), docs[..i], key, profile)
      {
        var d := docs[i];
        var friendUid := PartyOf(d, key);
        assert docs[..i + 1][..i] == docs[..i];
        if !HasKey(entries, friendUid) {
          entries := entries + [Friend(d.id, friendUid, profile(friendUid))];
        }
        i := i + 1;
      }
      assert docs[..i] == docs;
    }
  }

  /** Two accepted requests with the same friend: the one met first names the entry, and
      the second leaves the map as the first made it. */
  lemma FirstRequestWins(entries: seq<Friend>, a: FriendRequest, b: FriendRequest, key: PartyKey,
                         profile: string -> Option<string>)
    requires PartyOf(a, key) == PartyOf(b, key)
    ensures AbsorbSpec(entries, [a, b], key, profile) == Insert(entries, a, key, profile)
  {
    assert [a, b][..1] == [a];
    assert [a][..0] == [];
    assert AbsorbSpec(entries, [], key, profile) == entries;
    var one := AbsorbSpec(entries, [a], key, profile);
    assert one == Insert(entries, a, key, profile);
    assert HasKey(one, PartyOf(b, key));
    assert AbsorbSpec(entries, [a, b], key, profile) == Insert(one, b, key, profile);
  }

  // ---------------------------------------------------------------------------------
  // Search

  /** `friend?.displayName?.toLowerCase().includes(searchTerm.toLowerCase())`. */
  predicate Matches(f: Friend, term: string) {
    f.displayName.Some? && Contains(ToLower(f.displayName.value), ToLower(term))
  }

  /** The friends whose display name contains the term, ignoring case, in list order. */
  function SearchFriends(friends: seq<Friend>, term: string): (r: seq<Friend>)
    ensures forall f :: f in r <==> f in friends && Matches(f, term)
    ensures SubsequenceOf(r, friends)
  {
    FilterIsSubsequence(friends, (f: Friend) => Matches(f, term));
    Filter(friends, (f: Friend) => Matches(f, term))
  }

  /** An empty search keeps exactly the friends that have a display name, in order. */
  lemma EmptySearchKeepsNamed(friends: seq<Friend>)
    ensures SearchFriends(friends, "") == Filter(friends, (f: Friend) => f.displayName.Some?)
  {
    forall i | 0 <= i < |friends| && friends[i].displayName.Some?
      ensures Matches(friends[i], "")
    {
      ContainsEmpty(ToLower(friends[i].displayName.value));
    }
    FilterSamePredicate(friends, (f: Friend) => Matches(f, ""), (f: Friend) => f.displayName.Some?);
  }

  /** Case does not matter: a term and its lower-case form find the same friends. */
  lemma SearchIgnoresCase(friends: seq<Friend>, term: string)
    ensures SearchFriends(friends, ToLower(term)) == SearchFriends(friends, term)
  {
    assert ToLower(ToLower(term)) == ToLower(term);
    FilterSamePredicate(friends, (f: Friend) => Matches(f, ToLower(term)), (f: Friend) => Matches(f, term));
  }

  // ---------------------------------------------------------------------------------
  // The browser cache

  /** `f.id !== friendId`, as the cache edit filters. */
  function NotWithId(friendId: string): Friend -> bool {
    (f: Friend) => f.id != friendId
  }

  /** The first saved friend with that id: `parsedFriends.find(f => f.id === recent)`. */
  function FindById(friends: seq<Friend>, id: string): (r: Option<Friend>)
    ensures r.None? <==> forall i :: 0 <= i < |friends| ==> friends[i].id != id
    ensures r.Some? ==> r.value in friends && r.value.id == id
    ensures r.Some? ==> exists i :: 0 <= i < |friends| && friends[i] == r.value
                                    && forall j :: 0 <= j < i ==> friends[j].id != id
  {
    if friends == [] then None
    else if friends[0].id == id then Some(friends[0])
    else
      var r := FindById(friends[1..], id);
      assert forall i :: 1 <= i < |friends| ==> friends[i] == friends[1..][i - 1];
      assert r.Some? ==> exists i :: 1 <= i < |friends| && friends[i] == r.value
                                     && forall j :: 0 <= j < i ==> friends[j].id != id;
      r
  }

  /** The friend the warm start reopens: only a non-empty cached id that some saved friend
      carries. */
  function RestoredRecent(saved: seq<Friend>, recent: Option<string>): (r: Option<Friend>)
    ensures r.Some? ==> recent.Some? && r.value in saved && r.value.id == recent.value
    ensures r.Some? ==> exists i :: 0 <= i < |saved| && saved[i] == r.value
                                    && forall j :: 0 <= j < i ==> saved[j].id != recent.value
    ensures r.None? <==> recent.None? || recent.value == "" || forall i :: 0 <= i < |saved| ==> saved[i].id != recent.value
  {
    if recent.None? || recent.value == "" then None else FindById(saved, recent.value)
  }

  /** The two `localStorage` entries: "acceptedFriends" (absent, or a saved list) and
      "recentFriend" (absent, or an id). */
  class LocalCache {
    var savedFriends: Option<seq<Friend>>
    var recentFriend: Option<string>

    constructor (savedFriends: Option<seq<Friend>>, recentFriend: Option<string>)
      ensures this.savedFriends == savedFriends && this.recentFriend == recentFriend
    {
      this.savedFriends := savedFriends;
      this.recentFriend := recentFriend;
    }

    /** `removeFriendFromLocalStorage(friendId)`: the saved list (an absent one reads as
        empty) loses the friends with that id and is written back; the recent id is
        removed when it is that id. */
    method RemoveFriendFromLocalStorage(friendId: string)
      modifies this
      ensures savedFriends == Some(Filter(old(savedFriends).GetOr([]), NotWithId(friendId)))
      ensures recentFriend == if old(recentFriend) == Some(friendId) then None else old(recentFriend)
    {
      var stored := savedFriends.GetOr([]);
      stored := Filter(stored, NotWithId(friendId));
      savedFriends := Some(stored);
      if recentFriend == Some(friendId) {
        recentFriend := None;
      }
    }
  }

  /** What the cache edit does to the saved list: exactly the friends with that id go. */
  lemma CacheRemovalExact(saved: seq<Friend>, friendId: string)
    ensures var r := Filter(saved, NotWithId(friendId));
            && (forall f :: f in r <==> f in saved && f.id != friendId)
            && SubsequenceOf(r, saved)
            && FindById(r, friendId).None?
  {
    FilterIsSubsequence(saved, NotWithId(friendId));
    var r := Filter(saved, NotWithId(friendId));
    forall i | 0 <= i < |r| ensures r[i].id != friendId {
      assert r[i] in r;
    }
  }

  /** After removing a friend from the cache, a warm start can no longer reopen that friend. */
  lemma RemovedFriendNotRestored(saved: seq<Friend>, friendId: string, recent: Option<string>)
    ensures var r := RestoredRecent(Filter(saved, NotWithId(friendId)), recent);
            r.Some? ==> r.value.id != friendId
  {
    CacheRemovalExact(saved, friendId);
  }

  /** A removed friend comes back: `removeFriend` takes it out of the store's list, but the
      entry stays in the never-cleared map, so the next snapshot of either listener, whatever
      its documents, puts it back into the list it hands to the store. */
  lemma RemovedFriendReturns(st: FriendState, entries: seq<Friend>, f: Friend, docs: seq<FriendRequest>,
                             key: PartyKey, profile: string -> Option<string>)
    requires f in entries
    ensures f !in RemoveFriendReducer(st, f.id).acceptedFriends
    ensures f in AbsorbSpec(entries, docs, key, profile)
  {
    AbsorbExtends(entries, docs, key, profile);
    var r := AbsorbSpec(entries, docs, key, profile);
    var i :| 0 <= i < |entries| && entries[i] == f;
    assert r[i] == r[..|entries|][i];
  }

  // ---------------------------------------------------------------------------------
  // The component

  /** The component state of the friend list. */
  class MessagesView {
    var filteredFriends: seq<Friend>
    var searchTerm: string
    var selectedFriend: Option<Friend>
    var loading: bool

    /** `filteredFriends` starts as the store's list, nothing is selected, and it is loading. */
    constructor (acceptedFriends: seq<Friend>)
      ensures filteredFriends == acceptedFriends && searchTerm == "" && selectedFriend.None? && loading
    {
      filteredFriends, searchTerm, selectedFriend, loading := acceptedFriends, "", None, true;
    }

    /** The mount effect: a saved list replaces the store's and the shown list, and the
        cached recent friend is reopened when it is among them. */
    method WarmStart(cache: LocalCache, slice: FriendSliceState)
      modifies this, slice
      ensures cache.savedFriends.None? ==>
                && filteredFriends == old(filteredFriends) && selectedFriend == old(selectedFriend)
                && slice.State() == old(slice.State())
      ensures cache.savedFriends.Some? ==>
                var restored := RestoredRecent(cache.savedFriends.value, cache.recentFriend);
                && slice.acceptedFriends == cache.savedFriends.value
                && filteredFriends == cache.savedFriends.value
                && slice.mostRecentFriend == (if restored.Some? then restored else old(slice.mostRecentFriend))
                && selectedFriend == (if restored.Some? then restored else old(selectedFriend))
      ensures searchTerm == old(searchTerm) && !loading
    {
      if cache.savedFriends.Some? {
        var parsed := cache.savedFriends.value;
        slice.SetAcceptedFriends(parsed);
        filteredFriends := parsed;
        var recent := RestoredRecent(parsed, cache.recentFriend);
        if recent.Some? {
          slice.SetMostRecentFriend(recent.value);
          selectedFriend := recent;
        }
      }
      loading := false;
    }

    /** The search box's `onChange`: the term becomes what was typed; the shown list
        follows only when the search effect runs. */
    method SetSearchTerm(t: string)
      modifies this
      ensures searchTerm == t
      ensures filteredFriends == old(filteredFriends) && selectedFriend == old(selectedFriend) && loading == old(loading)
    {
      searchTerm := t;
    }

    /** The search effect: the shown list is the store's list filtered by the term. */
    method ApplySearch(slice: FriendSliceState)
      modifies this
      ensures filteredFriends == SearchFriends(slice.acceptedFriends, searchTerm)
      ensures searchTerm == old(searchTerm) && selectedFriend == old(selectedFriend) && loading == old(loading)
    {
      filteredFriends := SearchFriends(slice.acceptedFriends, searchTerm);
    }

    /** A snapshot of one of the two accepted-request queries: its documents go into the
        shared map, whose values become the store's list, the shown list and the saved list. */
    method OnAcceptedSnapshot(index: FriendIndex, docs: seq<FriendRequest>, key: PartyKey,
                              profile: string -> Option<string>, slice: FriendSliceState, cache: LocalCache)
      modifies this, index, slice, cache
      ensures index.entries == AbsorbSpec(old(index.entries), docs, key, profile)
      ensures slice.acceptedFriends == index.entries && slice.mostRecentFriend == old(slice.mostRecentFriend)
      ensures filteredFriends == index.entries
      ensures cache.savedFriends == Some(index.entries) && cache.recentFriend == old(cache.recentFriend)
      ensures searchTerm == old(searchTerm) && selectedFriend == old(selectedFriend) && !loading
    {
      index.Absorb(docs, key, profile);
      var friendsArray := index.entries;
      slice.SetAcceptedFriends(friendsArray);
      filteredFriends := friendsArray;
      cache.savedFriends := Some(friendsArray);
      loading := false;
    }

    /** `handleFriendClick(friend)`: opens the friend's chat and remembers its id. */
    method HandleFriendClick(friend: Friend, slice: FriendSliceState, cache: LocalCache)
      modifies this, slice, cache
      ensures slice.mostRecentFriend == Some(friend) && slice.acceptedFriends == old(slice.acceptedFriends)
      ensures cache.recentFriend == Some(friend.id) && cache.savedFriends == old(cache.savedFriends)
      ensures selectedFriend == Some(friend)
      ensures filteredFriends == old(filteredFriends) && searchTerm == old(searchTerm) && loading == old(loading)
    {
      slice.SetMostRecentFriend(friend);
      cache.recentFriend := Some(friend.id);
      selectedFriend := Some(friend);
    }

    /** `handleMenuOpen(event, friend)`: the menu acts on that friend. */
    method HandleMenuOpen(friend: Friend)
      modifies this
      ensures selectedFriend == Some(friend)
      ensures filteredFriends == old(filteredFriends) && searchTerm == old(searchTerm) && loading == old(loading)
    {
      selectedFriend := Some(friend);
    }

    /** `handleRemoveFriend()`: for a selected friend with an id, deletes the accepted
        request; only when that succeeds does the friend leave the store's list and the
        cache, and the menu close. */
    method HandleRemoveFriend(store: Store, slice: FriendSliceState, cache: LocalCache, remoteOk: bool)
      modifies this, store`friendRequests, slice, cache
      ensures var acts := old(selectedFriend).Some? && old(selectedFriend).value.id != "" && remoteOk;
              var id := if old(selectedFriend).Some? then old(selectedFriend).value.id else "";
              && (acts ==>
                    && store.friendRequests == WithoutRequest(old(store.friendRequests), id)
                    && slice.State() == RemoveFriendReducer(old(slice.State()), id)
                    && cache.savedFriends == Some(Filter(old(cache.savedFriends).GetOr([]), NotWithId(id)))
                    && cache.recentFriend == (if old(cache.recentFriend) == Some(id) then None else old(cache.recentFriend))
                    && selectedFriend.None?)
              && (!acts ==>
                    && store.friendRequests == old(store.friendRequests)
                    && slice.State() == old(slice.State())
                    && cache.savedFriends == old(cache.savedFriends) && cache.recentFriend == old(cache.recentFriend)
                    && selectedFriend == old(selectedFriend))
      ensures filteredFriends == old(filteredFriends) && searchTerm == old(searchTerm) && loading == old(loading)
    {
      if selectedFriend.Some? && selectedFriend.value.id != "" && remoteOk {
        var id := selectedFriend.value.id;
        store.friendRequests := WithoutRequest(store.friendRequests, id);
        slice.RemoveFriend(id);
        cache.RemoveFriendFromLocalStorage(id);
        selectedFriend := None;
      }
    }

    /** `handleDeleteChat()`: with a selected friend and a signed-in user, every message of
        their chat takes its delete step and the success message is returned; a failed read
        changes nothing. The menu closes either way. A chat with no messages document
        collection is left as it is. */
    method HandleDeleteChat(store: Store, me: Option<string>, readOk: bool) returns (snackbar: Option<string>)
      modifies this, store`messages
      ensures var acts := old(selectedFriend).Some? && me.Some?;
              var chatId := if acts then ChatIdTernary(me.value, old(selectedFriend).value.friendUid) else "";
              && (acts && readOk && chatId in old(store.messages) ==>
                    store.messages == old(store.messages)[chatId := DeleteAll(old(store.messages)[chatId], me.value)])
              && (!(acts && readOk && chatId in old(store.messages)) ==> store.messages == old(store.messages))
              && (snackbar.Some? <==> acts && readOk)
              && (snackbar.Some? ==> snackbar.value == "Chat deleted successfully!")
              && (acts ==> selectedFriend.None?)
              && (!acts ==> selectedFriend == old(selectedFriend))
      ensures filteredFriends == old(filteredFriends) && searchTerm == old(searchTerm) && loading == old(loading)
    {
      snackbar := None;
      if selectedFriend.None? || me.None? {
        return;
      }
      var uid := me.value;
      var chatId := ChatIdTernary(uid, selectedFriend.value.friendUid);
      if readOk {
        if chatId in store.messages {
          var kept := SoftDeleteMessages(store.messages[chatId], uid);
          store.messages := store.messages[chatId := kept];
        }
        snackbar := Some("Chat deleted successfully!");
      }
      selectedFriend := None;
    }
  }

  /** From request to friend: once a pending request is accepted, the receiver's
      listener adds the sender as a friend, under the request's id. */
  lemma AcceptedRequestBecomesFriend(reqs: seq<FriendRequest>, k: int, profile: string -> Option<string>)
    requires 0 <= k < |reqs|
    requires forall i :: 0 <= i < |reqs| && reqs[i].id == reqs[k].id ==> i == k
    ensures var r := reqs[k];
            var accepted := WithStatus(reqs, r.id, Accepted);
            var friends := AbsorbSpec([], AcceptedReceivedBy(accepted, r.receiverUid), SenderUid, profile);
            HasKey(friends, r.senderUid)
  {
    var r := reqs[k];
    var accepted := WithStatus(reqs, r.id, Accepted);
    var docs := AcceptedReceivedBy(accepted, r.receiverUid);
    assert accepted[k] == r.(status := Accepted);
    assert accepted[k] in accepted;
    assert accepted[k] in docs;
    var i :| 0 <= i < |docs| && docs[i] == accepted[k];
    AbsorbKeys([], docs, SenderUid, profile, r.senderUid);
  }

  /** The scenario's first step: "u1" (alice) sends a request to the name "bob". */
  lemma ScenarioSend()
    ensures Requests.AfterSend([UserDoc("u1", "alice"), UserDoc("u2", "bob")], [], Some(AuthUser("u1", Some("alice"))),
                               "bob", None, "r1", 0)
            == [FriendRequest("r1", "u1", Some("alice"), "u2", "bob", Pending, 0)]
  {
    var users := [UserDoc("u1", "alice"), UserDoc("u2", "bob")];
    TrimOfTrimmed("bob");
    assert Requests.FirstUserNamed(users, "bob") == Some("u2");
    assert Requests.AcceptedBetween([], "u1", "u2") == [];
    assert Requests.PendingFromTo([], "u1", "u2") == [];
  }

  /** One accepted request between "u1" and "u2" makes each the other's only friend,
      whichever listener runs. */
  lemma ScenarioFriends(profile: string -> Option<string>)
    ensures var accepted := [FriendRequest("r1", "u1", Some("alice"), "u2", "bob", Accepted, 0)];
            && AbsorbSpec(AbsorbSpec([], AcceptedReceivedBy(accepted, "u1"), SenderUid, profile),
                          AcceptedSentBy(accepted, "u1"), ReceiverUid, profile)
               == [Friend("r1", "u2", profile("u2"))]
            && AbsorbSpec(AbsorbSpec([], AcceptedReceivedBy(accepted, "u2"), SenderUid, profile),
                          AcceptedSentBy(accepted, "u2"), ReceiverUid, profile)
               == [Friend("r1", "u1", profile("u1"))]
  {
    var req := FriendRequest("r1", "u1", Some("alice"), "u2", "bob", Accepted, 0);
    var accepted := [req];
    assert req !in AcceptedReceivedBy(accepted, "u1");
    assert AcceptedReceivedBy(accepted, "u1") == [];
    assert AcceptedSentBy(accepted, "u1") == [req];
    assert AcceptedReceivedBy(accepted, "u2") == [req];
    assert req !in AcceptedSentBy(accepted, "u2");
    assert AcceptedSentBy(accepted, "u2") == [];
    assert [req][..0] == [];
    assert AbsorbSpec([], [req], ReceiverUid, profile) == Insert([], req, ReceiverUid, profile);
    assert AbsorbSpec([], [req], SenderUid, profile) == Insert([], req, SenderUid, profile);
    assert !HasKey([], "u1") && !HasKey([], "u2");
  }

  /** The scenario's second step: "u2" accepts the request. */
  lemma ScenarioAccept()
    ensures WithStatus([FriendRequest("r1", "u1", Some("alice"), "u2", "bob", Pending, 0)], "r1", Accepted)
            == [FriendRequest("r1", "u1", Some("alice"), "u2", "bob", Accepted, 0)]
  {
  }

  /** Both users compute the chat id "u1_u2". */
  lemma ScenarioChatId()
    ensures ChatArea.ChatId("u1", "u2") == "u1_u2" && ChatIdTernary("u2", "u1") == "u1_u2"
  {
    assert LexLess("u1", "u2") by {
      assert "u1"[1..] == "1" && "u2"[1..] == "2";
    }
    TernaryMatchesSortJoin("u2", "u1");
    ChatArea.ChatIdSymmetric("u1", "u2");
    assert ChatIdTernary("u1", "u2") == "u1_u2";
  }

  /** Two users end to end: "u1" (alice) sends a request to the name "bob", "u2" accepts
      it, and each one's listeners (received requests first, then sent ones) list the
      other exactly once; both compute the chat id "u1_u2". */
  lemma EndToEndScenario(profile: string -> Option<string>)
    ensures var sent := Requests.AfterSend([UserDoc("u1", "alice"), UserDoc("u2", "bob")], [],
                                           Some(AuthUser("u1", Some("alice"))), "bob", None, "r1", 0);
            var accepted := WithStatus(sent, "r1", Accepted);
            && sent == [FriendRequest("r1", "u1", Some("alice"), "u2", "bob", Pending, 0)]
            && accepted == [FriendRequest("r1", "u1", Some("alice"), "u2", "bob", Accepted, 0)]
            && AbsorbSpec(AbsorbSpec([], AcceptedReceivedBy(accepted, "u1"), SenderUid, profile),
                          AcceptedSentBy(accepted, "u1"), ReceiverUid, profile)
               == [Friend("r1", "u2", profile("u2"))]
            && AbsorbSpec(AbsorbSpec([], AcceptedReceivedBy(accepted, "u2"), SenderUid, profile),
                          AcceptedSentBy(accepted, "u2"), ReceiverUid, profile)
               == [Friend("r1", "u1", profile("u1"))]
            && ChatArea.ChatId("u1", "u2") == "u1_u2" && ChatIdTernary("u2", "u1") == "u1_u2"
  {
    ScenarioSend();
    ScenarioAccept();
    ScenarioFriends(profile);
    ScenarioChatId();
  }
}
