/** The hosted document database, reduced to the collections the client touches and
    to the effect of the calls it makes on them (`addDoc`, `setDoc`, `updateDoc`,
    `deleteDoc`). Queries are functions over the collections; a document's place in
    its sequence is the order in which the database returns it. */
module DocumentStore {
  import opened Base
  import opened Types

  class Store {
    /** The `users` collection. */
    var users: seq<UserDoc>
    /** The `friendRequests` collection. */
    var friendRequests: seq<FriendRequest>
    /** `chats/{chatId}/messages`, ordered by timestamp. */
    var messages: map<string, seq<Message>>
    /** The `chats/{chatId}` documents. */
    var chats: map<string, ChatMeta>

    constructor (users: seq<UserDoc>, friendRequests: seq<FriendRequest>)
      ensures this.users == users && this.friendRequests == friendRequests
      ensures messages == map[] && chats == map[]
    {
      this.users := users;
      this.friendRequests := friendRequests;
      messages := map[];
      chats := map[];
    }
  }

  /** The documents of a chat's `messages` sub-collection; a chat nobody wrote to has none. */
  function MessagesOf(messages: map<string, seq<Message>>, chatId: string): (r: seq<Message>)
    ensures chatId !in messages ==> r == []
  {
    if chatId in messages then messages[chatId] else []
  }

  /** `updateDoc(doc(db, "friendRequests", id), { status })`: only the `status` field of
      the request with that id changes. */
  function WithStatus(reqs: seq<FriendRequest>, id: string, status: Status): (r: seq<FriendRequest>)
    ensures |r| == |reqs|
  {
    seq(|reqs|, i requires 0 <= i < |reqs| => if reqs[i].id == id then reqs[i].(status := status) else reqs[i])
  }

  /** `deleteDoc(doc(db, "friendRequests", id))`. */
  function WithoutRequest(reqs: seq<FriendRequest>, id: string): (r: seq<FriendRequest>)
    ensures forall x :: x in r <==> x in reqs && x.id != id
    ensures SubsequenceOf(r, reqs)
  {
    FilterIsSubsequence(reqs, (x: FriendRequest) => x.id != id);
    Filter(reqs, (x: FriendRequest) => x.id != id)
  }

  /** Setting a status touches nothing but the status of the named request. */
  lemma WithStatusOnlyTouchesStatus(reqs: seq<FriendRequest>, id: string, status: Status, i: int)
    requires 0 <= i < |reqs|
    ensures WithStatus(reqs, id, status)[i].(status := reqs[i].status) == reqs[i]
    ensures WithStatus(reqs, id, status)[i].status == if reqs[i].id == id then status else reqs[i].status
  {
  }

  /** Updating an id no request carries (the call fails in the database) changes nothing. */
  lemma WithStatusOfMissingId(reqs: seq<FriendRequest>, id: string, status: Status)
    requires forall x :: x in reqs ==> x.id != id
    ensures WithStatus(reqs, id, status) == reqs
  {
  }

  /** Every document the status update yields is an old one, or an old one with the
      given id and the new status. */
  lemma WithStatusElements(reqs: seq<FriendRequest>, id: string, status: Status, x: FriendRequest)
    requires x in WithStatus(reqs, id, status)
    ensures x in reqs || exists y :: y in reqs && y.id == id && x == y.(status := status)
  {
    var r := WithStatus(reqs, id, status);
    var i :| 0 <= i < |r| && r[i] == x;
    assert reqs[i] in reqs;
  }
}
