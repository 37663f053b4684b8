/** src/redux/reducers/friendSlice.ts: the store slice holding the accepted friends and
    the friend whose chat is open. The reducers assign the slice's fields in place. */
module FriendSlice {
  import opened Base
  import opened Types

  /** The slice's state as a value. */
  datatype FriendState = FriendState(acceptedFriends: seq<Friend>, mostRecentFriend: Option<Friend>)

  /** `initialState`: no friends, no open chat. */
  const InitialState := FriendState([], None)

  /** `f.id !== id`, the test `removeFriend` filters with. */
  function KeepsOtherThan(id: string): Friend -> bool {
    (f: Friend) => f.id != id
  }

  /** What `removeFriend(id)` makes of a state: the friends with that id go, the others keep
      their order; an open chat with that friend falls back to the first remaining friend,
      or to none. */
  function RemoveFriendReducer(s: FriendState, id: string): (r: FriendState)
    ensures forall f :: f in r.acceptedFriends <==> f in s.acceptedFriends && f.id != id
    ensures s.mostRecentFriend.Some? && s.mostRecentFriend.value.id == id ==>
              r.mostRecentFriend == if r.acceptedFriends == [] then None else Some(r.acceptedFriends[0])
    ensures !(s.mostRecentFriend.Some? && s.mostRecentFriend.value.id == id) ==>
              r.mostRecentFriend == s.mostRecentFriend
  {
    var remaining := Filter(s.acceptedFriends, KeepsOtherThan(id));
    var recent :=
      if s.mostRecentFriend.Some? && s.mostRecentFriend.value.id == id then
        (if |remaining| > 0 then Some(remaining[0]) else None)
      else s.mostRecentFriend;
    FriendState(remaining, recent)
  }

  /** After `removeFriend(id)` no friend has that id, and the others keep their relative
      order and every copy. */
  lemma RemoveFriendOrder(s: FriendState, id: string)
    ensures forall i :: 0 <= i < |RemoveFriendReducer(s, id).acceptedFriends| ==>
              RemoveFriendReducer(s, id).acceptedFriends[i].id != id
    ensures SubsequenceOf(RemoveFriendReducer(s, id).acceptedFriends, s.acceptedFriends)
    ensures forall f :: multiset(RemoveFriendReducer(s, id).acceptedFriends)[f] ==
                          if f.id != id then multiset(s.acceptedFriends)[f] else 0
  {
    FilterIsSubsequence(s.acceptedFriends, KeepsOtherThan(id));
    FilterMultiplicity(s.acceptedFriends, KeepsOtherThan(id));
    var r := RemoveFriendReducer(s, id).acceptedFriends;
    forall i | 0 <= i < |r| ensures r[i].id != id {
      assert r[i] in r;
    }
  }

  /** The open chat never points at the removed friend afterwards; and when it was one of
      the friends before, it still is one. */
  lemma RemoveFriendClearsRecent(s: FriendState, id: string)
    ensures var r := RemoveFriendReducer(s, id);
            r.mostRecentFriend.Some? ==> r.mostRecentFriend.value.id != id
    ensures var r := RemoveFriendReducer(s, id);
            (s.mostRecentFriend.Some? ==> s.mostRecentFriend.value in s.acceptedFriends) ==>
              (r.mostRecentFriend.Some? ==> r.mostRecentFriend.value in r.acceptedFriends)
  {
    var r := RemoveFriendReducer(s, id);
    if r.acceptedFriends != [] {
      assert r.acceptedFriends[0] in r.acceptedFriends;
    }
  }

  /** Removing the same friend twice is removing it once. */
  lemma RemoveFriendIdempotent(s: FriendState, id: string)
    ensures RemoveFriendReducer(RemoveFriendReducer(s, id), id) == RemoveFriendReducer(s, id)
  {
    FilterIdempotent(s.acceptedFriends, KeepsOtherThan(id));
  }

  /** Removing an id no friend has changes nothing, unless the open chat carries that id. */
  lemma RemoveAbsentFriend(s: FriendState, id: string)
    requires forall i :: 0 <= i < |s.acceptedFriends| ==> s.acceptedFriends[i].id != id
    requires s.mostRecentFriend.Some? ==> s.mostRecentFriend.value.id != id
    ensures RemoveFriendReducer(s, id) == s
  {
    FilterKeepsAll(s.acceptedFriends, KeepsOtherThan(id));
  }

  /** The slice as the store holds it. */
  class FriendSliceState {
    var acceptedFriends: seq<Friend>
    var mostRecentFriend: Option<Friend>

    function State(): FriendState
      reads this
    {
      FriendState(acceptedFriends, mostRecentFriend)
    }

    /** The slice starts in `initialState`. */
    constructor ()
      ensures State() == InitialState
    {
      acceptedFriends := [];
      mostRecentFriend := None;
    }

    /** `setAcceptedFriends(payload)`: replaces the list, keeps the open chat. */
    method SetAcceptedFriends(payload: seq<Friend>)
      modifies this
      ensures acceptedFriends == payload
      ensures mostRecentFriend == old(mostRecentFriend)
    {
      acceptedFriends := payload;
    }

    /** `setMostRecentFriend(payload)`: opens that friend's chat, keeps the list. */
    method SetMostRecentFriend(payload: Friend)
      modifies this
      ensures mostRecentFriend == Some(payload)
      ensures acceptedFriends == old(acceptedFriends)
    {
      mostRecentFriend := Some(payload);
    }

    /** `removeFriend(id)`: the list is filtered first, and the fallback reads the new list. */
    method RemoveFriend(id: string)
      modifies this
      ensures State() == RemoveFriendReducer(old(State()), id)
    {
      acceptedFriends := Filter(acceptedFriends, KeepsOtherThan(id));
      if mostRecentFriend.Some? && mostRecentFriend.value.id == id {
        mostRecentFriend := if |acceptedFriends| > 0 then Some(acceptedFriends[0]) else None;
      }
    }
  }
}
