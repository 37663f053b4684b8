/** src/redux/reducers/userSlice.ts: the store slice holding the signed-in user's profile. */
module UserSlice {
  import opened Base

  /** The four profile fields, each possibly `null`. */
  datatype UserState = UserState(
    uid: Option<string>,
    displayName: Option<string>,
    photoURL: Option<string>,
    email: Option<string>)

  /** `initialState`: every field `null`. */
  const InitialState := UserState(None, None, None, None)

  /** What `setUser(payload)` makes of a state: a payload's four fields, or all `null`. */
  function SetUserReducer(s: UserState, payload: Option<UserState>): (r: UserState)
    ensures payload.Some? ==> r.uid == payload.value.uid && r.displayName == payload.value.displayName
                              && r.photoURL == payload.value.photoURL && r.email == payload.value.email
    ensures payload.None? ==> r.uid.None? && r.displayName.None? && r.photoURL.None? && r.email.None?
  {
    match payload
    case Some(p) => UserState(p.uid, p.displayName, p.photoURL, p.email)
    case None => UserState(None, None, None, None)
  }

  /** `setUser(null)` brings the slice back to `initialState`. */
  lemma SetUserNullIsInitial(s: UserState)
    ensures SetUserReducer(s, None) == InitialState
  {
  }

  /** The new state depends on the payload only, and a second identical call changes nothing. */
  lemma SetUserForgetsPrior(s: UserState, t: UserState, payload: Option<UserState>)
    ensures SetUserReducer(s, payload) == SetUserReducer(t, payload)
    ensures SetUserReducer(SetUserReducer(s, payload), payload) == SetUserReducer(s, payload)
  {
  }

  /** The slice as the store holds it. */
  class UserSliceState {
    var uid: Option<string>
    var displayName: Option<string>
    var photoURL: Option<string>
    var email: Option<string>

    function State(): UserState
      reads this
    {
      UserState(uid, displayName, photoURL, email)
    }

    constructor ()
      ensures State() == InitialState
    {
      uid, displayName, photoURL, email := None, None, None, None;
    }

    /** `setUser(payload)`: assigns the four fields, from the payload or to `null`. */
    method SetUser(payload: Option<UserState>)
      modifies this
      ensures State() == SetUserReducer(old(State()), payload)
    {
      if payload.Some? {
        uid := payload.value.uid;
        displayName := payload.value.displayName;
        photoURL := payload.value.photoURL;
        email := payload.value.email;
      } else {
        uid := None;
        displayName := None;
        photoURL := None;
        email := None;
      }
    }
  }
}
