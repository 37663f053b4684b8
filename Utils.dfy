/** src/utils/Utils.tsx: the three form validators, the tab and tab-panel ids, and the
    request transitions accept, reject and cancel. */
module Utils {
  import opened Base
  import opened Strings
  import opened Types
  import opened DocumentStore
  import Requests

  const EmailRequired := "Email is required."
  const EmailInvalid := "Please enter a valid email address."
  const PasswordRequired := "Password is required."
  const UsernameRequired := "Username is required."

  /** A run of `[^\s@]`: no whitespace and no '@'. */
  predicate NoSpaceOrAt(s: string) {
    forall i :: 0 <= i < |s| ==> !IsWhitespace(s[i]) && s[i] != '@'
  }

  /** `/^[^\s@]+@[^\s@]+\.[^\s@]+$/.test(s)`: `s` splits into three non-empty runs of
      `[^\s@]`, the first two joined by '@' and the last two by '.'. */
  predicate EmailPatternTest(s: string)
    ensures EmailPatternTest(s) ==> |s| >= 5 && '@' in s && '.' in s
  {
    exists at | 0 < at < |s| :: exists dot | at + 1 < dot < |s| - 1 ::
      && s[at] == '@' && s[dot] == '.'
      && NoSpaceOrAt(s[..at]) && NoSpaceOrAt(s[at + 1..dot]) && NoSpaceOrAt(s[dot + 1..])
  }

  /** The addresses the pattern accepts, described by their parts: no whitespace, exactly
      one '@', something before it, and after it a '.' that is neither the first nor the
      last character of the domain part. */
  ghost predicate EmailShape(s: string)
    ensures EmailShape(s) ==> |s| >= 5 && '@' in s && '.' in s
  {
    && NoWhitespace(s)
    && exists at :: 0 < at < |s| && s[at] == '@' && (forall j :: 0 <= j < |s| && s[j] == '@' ==> j == at)
                    && exists dot :: at + 1 < dot < |s| - 1 && s[dot] == '.'
  }

  /** A slice is a `[^\s@]` run exactly when each of its positions in `s` is. */
  lemma RunInSlice(s: string, lo: int, hi: int)
    requires 0 <= lo <= hi <= |s|
    ensures NoSpaceOrAt(s[lo..hi]) <==> forall k :: lo <= k < hi ==> !IsWhitespace(s[k]) && s[k] != '@'
  {
    var t := s[lo..hi];
    assert forall k :: lo <= k < hi ==> s[k] == t[k - lo];
  }

  /** Three `[^\s@]` runs joined by '@' and '.' have the described shape. */
  lemma PartsHaveShape(s: string, at: int, dot: int)
    requires 0 < at && at + 1 < dot < |s| - 1 && s[at] == '@' && s[dot] == '.'
    requires NoSpaceOrAt(s[..at]) && NoSpaceOrAt(s[at + 1..dot]) && NoSpaceOrAt(s[dot + 1..])
    ensures EmailShape(s)
  {
    RunInSlice(s, 0, at);
    RunInSlice(s, at + 1, dot);
    RunInSlice(s, dot + 1, |s|);
    assert s[..at] == s[0..at] && s[dot + 1..] == s[dot + 1..|s|];
    assert forall k :: 0 <= k < |s| && k != at && k != dot ==> !IsWhitespace(s[k]) && s[k] != '@';
  }

  /** What the pattern accepts has the described shape. */
  lemma PatternHasShape(s: string)
    requires EmailPatternTest(s)
    ensures EmailShape(s)
  {
    var at :| 0 < at < |s| && exists dot | at + 1 < dot < |s| - 1 ::
      && s[at] == '@' && s[dot] == '.'
      && NoSpaceOrAt(s[..at]) && NoSpaceOrAt(s[at + 1..dot]) && NoSpaceOrAt(s[dot + 1..]);
    var dot :| at + 1 < dot < |s| - 1
      && s[at] == '@' && s[dot] == '.'
      && NoSpaceOrAt(s[..at]) && NoSpaceOrAt(s[at + 1..dot]) && NoSpaceOrAt(s[dot + 1..]);
    PartsHaveShape(s, at, dot);
  }

  /** What has the described shape is accepted by the pattern. */
  lemma ShapeMatchesPattern(s: string)
    requires EmailShape(s)
    ensures EmailPatternTest(s)
  {
    var at :| 0 < at < |s| && s[at] == '@' && (forall j :: 0 <= j < |s| && s[j] == '@' ==> j == at)
              && exists dot :: at + 1 < dot < |s| - 1 && s[dot] == '.';
    var dot :| at + 1 < dot < |s| - 1 && s[dot] == '.';
    RunInSlice(s, 0, at);
    RunInSlice(s, at + 1, dot);
    RunInSlice(s, dot + 1, |s|);
    assert s[..at] == s[0..at] && s[dot + 1..] == s[dot + 1..|s|];
  }

  /** The pattern and the description accept the same strings. */
  lemma EmailPatternIff(s: string)
    ensures EmailPatternTest(s) <==> EmailShape(s)
  {
    if EmailPatternTest(s) { PatternHasShape(s); }
    if EmailShape(s) { ShapeMatchesPattern(s); }
  }

  /** `validateEmail`: the error text, or `None` for `null`. */
  function ValidateEmail(email: string): (r: Option<string>)
    ensures email == "" ==> r == Some(EmailRequired)
    ensures email != "" && !EmailShape(email) ==> r == Some(EmailInvalid)
    ensures r.None? <==> EmailShape(email)
  {
    EmailPatternIff(email);
    if email == "" then Some(EmailRequired)
    else if !EmailPatternTest(email) then Some(EmailInvalid)
    else None
  }

  /** `validatePassword`: only the empty password is refused; whitespace passes. */
  function ValidatePassword(password: string): (r: Option<string>)
    ensures r.None? <==> password != ""
    ensures r.Some? ==> r.value == PasswordRequired
  {
    if password == "" then Some(PasswordRequired) else None
  }

  /** `validateUsername`: only the empty username is refused. */
  function ValidateUsername(username: string): (r: Option<string>)
    ensures r.None? <==> username != ""
    ensures r.Some? ==> r.value == UsernameRequired
  {
    if username == "" then Some(UsernameRequired) else None
  }

  /** The props `a11yProps(index)` spreads onto a tab. */
  datatype TabProps = TabProps(id: string, ariaControls: string)

  /** The attributes `TabPanel` renders for (value, index). */
  datatype PanelAttrs = PanelAttrs(hidden: bool, id: string, ariaLabelledBy: string, showsChildren: bool)

  /** The tab's id and the panel it controls share the index after their prefixes. */
  function A11yProps(index: int): (r: TabProps)
    ensures |r.id| > 4 && r.id[..4] == "tab-"
    ensures |r.ariaControls| > 9 && r.ariaControls[..9] == "tabpanel-"
    ensures r.id[4..] == r.ariaControls[9..]
  {
    TabProps("tab-" + IntToString(index), "tabpanel-" + IntToString(index))
  }

  /** The panel is shown, and not hidden, exactly when its index is the selected value; its
      id and the tab labelling it share the index after their prefixes. */
  function TabPanel(value: int, index: int): (r: PanelAttrs)
    ensures r.showsChildren == !r.hidden
    ensures r.showsChildren <==> value == index
    ensures |r.id| > 9 && r.id[..9] == "tabpanel-" && |r.ariaLabelledBy| > 4 && r.ariaLabelledBy[..4] == "tab-"
    ensures r.id[9..] == r.ariaLabelledBy[4..]
  {
    PanelAttrs(value != index, "tabpanel-" + IntToString(index), "tab-" + IntToString(index), value == index)
  }

  /** The tab for an index controls the panel for that index, and the panel is labelled by
      that tab; the panel shows its content exactly when it is not hidden. */
  lemma TabAndPanelMatch(value: int, index: int)
    ensures A11yProps(index).ariaControls == TabPanel(value, index).id
    ensures TabPanel(value, index).ariaLabelledBy == A11yProps(index).id
    ensures TabPanel(value, index).showsChildren <==> !TabPanel(value, index).hidden
  {
  }

  lemma {:induction false} NatToStringInjective(n: nat, m: nat)
    requires NatToString(n) == NatToString(m)
    ensures n == m
  {
    if n >= 10 && m >= 10 {
      var a, b := NatToString(n), NatToString(m);
      assert a[|a| - 1] == DigitChar(n % 10) && b[|b| - 1] == DigitChar(m % 10);
      assert a[..|a| - 1] == NatToString(n / 10) && b[..|b| - 1] == NatToString(m / 10);
      NatToStringInjective(n / 10, m / 10);
    }
  }

  lemma IntToStringInjective(i: int, j: int)
    requires IntToString(i) == IntToString(j)
    ensures i == j
  {
    if i < 0 && j < 0 {
      assert IntToString(i)[1..] == NatToString(-i) && IntToString(j)[1..] == NatToString(-j);
      NatToStringInjective(-i, -j);
    } else if i >= 0 && j >= 0 {
      NatToStringInjective(i, j);
    }
  }

  /** Different indices give different tab ids and different panel ids, and no tab id is
      ever a panel id, so every id on the page is unique. */
  lemma TabIdsUnique(i: int, j: int)
    ensures A11yProps(i).id == A11yProps(j).id ==> i == j
    ensures A11yProps(i).ariaControls == A11yProps(j).ariaControls ==> i == j
    ensures A11yProps(i).id != A11yProps(j).ariaControls
  {
    var a, b := A11yProps(i), A11yProps(j);
    if a.id == b.id {
      assert a.id == "tab-" + IntToString(i) && b.id == "tab-" + IntToString(j);
      assert a.id[4..] == IntToString(i) && b.id[4..] == IntToString(j);
      IntToStringInjective(i, j);
    }
    if a.ariaControls == b.ariaControls {
      assert a.ariaControls == "tabpanel-" + IntToString(i) && b.ariaControls == "tabpanel-" + IntToString(j);
      assert a.ariaControls[9..] == IntToString(i) && b.ariaControls[9..] == IntToString(j);
      IntToStringInjective(i, j);
    }
    assert a.id[3] == "tab-"[3] && b.ariaControls[3] == "tabpanel-"[3];
  }

  /** `handleAcceptRequest(requestId)`: the request's status becomes "accepted". A failed
      update (`remoteOk` false) is logged and changes nothing. */
  method HandleAcceptRequest(store: Store, requestId: string, remoteOk: bool)
    modifies store`friendRequests
    ensures store.friendRequests == if remoteOk then WithStatus(old(store.friendRequests), requestId, Accepted)
                                    else old(store.friendRequests)
  {
    if remoteOk {
      store.friendRequests := WithStatus(store.friendRequests, requestId, Accepted);
    }
  }

  /** `handleRejectRequest(requestId)`: the request's status becomes "rejected". */
  method HandleRejectRequest(store: Store, requestId: string, remoteOk: bool)
    modifies store`friendRequests
    ensures store.friendRequests == if remoteOk then WithStatus(old(store.friendRequests), requestId, Rejected)
                                    else old(store.friendRequests)
  {
    if remoteOk {
      store.friendRequests := WithStatus(store.friendRequests, requestId, Rejected);
    }
  }

  /** `handleCancelSentRequest(requestId, setSentRequests)`: the request document is
      deleted and the "sent" list loses exactly the entries with that id; when the delete
      fails, neither changes. Returns the new "sent" list. */
  method HandleCancelSentRequest(store: Store, requestId: string, sentRequests: seq<FriendRequest>, remoteOk: bool)
    returns (newSent: seq<FriendRequest>)
    modifies store`friendRequests
    ensures store.friendRequests == if remoteOk then WithoutRequest(old(store.friendRequests), requestId)
                                    else old(store.friendRequests)
    ensures remoteOk ==> newSent == Filter(sentRequests, (x: FriendRequest) => x.id != requestId)
    ensures !remoteOk ==> newSent == sentRequests
  {
    if !remoteOk {
      newSent := sentRequests;
      return;
    }
    store.friendRequests := WithoutRequest(store.friendRequests, requestId);
    newSent := Filter(sentRequests, (x: FriendRequest) => x.id != requestId);
  }

  /** Canceling takes out exactly the entries with that id and keeps the others in order. */
  lemma CancelledListSpec(sentRequests: seq<FriendRequest>, requestId: string)
    ensures var r := Filter(sentRequests, (x: FriendRequest) => x.id != requestId);
            && (forall x :: x in r <==> x in sentRequests && x.id != requestId)
            && SubsequenceOf(r, sentRequests)
  {
    FilterIsSubsequence(sentRequests, (x: FriendRequest) => x.id != requestId);
  }

  /** Accepting or rejecting never creates a pending request, so pending requests stay
      unique per direction. */
  lemma ResolveKeepsPendingUnique(reqs: seq<FriendRequest>, id: string, status: Status)
    requires status != Pending
    requires Requests.PendingUnique(reqs)
    ensures Requests.PendingUnique(WithStatus(reqs, id, status))
  {
    var r := WithStatus(reqs, id, status);
    forall x | x in r && x.status == Pending ensures x in reqs {
      WithStatusElements(reqs, id, status, x);
    }
  }

  /** Canceling only removes requests, so pending requests stay unique per direction. */
  lemma CancelKeepsPendingUnique(reqs: seq<FriendRequest>, id: string)
    requires Requests.PendingUnique(reqs)
    ensures Requests.PendingUnique(WithoutRequest(reqs, id))
  {
  }
}
