# chatly: a verified model of the chat client's logic

chatly is a one-to-one chat client. It keeps its data in a hosted document database:
users, friend requests, chats and their messages. Each screen reads and writes that
database directly. This project models the deterministic part of the client in Dafny
and proves properties of the model:

- the chat id two users share;
- building and storing text and GIF messages, and the chat preview line;
- the upload partition of attachments into images and files;
- the per-user feed filter, and the rule for when the receive sound plays;
- the per-user soft delete of a whole chat;
- the friend-request ledger: the send decision chain, accept, reject and cancel, and
  the pending lists;
- the friend list derived from accepted requests, its search, and the browser cache it
  warm-starts from;
- the two store slices (friends and user);
- the three form validators, and the tab ids.

The database is an abstract `DocumentStore.Store`:

- `users` and `friendRequests` are sequences. For documents that existed before an
  operation this is the order the database returns them in; a new request is appended
  (see `Requests.AfterSend` under "## Left out");
- each chat's messages are a sequence;
- chat documents are a map.

Every remote call that can throw is a parameter of the operation that makes it: a
`bool`, a `WriteResult`, or the `RemoteCall` that fails. So are the clock (`now`), the
ids the database assigns, the storage download address and the profile lookup.
Component state and store slices are classes whose methods assign their fields. The
pure decisions are functions, proved against their own contracts and against lemmas.

Modules follow the source files: `ChatArea`, `Messages`, `Requests`, `Utils`,
`FriendSlice` and `UserSlice`. Four more modules are shared:

- `Base`: an optional value and the order-preserving `filter`;
- `Strings`: JavaScript whitespace, `trim`, ASCII `toLowerCase`, `includes`,
  `startsWith`, string `<` and integer-to-text;
- `Types`: the records;
- `DocumentStore`: the database.

Where the intended rules and the code disagree, the model follows the code:

- **Duplicate requests.** At most one pending or accepted request should join a
  pair of users. The code only refuses a pending request in the same
  direction. `Requests.ReverseRequestIsNotADuplicate` shows a reverse request being
  sent while one is pending.
- **Duplicate friends.** When two accepted requests name the same friend, the
  last-seen record should win. In the code the outcome depends on when the profile lookups
  complete. Each document's callback runs up to `await fetchUserData`, so within one
  snapshot every `has` test runs before any `set`. All the documents pass, the entry
  takes the map position of the lookup that completes first, and its id and name
  come from the lookup that completes last. A friend already in the map from an
  earlier snapshot is kept as it is. The model takes the documents one at a time, so
  there the first one met names the entry (`Messages.FirstRequestWins`). That is the
  code's result only when the duplicates arrive in different snapshots.
- **Stale friends.** The `uniqueFriends` map is never cleared while the component is
  mounted. A removed friend's entry therefore stays in the map, and the next snapshot
  writes it back (`Messages.RemovedFriendReturns`).
- **Accept, reject and cancel** do not check that the request is pending, or that the
  user cancelling it sent it. They set the status, or delete the document, for whatever
  id they are given.
- **The cache key.** The warm-start cache is keyed by fixed names ("acceptedFriends",
  "recentFriend"), not by user.
- **`createdAt`.** The chat document's `createdAt` is overwritten on every send.
- **The message `id`.** The `id` field of the `Message` interface is never written or
  read back, so the model's `Message` has no `id`.

## Model

| member | source | states |
|---|---|---|
| ChatArea.SortPair | src/components/ChatArea.tsx:119-121 | `[a, b].sort()` is a reordering of `a, b` whose first element is not larger under string `<` |
| ChatArea.ChatId | src/components/ChatArea.tsx:119-121 | the chat id is the two uids joined by "_", in one order or the other |
| ChatArea.ChatIdSymmetric | src/components/ChatArea.tsx:225-227 | the chat id is the same whichever participant computes it |
| ChatArea.ChatIdIsMinMax | src/components/ChatArea.tsx:275-277 | the chat id is the smaller uid, "_", the larger uid, in character order (which differs from JavaScript's code-unit order only outside the Basic Multilingual Plane; see `Strings.LexLess` under "## Left out") |
| ChatArea.Urls | src/components/ChatArea.tsx:200-203 | one address per file, position by position |
| ChatArea.Refs | src/components/ChatArea.tsx:204-205 | one `{ name, url }` entry per file, position by position, keeping the file's name |
| ChatArea.UploadFiles | src/components/ChatArea.tsx:185-211 | with no files, no user or no open chat, both lists are empty; otherwise `imageUrls` holds the addresses of exactly the "image/" files and `files` the `{ name, url }` of exactly the others, in selection order |
| ChatArea.PartitionStep | src/components/ChatArea.tsx:202-206 | one more file extends exactly one of the two lists, at its end |
| ChatArea.ImagesStep | src/components/ChatArea.tsx:202-203 | one more file adds its address at the end of the image list exactly when it is an image |
| ChatArea.OthersStep | src/components/ChatArea.tsx:204-206 | one more file adds its `{ name, url }` at the end of the file list exactly when it is not an image |
| ChatArea.UrlsAppend | src/components/ChatArea.tsx:202-203 | the addresses of two runs of files are the addresses of each, one after the other |
| ChatArea.RefsAppend | src/components/ChatArea.tsx:204-206 | the `{ name, url }` entries of two runs of files are those of each, one after the other |
| ChatArea.PartitionSizes | src/components/ChatArea.tsx:193-208 | the two partitions together are as large as the file list |
| ChatArea.PartitionExact | src/components/ChatArea.tsx:202-206 | each uploaded file is in the image partition exactly when its type starts with "image/", and in the file partition exactly when it does not |
| ChatArea.LastMessagePreview | src/components/ChatArea.tsx:245-251 | the preview is the trimmed text if there is any, else "📷 Photo" if any image was uploaded, else "📄 File" if any file was; it is empty exactly when the send had none of these |
| ChatArea.SendAllowed | src/components/ChatArea.tsx:213-219 | a send that goes ahead with files also passes the upload guard, and one without files has text that is not all whitespace |
| ChatArea.TextMessage | src/components/ChatArea.tsx:232-239 | a text send stores the trimmed text, the uploads, an empty `gifUrl`, the sender and the time, and no `deleteBy` |
| ChatArea.GifMessage | src/components/ChatArea.tsx:124-131 | a GIF send stores empty text, no images or files, the chosen `gifUrl`, the sender and the time |
| ChatArea.PreviewOfStoredMessage | src/components/ChatArea.tsx:234-251 | the preview recomputed from the stored message equals the preview written, because the stored text is already trimmed |
| ChatArea.PreviewExamples | src/components/ChatArea.tsx:245-251 | "hello" previews as "hello", a lone image as "📷 Photo", a lone file as "📄 File", and nothing as "" |
| ChatArea.AllowedSendHasPreview | src/components/ChatArea.tsx:213-251 | a send that passes the guard and uploads its files never writes an empty preview |
| ChatArea.Composer.constructor | src/components/ChatArea.tsx:44-47 | the composer starts empty, with files and previews aligned |
| ChatArea.Composer.HandleFileChange | src/components/ChatArea.tsx:153-168 | chosen files are appended after the existing ones, with their previews in the same order; no selection changes nothing; alignment is kept |
| ChatArea.Composer.RemoveFile | src/components/ChatArea.tsx:170-175 | both lists lose the entry at the index; the text is kept; alignment is kept |
| ChatArea.RemoveIndex | src/components/ChatArea.tsx:171-174 | the list is one shorter and every other element keeps its order; an index outside the list removes nothing |
| ChatArea.RemoveKeepsPairs | src/components/ChatArea.tsx:170-175 | after a removal each file still sits beside the preview it had |
| ChatArea.Meta | src/components/ChatArea.tsx:241-256 | the chat document lists the sender, then the friend, as participants, carries the preview, and sets both `lastMessageTimestamp` and `createdAt` to the send time |
| ChatArea.HandleSend | src/components/ChatArea.tsx:213-268 | no write and no change without text or files, user or open chat; otherwise the message is appended unless an upload of at least one file or the message write fails (with no files nothing is uploaded, so nothing can fail there); the chat document gets participants, preview and time, and the composer is emptied, only when both writes succeed |
| ChatArea.WriteSentMessage | src/components/ChatArea.tsx:232-260 | the message is appended unless its write fails; the chat document is set and the composer emptied exactly when both writes succeed; otherwise both stay as they were |
| ChatArea.HandleGifSelect | src/components/ChatArea.tsx:110-151 | nothing without a user and an open chat; otherwise the GIF message is appended, and the chat document's preview becomes "GIF" when that write succeeds too |
| ChatArea.VisibleTo | src/components/ChatArea.tsx:288-291 | a message is visible to a user exactly when its `deleteBy`, an absent one read as empty, does not hold the user |
| ChatArea.VisibleFeed | src/components/ChatArea.tsx:283-291 | the feed holds exactly the snapshot's messages whose `deleteBy` is absent or lacks the user, in snapshot order |
| ChatArea.NewMessageEndsFeed | src/components/ChatArea.tsx:232-239 | a message just sent appears at the end of every user's feed |
| ChatArea.IsNewer | src/components/ChatArea.tsx:293-299 | only a non-empty feed can be newer, and with nothing played yet every non-empty feed is |
| ChatArea.NextLastPlayed | src/components/ChatArea.tsx:293-302 | the last-played timestamp never decreases, and changes only to the newest message's timestamp when that is strictly newer |
| ChatArea.PlaysReceive | src/components/ChatArea.tsx:297-305 | the sound plays exactly when the snapshot moves the last-played reference forward and its newest message came from someone else |
| ChatArea.LastPlayedAfter | src/components/ChatArea.tsx:293-302 | after a run of snapshots the reference is where it started or the newest timestamp of one of them |
| ChatArea.LastPlayedBoundsRun | src/components/ChatArea.tsx:293-307 | after a run of snapshots the reference is at least its start and at least each newest timestamp seen |
| ChatArea.NoReplay | src/components/ChatArea.tsx:297-301 | a snapshot whose newest message is no newer than one already seen does not ring |
| ChatArea.ChatFeed.constructor | src/components/ChatArea.tsx:45-53 | the feed starts empty and loading, with nothing played yet |
| ChatArea.ChatFeed.OnSnapshot | src/components/ChatArea.tsx:282-312 | the callback stores the visible feed, moves the reference and rings as the two rules say, and stops loading |
| Messages.ChatIdTernary | src/components/Messages.tsx:212-215 | the ternary id is the two uids joined by "_", in one order or the other |
| Messages.TernaryMatchesSortJoin | src/components/Messages.tsx:212-215 | the `<` ternary names the same chat as the sort-and-join of the chat view |
| Messages.TernarySymmetric | src/components/Messages.tsx:212-215 | the ternary gives the same id for either order of the uids |
| Messages.UpdatedDeleteBy | src/components/Messages.tsx:223-227 | the user is in the new list; the old list (absent reads as empty) is its prefix and at most one id is added; a list already holding the user is unchanged |
| Messages.UpdatedDeleteByIdempotent | src/components/Messages.tsx:225-227 | marking a message twice for one user is marking it once |
| Messages.DeleteStep | src/components/Messages.tsx:229-235 | a message whose new list has two or more ids is deleted; otherwise it keeps its content with the new list |
| Messages.StepList | src/components/Messages.tsx:225-235 | a message's delete step leaves nothing exactly when its new list has two or more ids, and otherwise the message marked by the deleter alone |
| Messages.DeleteAll | src/components/Messages.tsx:221-236 | a chat delete never adds messages |
| Messages.SurvivorsComeFromChat | src/components/Messages.tsx:221-236 | every message left after a chat delete is one of the chat's own messages, marked by the deleter alone |
| Messages.SoftDeleteMessages | src/components/Messages.tsx:221-236 | the `forEach` over the message documents leaves exactly the chat's delete pass, message by message in order |
| Messages.SurvivorCarriesOnlyDeleter | src/components/Messages.tsx:225-235 | a message kept by a delete lists only the deleting user |
| Messages.SurvivorsMarked | src/components/Messages.tsx:221-236 | every message left after a chat delete lists only the deleting user |
| Messages.DeletedChatLooksEmpty | src/components/Messages.tsx:221-236 | after a chat delete the user's feed of it is empty |
| Messages.DeleteAllIdempotent | src/components/Messages.tsx:221-236 | deleting a chat twice is deleting it once |
| Messages.DeleteAllAppend | src/components/Messages.tsx:221 | each message is handled on its own, so the delete distributes over concatenation |
| Messages.DeleteAllLast | src/components/Messages.tsx:221-236 | after any earlier messages, the chat's last message adds its own delete step at the end |
| Messages.SecondDeleteRemoves | src/components/Messages.tsx:225-231 | a message kept after one user's delete is removed by the other user's |
| Messages.BothDeletesEmptyChat | src/components/Messages.tsx:221-236 | once both participants delete the chat no message document is left |
| Messages.AbsorbKeepsKeysDistinct | src/components/Messages.tsx:84-111 | the derived friend list never has two entries for the same `friendUid` |
| Messages.Insert | src/components/Messages.tsx:103-110 | after one document the map has its party as a key, the old entries stay in place, and it grows by one exactly when the party is new |
| Messages.AbsorbSpec | src/components/Messages.tsx:98-113 | a snapshot adds at most one entry per document and removes none |
| Messages.AbsorbExtends | src/components/Messages.tsx:84-113 | entries are only added, never removed or moved |
| Messages.InsertKeys | src/components/Messages.tsx:103-110 | one document adds at most its own party to the friend uids |
| Messages.AbsorbKeys | src/components/Messages.tsx:98-113 | a uid is a key afterwards exactly when it was before or a document names it in the key field |
| Messages.AbsorbedEntriesComeFromDocs | src/components/Messages.tsx:102-110 | each new entry carries a document's id, the party in the key field, and that party's looked-up name |
| Messages.AcceptedReceivedBy | src/components/Messages.tsx:86-90 | exactly the accepted requests the user received |
| Messages.AcceptedSentBy | src/components/Messages.tsx:92-96 | exactly the accepted requests the user sent |
| Messages.FriendIsOtherParty | src/components/Messages.tsx:116-134 | from received requests the friend is the sender and from sent ones the receiver, always of an accepted request involving the user |
| Messages.FriendIndex.constructor | src/components/Messages.tsx:84 | the map starts empty |
| Messages.FriendIndex.Absorb | src/components/Messages.tsx:98-113 | absorbing a snapshot, document by document, gives the specified map |
| Messages.FirstRequestWins | src/components/Messages.tsx:103-110 | for any two accepted requests naming the same friend, taken one after the other, the map is what the first alone makes of it |
| Messages.SearchFriends | src/components/Messages.tsx:159-165 | exactly the friends whose lower-cased display name contains the lower-cased term, in list order |
| Messages.EmptySearchKeepsNamed | src/components/Messages.tsx:159-165 | an empty term keeps exactly the friends having a display name, in order |
| Messages.SearchIgnoresCase | src/components/Messages.tsx:162 | a term and its lower-case form give the same result |
| Messages.FindById | src/components/Messages.tsx:68-70 | the friend found is the first saved friend with the id; nothing is found exactly when no friend has it |
| Messages.RestoredRecent | src/components/Messages.tsx:67-75 | the warm start reopens a friend exactly for a non-empty cached id that a saved friend carries, and then the first such friend |
| Messages.LocalCache.constructor | src/components/Messages.tsx:60-61 | the cache holds the two given entries |
| Messages.LocalCache.RemoveFriendFromLocalStorage | src/components/Messages.tsx:167-180 | the saved list (absent reads as empty) loses exactly the friends with the id and is written back; the recent id is removed exactly when it equals the id |
| Messages.CacheRemovalExact | src/components/Messages.tsx:171-173 | the cache edit keeps exactly the friends with another id, in order, so none with that id is found |
| Messages.RemovedFriendNotRestored | src/components/Messages.tsx:167-180 | after a removal a warm start cannot reopen that friend |
| Messages.RemovedFriendReturns | src/components/Messages.tsx:84-148 | a friend removed from the store's list stays in the never-cleared map, so the list the next snapshot hands to the store holds it again |
| Messages.MessagesView.constructor | src/components/Messages.tsx:47-55 | the shown list starts as the store's, with nothing selected and loading |
| Messages.MessagesView.WarmStart | src/components/Messages.tsx:59-78 | a saved list replaces the store's and the shown list; the cached recent friend is reopened only when found; loading stops |
| Messages.MessagesView.SetSearchTerm | src/components/Messages.tsx:268-269 | the search term becomes what was typed; the shown list, the selection and loading stay as they were |
| Messages.MessagesView.ApplySearch | src/components/Messages.tsx:159-165 | the shown list is the store's list filtered by the term |
| Messages.MessagesView.OnAcceptedSnapshot | src/components/Messages.tsx:116-148 | the snapshot goes into the shared map, whose values become the store's, the shown and the saved list |
| Messages.MessagesView.HandleFriendClick | src/components/Messages.tsx:249-254 | the friend becomes the open chat and the selection, and its id is cached |
| Messages.MessagesView.HandleMenuOpen | src/components/Messages.tsx:182-188 | the menu acts on the friend |
| Messages.MessagesView.HandleRemoveFriend | src/components/Messages.tsx:195-206 | for a selected friend with an id, when the delete succeeds: the request, the store's and the cached entries go and the selection clears; otherwise nothing changes |
| Messages.MessagesView.HandleDeleteChat | src/components/Messages.tsx:208-247 | with a selected friend and a user, every message of the chat takes its delete step and success is reported; a failed read changes nothing; the selection clears |
| Messages.AcceptedRequestBecomesFriend | src/components/Messages.tsx:86-111 | once a request is accepted, the receiver's listener lists its sender as a friend |
| Messages.ScenarioSend | src/components/Requests.tsx:89-162 | "u1" sending to the name "bob" writes one pending request from "u1" to "u2" |
| Messages.ScenarioAccept | src/utils/Utils.tsx:120-127 | accepting it sets its status to accepted |
| Messages.ScenarioFriends | src/components/Messages.tsx:84-148 | with that accepted request "u1" and "u2" each list the other exactly once |
| Messages.ScenarioChatId | src/components/ChatArea.tsx:119-121 | "u1" and "u2" share the chat id "u1_u2" in both forms |
| Messages.EndToEndScenario | src/components/Messages.tsx:84-148 | send, acceptance and derivation together, with the shared chat id |
| Requests.FirstUserNamed | src/components/Requests.tsx:111-122 | no receiver exactly when no user has the untrimmed name; otherwise the first user with that name |
| Requests.SnackbarText | src/components/Requests.tsx:97-164 | one fixed text per outcome of the decision chain; the success text exactly for a sent request, and the failure text exactly when a remote call failed |
| Requests.Decide | src/components/Requests.tsx:96-164 | "not logged in" exactly without a user; "failed" only when a call fails; a send needs a user and no failing call, and goes to the first user with the name |
| Requests.DecideExits | src/components/Requests.tsx:102-150 | for a signed-in user: a name blank after trimming ends in `BlankName` ("Please enter a valid display name."); a name no user has ends in `NoSuchUser` ("No user found...") unless the lookup fails; a pending request to the found user, with no accepted request between the two and no failing check, ends in `PendingExists` ("A pending friend request already exists.") |
| Requests.DecideFailures | src/components/Requests.tsx:110-165 | for a signed-in user and a non-blank name, a remote call that fails once the chain reaches it ends in `Failed` ("Failed to send friend request."): the user lookup always, the friends query once a receiver is found, the duplicate query once the two are not friends, the write once no pending request goes the same way |
| Requests.NewRequest | src/components/Requests.tsx:151-158 | the new record is pending, from the signed-in user under their display name, to the uid found under the name as typed, with the given id and time |
| Requests.AfterSend | src/components/Requests.tsx:151-158 | the collection is unchanged unless the chain sends, and then it is the old collection followed by exactly the `NewRequest` record: pending, from the signed-in user's uid and display name, to the uid found for the name and the name as typed, under the new id and time |
| Requests.AcceptedBetween | src/components/Requests.tsx:124-129 | exactly the accepted requests whose sender and receiver are both among the two users |
| Requests.PendingFromTo | src/components/Requests.tsx:138-143 | exactly the pending requests from the sender to the receiver, that direction only |
| Requests.SendFriendRequest | src/components/Requests.tsx:89-168 | the snackbar text and the new collection are those of the decision chain |
| Requests.SentIff | src/components/Requests.tsx:96-162 | a request is sent exactly when someone is signed in, the trimmed name is not blank, a user has the name, no accepted request joins the two, no pending request goes the same way, and no call fails |
| Requests.NoWriteWithoutReceiver | src/components/Requests.tsx:96-122 | no user, a blank name or an unknown name writes nothing |
| Requests.FriendshipCheckedBeforeDuplicate | src/components/Requests.tsx:124-150 | an accepted request in either direction gives "already friends", even with a pending duplicate |
| Requests.SendKeepsPendingUnique | src/components/Requests.tsx:138-158 | sending keeps pending requests unique per direction |
| Requests.AppendKeepsPendingUnique | src/components/Requests.tsx:137-157 | a new pending request with no pending twin in its direction keeps pending requests unique |
| Requests.ReverseRequestIsNotADuplicate | src/components/Requests.tsx:138-150 | a pending request from "u1" to "u2" does not stop "u2" sending one to "u1" |
| Requests.ReceivedRequests | src/components/Requests.tsx:44-48 | exactly the pending requests addressed to the user's display name, in order |
| Requests.SentRequests | src/components/Requests.tsx:50-54 | exactly the pending requests sent under the user's display name, in order |
| Requests.SentRequestIsListed | src/components/Requests.tsx:151-158 | a request just sent is in the sender's sent list, and in the receiver's received list when the typed name is theirs |
| Utils.RunInSlice | src/utils/Utils.tsx:7 | a slice is a run of `[^\s@]` exactly when each of its positions is |
| Utils.EmailPatternTest | src/utils/Utils.tsx:7 | the pattern accepts only strings of at least five characters holding an '@' and a '.' |
| Utils.EmailShape | src/utils/Utils.tsx:7 | the described shape has at least five characters, among them an '@' and a '.' |
| Utils.PatternHasShape | src/utils/Utils.tsx:7 | every address the pattern accepts has the described shape |
| Utils.ShapeMatchesPattern | src/utils/Utils.tsx:7 | every string of the described shape is accepted by the pattern |
| Utils.EmailPatternIff | src/utils/Utils.tsx:7 | the pattern accepts exactly the strings with no whitespace, one '@' with text before it, and after it a '.' neither first nor last |
| Utils.ValidateEmail | src/utils/Utils.tsx:6-14 | "" gives "Email is required."; every other non-conforming string gives "Please enter a valid email address."; no error exactly for the described shape |
| Utils.ValidatePassword | src/utils/Utils.tsx:16-21 | an error exactly for the empty password |
| Utils.ValidateUsername | src/utils/Utils.tsx:23-28 | an error exactly for the empty username |
| Utils.A11yProps | src/utils/Utils.tsx:56-61 | the tab id is "tab-" and the id of the panel it controls "tabpanel-", each followed by the same index text |
| Utils.TabPanel | src/utils/Utils.tsx:36-54 | the panel shows its content exactly when it is not hidden, which is exactly when its index is selected; its id and the tab labelling it carry the same index text |
| Utils.TabAndPanelMatch | src/utils/Utils.tsx:40-61 | the tab of an index controls that index's panel, which is labelled by that tab and shows its content exactly when not hidden |
| Utils.NatToStringInjective | src/utils/Utils.tsx:43-44 | distinct numbers render as distinct text |
| Utils.IntToStringInjective | src/utils/Utils.tsx:43-44 | distinct integers render as distinct text |
| Utils.TabIdsUnique | src/utils/Utils.tsx:56-61 | distinct indices give distinct tab ids and panel ids, and no tab id is a panel id |
| Utils.HandleAcceptRequest | src/utils/Utils.tsx:120-127 | the status of the request becomes accepted when the update succeeds; nothing changes otherwise |
| Utils.HandleRejectRequest | src/utils/Utils.tsx:129-136 | the status of the request becomes rejected when the update succeeds; nothing changes otherwise |
| Utils.HandleCancelSentRequest | src/utils/Utils.tsx:138-151 | the request is deleted and the sent list loses exactly the entries with the id when the delete succeeds; neither changes otherwise |
| Utils.CancelledListSpec | src/utils/Utils.tsx:145-147 | the new sent list keeps exactly the other entries, in order |
| Utils.ResolveKeepsPendingUnique | src/utils/Utils.tsx:120-136 | accepting or rejecting keeps pending requests unique per direction |
| Utils.CancelKeepsPendingUnique | src/utils/Utils.tsx:138-151 | canceling keeps pending requests unique per direction |
| DocumentStore.Store.constructor | src/components/Requests.tsx:110-111 | the database starts with the given users and requests, and no chats or messages |
| DocumentStore.MessagesOf | src/components/ChatArea.tsx:280 | a chat nobody wrote to has no messages |
| DocumentStore.WithStatus | src/utils/Utils.tsx:123 | the status update keeps the number of requests |
| DocumentStore.WithoutRequest | src/utils/Utils.tsx:141-142 | the delete keeps exactly the requests with another id, in order |
| DocumentStore.WithStatusOnlyTouchesStatus | src/utils/Utils.tsx:120-136 | only the status of requests with that id changes, and to the new value |
| DocumentStore.WithStatusOfMissingId | src/utils/Utils.tsx:120-136 | an id no request carries changes nothing |
| DocumentStore.WithStatusElements | src/utils/Utils.tsx:120-136 | every request afterwards is an old one or an old one with that id and the new status |
| FriendSlice.RemoveFriendReducer | src/redux/reducers/friendSlice.ts:24-35 | the friends with the id go; an open chat with that friend falls back to the first remaining friend or none; any other open chat stays |
| FriendSlice.RemoveFriendOrder | src/redux/reducers/friendSlice.ts:25-27 | no remaining friend has the id, and the others keep their order and their number of copies |
| FriendSlice.RemoveFriendClearsRecent | src/redux/reducers/friendSlice.ts:29-34 | the open chat never points at the removed friend; when it was one of the friends before, it still is one |
| FriendSlice.RemoveFriendIdempotent | src/redux/reducers/friendSlice.ts:24-35 | removing twice is removing once |
| FriendSlice.RemoveAbsentFriend | src/redux/reducers/friendSlice.ts:24-35 | removing an id nobody has changes nothing |
| FriendSlice.FriendSliceState.constructor | src/redux/reducers/friendSlice.ts:9-12 | the slice starts with no friends and no open chat |
| FriendSlice.FriendSliceState.SetAcceptedFriends | src/redux/reducers/friendSlice.ts:18-20 | the list becomes the payload; the open chat is kept |
| FriendSlice.FriendSliceState.SetMostRecentFriend | src/redux/reducers/friendSlice.ts:21-23 | the open chat becomes the payload; the list is kept |
| FriendSlice.FriendSliceState.RemoveFriend | src/redux/reducers/friendSlice.ts:24-35 | the new state is the reducer's |
| UserSlice.SetUserReducer | src/redux/reducers/userSlice.ts:21-33 | a payload's four fields are copied exactly; no payload sets all four to null |
| UserSlice.SetUserNullIsInitial | src/redux/reducers/userSlice.ts:28-32 | `setUser(null)` yields the initial state |
| UserSlice.SetUserForgetsPrior | src/redux/reducers/userSlice.ts:21-33 | the new state depends only on the payload, and a repeat changes nothing |
| UserSlice.UserSliceState.constructor | src/redux/reducers/userSlice.ts:10-15 | the slice starts with all four fields null |
| UserSlice.UserSliceState.SetUser | src/redux/reducers/userSlice.ts:21-33 | the new state is the reducer's |
| Strings.Trim | src/components/ChatArea.tsx:214 | `trim()` never lengthens a text, and leaves it empty or neither starting nor ending with whitespace |
| Strings.ToLower | src/components/Messages.tsx:162 | the same length, with each ASCII capital lowered and every other character kept |
| Strings.LexLess | src/components/Messages.tsx:213 | nothing is below the empty string, and a proper prefix is below the string it begins |
| Strings.Contains | src/components/Messages.tsx:162 | a string includes only strings no longer than itself, and includes each of its prefixes |
| Base.Filter | src/components/ChatArea.tsx:288-291 | `filter` never lengthens a list and keeps exactly the elements that pass |
| Base.FilterIsSubsequence | src/components/ChatArea.tsx:288-291 | what `filter` keeps stays in its original order |
| Base.FilterMultiplicity | src/components/ChatArea.tsx:288-291 | `filter` keeps every copy of an element that passes and none of one that fails, so with `FilterIsSubsequence` its result is fixed |

## Left out

- Database, storage and authentication calls are abstract:
  - `getDocs`, `addDoc`, `setDoc`, `updateDoc`, `deleteDoc`, `onSnapshot`,
    `uploadBytes`, `getDownloadURL`, and sign-in;
  - each becomes an operation on `DocumentStore.Store`, or a parameter (a download
    address, a profile lookup, a success flag);
  - subscribing and unsubscribing are not modelled; a listener is a method that receives
    the full result set.
- Asynchrony is modelled as sequential loops in list order:
  - the `Promise.all` completion order in `uploadFiles`;
  - the `has`-then-`set` race in `fetchFriendsData`;
  - the un-awaited per-message writes of `handleDeleteChat`.
- ChatArea.UploadFiles: does not model the order in which uploads finish. The lists come
  out in selection order.
- Messages.FriendIndex.Absorb: within one snapshot, the code always lets two documents
  for the same friend both pass `has`, and the entry's id and name then come from the
  lookup that completes last. The model handles the documents one at a time, so the
  first one wins.
- ChatArea.Composer.HandleFileChange: does not model the previews arriving in the order
  the file reads finish. Previews are appended in selection order.
- Messages.MessagesView.HandleDeleteChat: does not model a single message write failing.
  Each per-message write is taken to succeed, and their rejections are unobserved in the
  code anyway.
- The clock is a single `now` per operation. The code calls `Timestamp.now()` and
  `new Date()` several times.
- The timestamp order of a chat's messages is the stored order, so a send appends.
- Requests.AfterSend: appends the new request at the end of `friendRequests`. The
  database gives it a generated id, and the friend-request queries have no `orderBy`,
  so they list documents by id and the new one need not come last. The order of
  `SentRequests`, `ReceivedRequests`, `AcceptedReceivedBy` and `AcceptedSentBy` after a
  send, and so which of two accepted requests for the same friend
  `Messages.FirstRequestWins` meets first, follows send order in the model and
  document-id order in the code. Membership and multiplicity are unaffected.
- `fetchUserData` (src/utils/Utils.tsx:76-118) is storage and database I/O. A friend's
  display name is a lookup parameter; it is absent when the profile lookup returns
  `null`.
- The avatar background colour is not modelled: `getRandomLightColor` depends on
  randomness.
- The Giphy search, the emoji picker, sounds, scrolling, snackbar visibility, the
  `isSending` and `showGifSearch` flags, menus, media queries and all rendering are
  left out. A sound is a returned `bool`.
- Clearing the request input (`inputElement.value = ""`) is left out. It is a DOM edit
  outside the decision chain.
- The `localStorage` JSON encoding is not modelled. The cache is two optional values.
- Strings.ToLower: only ASCII letters are lowered, while JavaScript `toLowerCase`
  covers all of Unicode.
- Strings.LexLess: characters stand for UTF-16 code units, so strings outside the
  Basic Multilingual Plane compare by scalar value rather than by code unit.
- Strings.IsWhitespace: lists the characters of JavaScript `\s` and `trim`; the
  regular expression engine itself is not modelled.
- Sign-up, sign-in, password reset and the pages that only call the validators are not
  part of this model.
