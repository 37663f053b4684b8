/** src/components/ChatArea.tsx: the open conversation. It names the chat shared by two
    users, builds and stores text and GIF messages, uploads attachments, keeps the
    composer's file lists aligned, filters the live feed per user and decides when the
    receive sound plays. */
module ChatArea {
  import opened Base
  import opened Strings
  import opened Types
  import opened DocumentStore

  // ---------------------------------------------------------------------------------
  // The chat id

  /** `[a, b].sort()`: the default sort is stable and compares strings as `<` does,
      modelled by `LexLess` character by character. */
  function SortPair(a: string, b: string): (r: seq<string>)
    ensures |r| == 2 && multiset(r) == multiset([a, b])
    ensures !LexLess(r[1], r[0])
  {
    LexAsymmetric(a, b);
    if LexLess(b, a) then [b, a] else [a, b]
  }

  /** `parts.join(sep)`. */
  function Join(parts: seq<string>, sep: string): string
    decreases |parts|
  {
    if parts == [] then ""
    else if |parts| == 1 then parts[0]
    else parts[0] + sep + Join(parts[1..], sep)
  }

  /** `[currentUserId, friendUid].sort().join("_")`, the id of the `chats` document. */
  function ChatId(me: string, friend: string): (r: string)
    ensures r == me + "_" + friend || r == friend + "_" + me
  {
    var p := SortPair(me, friend);
    assert Join(p, "_") == p[0] + "_" + p[1];
    Join(p, "_")
  }

  /** Both participants name the same chat. */
  lemma ChatIdSymmetric(a: string, b: string)
    ensures ChatId(a, b) == ChatId(b, a)
  {
    if a != b {
      LexTrichotomy(a, b);
      LexAsymmetric(a, b);
    }
  }

  /** The chat id is the smaller uid, '_', the larger uid. */
  lemma ChatIdIsMinMax(a: string, b: string)
    ensures exists lo, hi :: ((lo == a && hi == b) || (lo == b && hi == a))
                            && !LexLess(hi, lo) && ChatId(a, b) == lo + "_" + hi
  {
    var p := SortPair(a, b);
    assert Join(p, "_") == p[0] + "_" + p[1];
    if LexLess(b, a) {
      assert p == [b, a];
    } else {
      assert p == [a, b];
    }
  }

  // ---------------------------------------------------------------------------------
  // Attachments

  /** `file.type.startsWith("image/")`. */
  predicate IsImage(f: LocalFile) {
    StartsWith(f.mimeType, "image/")
  }

  predicate IsNotImage(f: LocalFile) {
    !IsImage(f)
  }

  /** One address per file, in the order of the files. */
  function Urls(fs: seq<LocalFile>, url: LocalFile -> string): (r: seq<string>)
    ensures |r| == |fs|
    ensures forall i :: 0 <= i < |fs| ==> r[i] == url(fs[i])
  {
    seq(|fs|, i requires 0 <= i < |fs| => url(fs[i]))
  }

  /** One `{ name, url }` entry per file, in the order of the files. */
  function Refs(fs: seq<LocalFile>, url: LocalFile -> string): (r: seq<FileRef>)
    ensures |r| == |fs|
    ensures forall i :: 0 <= i < |fs| ==> r[i] == FileRef(fs[i].name, url(fs[i]))
  {
    seq(|fs|, i requires 0 <= i < |fs| => FileRef(fs[i].name, url(fs[i])))
  }

  /** The condition under which `uploadFiles` returns two empty lists without uploading. */
  predicate UploadSkipped(files: seq<LocalFile>, me: Option<string>, friend: Option<Friend>) {
    |files| == 0 || me.None? || me.value == "" || friend.None?
  }

  /** `uploadFiles()`: each file is uploaded and its download address goes to `imageUrls`
      when its type starts with "image/", and to `files` as `{ name, url }` otherwise.
      `downloadUrl` stands for the storage round trip. */
  method UploadFiles(files: seq<LocalFile>, me: Option<string>, friend: Option<Friend>, downloadUrl: LocalFile -> string)
    returns (imageUrls: seq<string>, fileData: seq<FileRef>)
    ensures UploadSkipped(files, me, friend) ==> imageUrls == [] && fileData == []
    ensures !UploadSkipped(files, me, friend) ==>
              && imageUrls == Urls(Filter(files, IsImage), downloadUrl)
              && fileData == Refs(Filter(files, IsNotImage), downloadUrl)
  {
    imageUrls, fileData := [], [];
    if UploadSkipped(files, me, friend) {
      return;
    }
    var i := 0;
    while i < |files|
      invariant 0 <= i <= |files|
      invariant imageUrls == Urls(Filter(files[..i], IsImage), downloadUrl)
      invariant fileData == Refs(Filter(files[..i], IsNotImage), downloadUrl)
    {
      var file := files[i];
      var url := downloadUrl(file);
      assert files[..i + 1] == files[..i] + [file];
      PartitionStep(files[..i], file, downloadUrl);
      if IsImage(file) {
        imageUrls := imageUrls + [url];
      } else {
        fileData := fileData + [FileRef(file.name, url)];
      }
      i := i + 1;
    }
    assert files[..i] == files;
  }

  /** One more file extends exactly one of the two partitions, at its end. */
  lemma PartitionStep(prefix: seq<LocalFile>, file: LocalFile, url: LocalFile -> string)
    ensures Urls(Filter(prefix + [file], IsImage), url)
            == Urls(Filter(prefix, IsImage), url) + (if IsImage(file) then [url(file)] else [])
    ensures Refs(Filter(prefix + [file], IsNotImage), url)
            == Refs(Filter(prefix, IsNotImage), url) + (if IsImage(file) then [] else [FileRef(file.name, url(file))])
  {
    ImagesStep(prefix, file, url);
    OthersStep(prefix, file, url);
  }

  lemma ImagesStep(prefix: seq<LocalFile>, file: LocalFile, url: LocalFile -> string)
    ensures Urls(Filter(prefix + [file], IsImage), url)
            == Urls(Filter(prefix, IsImage), url) + (if IsImage(file) then [url(file)] else [])
  {
    FilterAppend(prefix, [file], IsImage);
    var a := Filter(prefix, IsImage);
    if IsImage(file) {
      assert Filter([file], IsImage) == [file];
      UrlsAppend(a, [file], url);
    } else {
      assert Filter([file], IsImage) == [];
      assert a + [] == a;
    }
  }

  lemma OthersStep(prefix: seq<LocalFile>, file: LocalFile, url: LocalFile -> string)
    ensures Refs(Filter(prefix + [file], IsNotImage), url)
            == Refs(Filter(prefix, IsNotImage), url) + (if IsImage(file) then [] else [FileRef(file.name, url(file))])
  {
    FilterAppend(prefix, [file], IsNotImage);
    var b := Filter(prefix, IsNotImage);
    if IsImage(file) {
      assert Filter([file], IsNotImage) == [];
      assert b + [] == b;
    } else {
      assert Filter([file], IsNotImage) == [file];
      RefsAppend(b, [file], url);
    }
  }

  lemma UrlsAppend(a: seq<LocalFile>, b: seq<LocalFile>, url: LocalFile -> string)
    ensures Urls(a + b, url) == Urls(a, url) + Urls(b, url)
  {
    var l, r := Urls(a + b, url), Urls(a, url) + Urls(b, url);
    forall i | 0 <= i < |l| ensures l[i] == r[i] {
      if i < |a| { assert (a + b)[i] == a[i]; } else { assert (a + b)[i] == b[i - |a|]; }
    }
  }

  lemma RefsAppend(a: seq<LocalFile>, b: seq<LocalFile>, url: LocalFile -> string)
    ensures Refs(a + b, url) == Refs(a, url) + Refs(b, url)
  {
    var l, r := Refs(a + b, url), Refs(a, url) + Refs(b, url);
    forall i | 0 <= i < |l| ensures l[i] == r[i] {
      if i < |a| { assert (a + b)[i] == a[i]; } else { assert (a + b)[i] == b[i - |a|]; }
    }
  }

  /** The two partitions together hold as many entries as there are files. */
  lemma {:induction false} PartitionSizes(fs: seq<LocalFile>)
    ensures |Filter(fs, IsImage)| + |Filter(fs, IsNotImage)| == |fs|
  {
    if fs != [] {
      PartitionSizes(fs[1..]);
    }
  }

  /** Every uploaded file lands in exactly one partition, chosen by its type. */
  lemma PartitionExact(fs: seq<LocalFile>, f: LocalFile)
    requires f in fs
    ensures f in Filter(fs, IsImage) <==> IsImage(f)
    ensures f in Filter(fs, IsNotImage) <==> !IsImage(f)
  {
  }

  // ---------------------------------------------------------------------------------
  // Sending

  const PhotoPreview := "\U{1F4F7} Photo"
  const FilePreview := "\U{1F4C4} File"
  const GifPreview := "GIF"

  /** The `lastMessage` written with a text send: the trimmed text when there is any,
      otherwise a photo label, a file label, or nothing. */
  function LastMessagePreview(text: string, imageUrls: seq<string>, files: seq<FileRef>): (r: string)
    ensures Trim(text) != "" ==> r == Trim(text)
    ensures Trim(text) == "" && imageUrls != [] ==> r == PhotoPreview
    ensures Trim(text) == "" && imageUrls == [] && files != [] ==> r == FilePreview
    ensures r == "" <==> Trim(text) == "" && imageUrls == [] && files == []
  {
    if Trim(text) != "" then Trim(text)
    else if |imageUrls| > 0 then PhotoPreview
    else if |files| > 0 then FilePreview
    else ""
  }

  /** The guard of `handleSend`: something to send, a signed-in user and an open chat. */
  predicate SendAllowed(text: string, files: seq<LocalFile>, me: Option<string>, friend: Option<Friend>)
    ensures SendAllowed(text, files, me, friend) && files != [] ==> !UploadSkipped(files, me, friend)
    ensures SendAllowed(text, files, me, friend) && files == [] ==> !AllWhitespace(text)
  {
    TrimEmptyIff(text);
    && !(Trim(text) == "" && |files| == 0)
    && me.Some? && me.value != ""
    && friend.Some?
  }

  /** The document `handleSend` adds: the trimmed text, the uploads, no GIF. */
  function TextMessage(me: string, text: string, imageUrls: seq<string>, files: seq<FileRef>, now: int): (m: Message)
    ensures m.text == Trim(text) && m.gifUrl == "" && m.deleteBy.None?
    ensures m.senderId == me && m.imageUrls == imageUrls && m.files == files && m.timestamp == now
  {
    Message(me, Trim(text), imageUrls, files, "", now, None)
  }

  /** The document `handleGifSelect` adds: no text, no uploads, only the GIF. */
  function GifMessage(me: string, gifUrl: string, now: int): (m: Message)
    ensures m.text == "" && m.imageUrls == [] && m.files == [] && m.gifUrl == gifUrl
    ensures m.senderId == me && m.timestamp == now && m.deleteBy.None?
  {
    Message(me, "", [], [], gifUrl, now, None)
  }

  /** The preview computed from the stored message is the preview that was written: the
      stored text is already trimmed. */
  lemma PreviewOfStoredMessage(me: string, text: string, imageUrls: seq<string>, files: seq<FileRef>, now: int)
    ensures var m := TextMessage(me, text, imageUrls, files, now);
            LastMessagePreview(m.text, m.imageUrls, m.files) == LastMessagePreview(text, imageUrls, files)
  {
    TrimIdempotent(text);
  }

  /** The previews of the four kinds of send: a text, a lone image, a lone file, nothing. */
  lemma PreviewExamples()
    ensures LastMessagePreview("hello", [], []) == "hello"
    ensures LastMessagePreview("", ["https://img"], []) == "\U{1F4F7} Photo"
    ensures LastMessagePreview("", [], [FileRef("notes.pdf", "https://doc")]) == "\U{1F4C4} File"
    ensures LastMessagePreview("", [], []) == ""
  {
    TrimOfTrimmed("hello");
    TrimEmptyIff("");
  }

  /** A send the guard lets through, whose uploads all happened, never writes an empty
      preview: either the text or one of the partitions is non-empty. */
  lemma AllowedSendHasPreview(text: string, files: seq<LocalFile>, me: Option<string>, friend: Option<Friend>,
                              downloadUrl: LocalFile -> string)
    requires SendAllowed(text, files, me, friend)
    ensures LastMessagePreview(text, Urls(Filter(files, IsImage), downloadUrl),
                               Refs(Filter(files, IsNotImage), downloadUrl)) != ""
  {
    PartitionSizes(files);
  }

  /** How the remote writes of a send end; a failure throws into the catch block and
      the steps after it do not run. */
  datatype WriteResult = AllWritten | MessageWriteFails | MetaWriteFails

  /** The text being typed and the files attached, with one preview per file. */
  class Composer {
    var message: string
    var files: seq<LocalFile>
    var filePreviews: seq<string>

    /** Every attached file has its preview at the same position. */
    predicate Aligned()
      reads this
    {
      |files| == |filePreviews|
    }

    constructor ()
      ensures message == "" && files == [] && filePreviews == []
      ensures Aligned()
    {
      message, files, filePreviews := "", [], [];
    }

    /** `handleFileChange(e)`: when files were chosen, they go after the ones already
        attached, and so do their data-URL previews. */
    method HandleFileChange(selected: Option<seq<LocalFile>>, dataUrl: LocalFile -> string)
      modifies this
      ensures selected.None? ==> files == old(files) && filePreviews == old(filePreviews)
      ensures selected.Some? ==> files == old(files) + selected.value
                                 && filePreviews == old(filePreviews) + Urls(selected.value, dataUrl)
      ensures message == old(message)
      ensures old(Aligned()) ==> Aligned()
    {
      if selected.Some? {
        files := files + selected.value;
        filePreviews := filePreviews + Urls(selected.value, dataUrl);
      }
    }

    /** `removeFile(index)`: both lists lose the entry at that index. */
    method RemoveFile(index: int)
      modifies this
      ensures files == RemoveIndex(old(files), index)
      ensures filePreviews == RemoveIndex(old(filePreviews), index)
      ensures message == old(message)
      ensures old(Aligned()) ==> Aligned()
    {
      files := RemoveIndex(files, index);
      filePreviews := RemoveIndex(filePreviews, index);
    }
  }

  /** `s.filter((_, i) => i !== index)`: the entry at `index` goes, the others keep their
      order; an index outside the list removes nothing. */
  function RemoveIndex<T>(s: seq<T>, index: int): (r: seq<T>)
    ensures 0 <= index < |s| ==> |r| == |s| - 1
    ensures 0 <= index < |s| ==> forall j :: 0 <= j < |r| ==> r[j] == s[if j < index then j else j + 1]
    ensures !(0 <= index < |s|) ==> r == s
  {
    if 0 <= index < |s| then s[..index] + s[index + 1..] else s
  }

  /** After a removal each remaining file still sits next to its own preview: both come
      from the same old position. */
  lemma RemoveKeepsPairs<A, B>(files: seq<A>, previews: seq<B>, index: int, j: int)
    requires |files| == |previews|
    requires 0 <= j < |RemoveIndex(files, index)|
    ensures |RemoveIndex(previews, index)| == |RemoveIndex(files, index)|
    ensures exists k :: 0 <= k < |files| && k != index
                        && RemoveIndex(files, index)[j] == files[k] && RemoveIndex(previews, index)[j] == previews[k]
  {
    var k := if 0 <= index < |files| && j >= index then j + 1 else j;
    assert RemoveIndex(files, index)[j] == files[k] && RemoveIndex(previews, index)[j] == previews[k];
  }

  /** The `chats/{chatId}` document a send upserts; every field is overwritten,
      `createdAt` included. */
  function Meta(me: string, friendUid: string, lastMessage: string, now: int): (r: ChatMeta)
    ensures r.participants == [me, friendUid] && r.lastMessage == lastMessage
    ensures r.lastMessageTimestamp == now && r.createdAt == now
  {
    ChatMeta([me, friendUid], lastMessage, now, now)
  }

  /** `handleSend()`. When the guard holds the files are uploaded, the message is added to
      the chat's messages and the chat document is upserted with the preview; only when
      both writes succeed is the composer emptied and the send sound played (`sent`).
      `uploadOk` false stands for an upload that throws; with no files `uploadFiles`
      returns at once, so nothing is uploaded and nothing can throw. */
  method HandleSend(store: Store, composer: Composer, me: Option<string>, friend: Option<Friend>,
                    downloadUrl: LocalFile -> string, uploadOk: bool, writes: WriteResult, now: int)
    returns (sent: bool)
    modifies store`messages, store`chats, composer
    ensures !SendAllowed(old(composer.message), old(composer.files), me, friend) ==>
              && !sent && store.messages == old(store.messages) && store.chats == old(store.chats)
              && composer.message == old(composer.message) && composer.files == old(composer.files)
              && composer.filePreviews == old(composer.filePreviews)
    ensures SendAllowed(old(composer.message), old(composer.files), me, friend) ==>
              var chatId := ChatId(me.value, friend.value.friendUid);
              var images := Urls(Filter(old(composer.files), IsImage), downloadUrl);
              var refs := Refs(Filter(old(composer.files), IsNotImage), downloadUrl);
              var m := TextMessage(me.value, old(composer.message), images, refs, now);
              var up := uploadOk || old(composer.files) == [];
              && (sent <==> up && writes == AllWritten)
              && (up && writes != MessageWriteFails ==>
                    store.messages == old(store.messages)[chatId := MessagesOf(old(store.messages), chatId) + [m]])
              && (!(up && writes != MessageWriteFails) ==> store.messages == old(store.messages))
              && (sent ==> store.chats == old(store.chats)[chatId :=
                             Meta(me.value, friend.value.friendUid, LastMessagePreview(old(composer.message), images, refs), now)])
              && (!sent ==> store.chats == old(store.chats))
              && (sent ==> composer.message == "" && composer.files == [] && composer.filePreviews == [])
              && (!sent ==> composer.message == old(composer.message) && composer.files == old(composer.files)
                            && composer.filePreviews == old(composer.filePreviews))
  {
    sent := false;
    var text, files := composer.message, composer.files;
    if Trim(text) == "" && |files| == 0 {
      return;
    }
    if me.None? || me.value == "" || friend.None? {
      return;
    }
    assert SendAllowed(text, files, me, friend);
    var chatId := ChatId(me.value, friend.value.friendUid);
    var imageUrls, uploadedFiles := UploadFiles(files, me, friend, downloadUrl);
    assert imageUrls == Urls(Filter(files, IsImage), downloadUrl);
    assert uploadedFiles == Refs(Filter(files, IsNotImage), downloadUrl);
    if !uploadOk && |files| > 0 {
      return;
    }
    var m := TextMessage(me.value, text, imageUrls, uploadedFiles, now);
    var meta := Meta(me.value, friend.value.friendUid, LastMessagePreview(text, imageUrls, uploadedFiles), now);
    sent := WriteSentMessage(store, composer, chatId, m, meta, writes);
  }

  /** The writes at the end of `handleSend`: the message is added to the chat's
      sub-collection, then the chat document is merged, and the composer is emptied only
      after both writes went through. */
  method WriteSentMessage(store: Store, composer: Composer, chatId: string, m: Message, meta: ChatMeta,
                          writes: WriteResult)
    returns (sent: bool)
    modifies store`messages, store`chats, composer
    ensures sent <==> writes == AllWritten
    ensures writes != MessageWriteFails ==>
              store.messages == old(store.messages)[chatId := MessagesOf(old(store.messages), chatId) + [m]]
    ensures writes == MessageWriteFails ==> store.messages == old(store.messages)
    ensures sent ==> store.chats == old(store.chats)[chatId := meta]
    ensures !sent ==> store.chats == old(store.chats)
    ensures sent ==> composer.message == "" && composer.files == [] && composer.filePreviews == []
    ensures !sent ==> composer.message == old(composer.message) && composer.files == old(composer.files)
                      && composer.filePreviews == old(composer.filePreviews)
  {
    sent := false;
    if writes == MessageWriteFails {
      return;
    }
    store.messages := store.messages[chatId := MessagesOf(store.messages, chatId) + [m]];
    if writes == MetaWriteFails {
      return;
    }
    store.chats := store.chats[chatId := meta];
    composer.message, composer.files, composer.filePreviews := "", [], [];
    sent := true;
  }

  /** `handleGifSelect(gifUrl)`: with a signed-in user and an open chat, adds the GIF message
      and upserts the chat document with the preview "GIF". */
  method HandleGifSelect(store: Store, me: Option<string>, friend: Option<Friend>, gifUrl: string,
                         writes: WriteResult, now: int)
    returns (sent: bool)
    modifies store`messages, store`chats
    ensures (me.None? || me.value == "" || friend.None?) ==>
              !sent && store.messages == old(store.messages) && store.chats == old(store.chats)
    ensures !(me.None? || me.value == "" || friend.None?) ==>
              var chatId := ChatId(me.value, friend.value.friendUid);
              && (sent <==> writes == AllWritten)
              && (writes != MessageWriteFails ==>
                    store.messages == old(store.messages)[chatId :=
                      MessagesOf(old(store.messages), chatId) + [GifMessage(me.value, gifUrl, now)]])
              && (writes == MessageWriteFails ==> store.messages == old(store.messages))
              && (sent ==> store.chats == old(store.chats)[chatId := Meta(me.value, friend.value.friendUid, GifPreview, now)])
              && (!sent ==> store.chats == old(store.chats))
  {
    sent := false;
    if me.None? || me.value == "" || friend.None? {
      return;
    }
    var chatId := ChatId(me.value, friend.value.friendUid);
    if writes == MessageWriteFails {
      return;
    }
    store.messages := store.messages[chatId := MessagesOf(store.messages, chatId) + [GifMessage(me.value, gifUrl, now)]];
    if writes == MetaWriteFails {
      return;
    }
    store.chats := store.chats[chatId := Meta(me.value, friend.value.friendUid, GifPreview, now)];
    sent := true;
  }

  // ---------------------------------------------------------------------------------
  // The live feed

  /** `!message.deleteBy || !message.deleteBy.includes(uid)`. */
  predicate VisibleTo(uid: string, m: Message)
    ensures VisibleTo(uid, m) <==> uid !in m.deleteBy.GetOr([])
  {
    m.deleteBy.None? || uid !in m.deleteBy.value
  }

  /** The messages of a snapshot that the user has not deleted, in snapshot order. */
  function VisibleFeed(snapshot: seq<Message>, uid: string): (r: seq<Message>)
    ensures forall m :: m in r <==> m in snapshot && VisibleTo(uid, m)
    ensures SubsequenceOf(r, snapshot)
  {
    FilterIsSubsequence(snapshot, (m: Message) => VisibleTo(uid, m));
    Filter(snapshot, (m: Message) => VisibleTo(uid, m))
  }

  /** A message just sent by anyone shows up at the end of every participant's feed. */
  lemma NewMessageEndsFeed(snapshot: seq<Message>, m: Message, uid: string)
    requires m.deleteBy.None?
    ensures VisibleFeed(snapshot + [m], uid) == VisibleFeed(snapshot, uid) + [m]
  {
    FilterAppend(snapshot, [m], (m: Message) => VisibleTo(uid, m));
  }

  /** The newest message of a non-empty feed. */
  function Newest(feed: seq<Message>): Message
    requires feed != []
  {
    feed[|feed| - 1]
  }

  /** The feed's newest message is strictly newer than the last one that rang. */
  predicate IsNewer(lastPlayed: Option<int>, feed: seq<Message>)
    ensures IsNewer(lastPlayed, feed) ==> feed != []
    ensures lastPlayed.None? ==> (IsNewer(lastPlayed, feed) <==> feed != [])
  {
    feed != [] && (lastPlayed.None? || Newest(feed).timestamp > lastPlayed.value)
  }

  /** The value `lastPlayedMessageTimestampRef` holds after a snapshot. */
  function NextLastPlayed(lastPlayed: Option<int>, feed: seq<Message>): (r: Option<int>)
    ensures lastPlayed.Some? ==> r.Some? && r.value >= lastPlayed.value
    ensures r != lastPlayed ==> IsNewer(lastPlayed, feed) && r == Some(Newest(feed).timestamp)
    ensures IsNewer(lastPlayed, feed) ==> r == Some(Newest(feed).timestamp)
  {
    if IsNewer(lastPlayed, feed) then Some(Newest(feed).timestamp) else lastPlayed
  }

  /** Whether a snapshot rings the receive sound: exactly when it moves the reference
      forward and its newest message came from someone else. */
  function PlaysReceive(lastPlayed: Option<int>, feed: seq<Message>, uid: string): (r: bool)
    ensures r <==> NextLastPlayed(lastPlayed, feed) != lastPlayed && Newest(feed).senderId != uid
  {
    IsNewer(lastPlayed, feed) && Newest(feed).senderId != uid
  }

  /** The reference after a run of snapshots. */
  function LastPlayedAfter(lastPlayed: Option<int>, feeds: seq<seq<Message>>): (r: Option<int>)
    ensures r == lastPlayed || exists k :: 0 <= k < |feeds| && feeds[k] != [] && r == Some(Newest(feeds[k]).timestamp)
    decreases |feeds|
  {
    assert forall k :: 1 <= k < |feeds| ==> feeds[k] == feeds[1..][k - 1];
    if feeds == [] then lastPlayed else LastPlayedAfter(NextLastPlayed(lastPlayed, feeds[0]), feeds[1..])
  }

  /** After a run of snapshots the reference is at least the newest timestamp of each of
      them and at least where it started. */
  lemma {:induction false} LastPlayedBoundsRun(lastPlayed: Option<int>, feeds: seq<seq<Message>>)
    ensures lastPlayed.Some? ==> LastPlayedAfter(lastPlayed, feeds).Some?
                                 && LastPlayedAfter(lastPlayed, feeds).value >= lastPlayed.value
    ensures forall k :: 0 <= k < |feeds| && feeds[k] != [] ==>
              LastPlayedAfter(lastPlayed, feeds).Some? && LastPlayedAfter(lastPlayed, feeds).value >= Newest(feeds[k]).timestamp
    decreases |feeds|
  {
    if feeds != [] {
      var next := NextLastPlayed(lastPlayed, feeds[0]);
      LastPlayedBoundsRun(next, feeds[1..]);
      assert forall k :: 1 <= k < |feeds| ==> feeds[k] == feeds[1..][k - 1];
    }
  }

  /** A message never rings twice: once a snapshot's newest message has been seen, a later
      snapshot whose newest message is no newer stays silent. */
  lemma NoReplay(lastPlayed: Option<int>, feeds: seq<seq<Message>>, k: int, later: seq<Message>, uid: string)
    requires 0 <= k < |feeds| && feeds[k] != [] && later != []
    requires Newest(later).timestamp <= Newest(feeds[k]).timestamp
    ensures !PlaysReceive(LastPlayedAfter(lastPlayed, feeds), later, uid)
  {
    LastPlayedBoundsRun(lastPlayed, feeds);
  }

  /** The message feed of the open chat and the receive-sound reference. */
  class ChatFeed {
    var messages: seq<Message>
    var loading: bool
    var lastPlayed: Option<int>

    constructor ()
      ensures messages == [] && loading && lastPlayed.None?
    {
      messages, loading, lastPlayed := [], true, None;
    }

    /** The `onSnapshot` callback: keeps the messages the user has not deleted, moves the
        reference forward when the newest one is newer, and rings (`playReceive`) only
        when that message came from someone else. */
    method OnSnapshot(snapshot: seq<Message>, uid: string) returns (playReceive: bool)
      modifies this
      ensures messages == VisibleFeed(snapshot, uid)
      ensures lastPlayed == NextLastPlayed(old(lastPlayed), messages)
      ensures playReceive == PlaysReceive(old(lastPlayed), messages, uid)
      ensures !loading
    {
      var fetched := VisibleFeed(snapshot, uid);
      playReceive := false;
      if |fetched| > 0 {
        var latest := fetched[|fetched| - 1];
        if lastPlayed.None? || latest.timestamp > lastPlayed.value {
          lastPlayed := Some(latest.timestamp);
          if latest.senderId != uid {
            playReceive := true;
          }
        }
      }
      messages := fetched;
      loading := false;
    }
  }
}
