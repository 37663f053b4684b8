/** The records the client reads and writes: the `Message` shape of
    src/components/types.ts, the documents of the `friendRequests`, `users` and
    `chats` collections, and the friend entries built from accepted requests. */
module Types {
  import opened Base

  /** A file chosen in the browser's file picker: its name and its MIME type (`File.type`). */
  datatype LocalFile = LocalFile(name: string, mimeType: string)

  /** A non-image attachment as stored in a message: `{ name, url }`. */
  datatype FileRef = FileRef(name: string, url: string)

  /** A document of `chats/{chatId}/messages`. The interface's `id` field is absent:
      the client never copies the document id into the data it stores or reads back.
      The server timestamp is an abstract number of milliseconds. */
  datatype Message = Message(
    senderId: string,
    text: string,
    imageUrls: seq<string>,
    files: seq<FileRef>,
    gifUrl: string,
    timestamp: int,
    deleteBy: Option<seq<string>>)

  datatype Status = Pending | Accepted | Rejected

  /** A document of the `friendRequests` collection together with its document id. */
  datatype FriendRequest = FriendRequest(
    id: string,
    senderUid: string,
    senderDisplayName: Option<string>,
    receiverUid: string,
    receiverDisplayName: string,
    status: Status,
    createdAt: int)

  /** A document of the `users` collection: its document id is the user's uid. */
  datatype UserDoc = UserDoc(uid: string, displayName: string)

  /** The signed-in account (`auth.currentUser`): its uid and its optional display name. */
  datatype AuthUser = AuthUser(uid: string, displayName: Option<string>)

  /** A friend entry: the accepted request's document id, the other party's uid and
      the display name found for that party (absent when the profile lookup failed). */
  datatype Friend = Friend(id: string, friendUid: string, displayName: Option<string>)

  /** The `chats/{chatId}` document upserted on every send. */
  datatype ChatMeta = ChatMeta(
    participants: seq<string>,
    lastMessage: string,
    lastMessageTimestamp: int,
    createdAt: int)
}
