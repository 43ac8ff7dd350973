# Verification of the chat server's stateful cores

A Dafny model of the asynchronous chat server and proofs about it. Each module follows one
component of the server; classes hold the fields the server updates in place, and every
method is proved against a step function on values. The main theorems quantify over every
run of those steps: every cutting of a byte stream into reads, every interleaving, every
sequence of requests. `dafny verify dfyconfig.toml` checks the whole project.

| module | file | component |
|---|---|---|
| `ByteStrings` | ByteStrings.dfy | bytes, big-endian numbers, concatenation |
| `MessageBuilders` | MessageBuilder.dfy | the length-prefixed frame |
| `JsonFraming` | JsonFraming.dfy | framing on the JSON port |
| `FileTransfer` | FileTransfer.dfy | uploads and downloads as a machine over reads |
| `Paths` | Paths.dfy | where a path with a client's name leads |
| `FileStore` | FileStore.dfy | content-addressed files and the `hashes` table |
| `FilesHandlers` | FilesHandler.dfy | the handler and uploader objects of the files port |
| `DatabasePools` | DatabasePool.dfy | buckets with atomic counters |
| `Sessions`, `SessionServers` | Sessions.dfy, SessionServer.dfy | shared sessions, authentication, bind, clean-up, registry |
| `Typing` | Typing.dfy | the typing task |
| `Chats`, `Routing`, `ChatHandlers` | Chats.dfy, Routing.dfy, ChatHandlers.dfy | relative chat ids, event receivers, the request handlers |
| `MessageLog` | MessageLog.dfy | the message table |
| `Requests` | Requests.dfy | whole requests: checks, chat tables, message log and event |
| `Accounts` | Accounts.dfy | login tokens |

Assumptions: tables are finite maps, an update touches existing rows only, and random ids,
links and tokens are new. SHA-256 is collision-free. One request handler is one atomic
step, except authentication (three critical sections) and the pool scan (single loads and
additions). Arithmetic wraps as in a release build.

What the code does where its intent does not hold is kept as it is, with the exact
condition proved:

- A frame on the JSON port is lost when its first read holds fewer than four bytes, stops
  one to three bytes short, or runs on into the next frame (`DispatchesExactlyTheBodies`).
- An upload of length 0 never completes (`UploadStoresPayload`); reads past the payload end
  complete it only if their lengths meet an equation (`UploadWithMoreBytes`).
- The name of an upload is joined to its directory as it is. Names other than one normal
  component fail or lead outside, where they can overwrite (`ExactlyOwnNamesUploadWell`).
- An upload that fails after its directory was made, or a preview that is not written,
  leaves a hash that later uploads are answered with but that cannot be fetched
  (`UploadThenDownload`, `RowsCanBeFetched`).
- A second login of a user, or a bind that empties an authenticated session, separates the
  registry from the live sessions (`RegistryAgreement`).
- Typing in two chats leaves a stale indicator (`NoStaleIndicator`).
- After one member deletes a group, requests of the others panic (`DeletedGroupPanics`).
- An edit drops file hashes that it does not repeat, negates `is_unread`, and its event
  shows the old edited flag (`EditDoesWhatItSays`, `EditEventIsStored`).

Where comments and code disagree the model follows the code: the upload limit is
4 * 1024^4 bytes although its comment (src/fs/helpers/uploader.rs:8) speaks of gibibytes;
the frame length is a 32-bit number although docs/basics.md:15 calls it an x64 integer.

## Model

| member | source | states |
|---|---|---|
| `MessageBuilders.ParseReadOfFrame` | src/server/message/builder.rs:40-61 | For every body and every read that begins its frame, which of the parser's answers comes back: too short below four bytes, a slice out of range exactly when the read stops one to three bytes before the end of the frame, otherwise the announced size and the body bytes received so far. |
| `MessageBuilders.PackThenParse` | src/server/message/builder.rs:120-128 | Parsing a packed body gives the body back whole. |
| `MessageBuilders.MessageBuilder.Parse` | src/server/message/builder.rs:40-61 | Builds a new frame in progress exactly when the parser succeeds, holding the parsed size and content. |
| `ByteStrings.ValidIsEncoded` | src/server/message/builder.rs:103-110 | The text test accepts a byte string exactly if it is the UTF-8 encoding of a sequence of Unicode scalar values. |
| `MessageBuilders.MessageBuilder.ContentUtf8` | src/server/message/builder.rs:103-110 | The first call moves valid content into the text cache and empties the content; later calls answer from the cache. |
| `MessageBuilders.MessageBuilder.Packed` | src/server/message/builder.rs:120-128 | Four size bytes and the content; when the two agree the result parses back to this frame. |
| `JsonFraming.DispatchesExactlyTheBodies` | src/server/message/handlers/json_handler.rs:53-121 | For every list of bodies and every cutting of their stream into reads, the bodies dispatched are that list in order if and only if every frame ends with a read, has 1 to 4096 body bytes, and its first read holds the length and is not 1 to 3 bytes short; the handler is then back in its initial state. |
| `JsonFraming.DispatchedBytesWereReceived` | src/server/message/handlers/json_handler.rs:53-121 | Conservation for arbitrary reads: the dispatched bodies with their headers never exceed the bytes received plus what was pending. |
| `JsonFraming.FrameDelivered` | src/server/message/handlers/json_handler.rs:89-120 | One frame in any good cut is dispatched once, on completion, and the handler is idle again. |
| `JsonFraming.FrameLost` | src/server/message/handlers/json_handler.rs:54-95 | A frame of refused size or with a bad first read is never dispatched from its own bytes. |
| `JsonFraming.RefusedFrame` | src/server/message/handlers/json_handler.rs:57-75 | A frame of size 0 or above 4096 whose first read is taken is answered by exactly one error, and every later read is handled as if it had not been there. |
| `JsonFraming.DispatchBehindRefused` | src/server/message/handlers/json_handler.rs:57-75 | Well-cut frames behind a refused one are dispatched, all and in order. |
| `JsonFraming.LostFrameExample` | src/server/message/builder.rs:41-51 | The body `{}` cut inside its length field leaves the connection deaf; cut one byte early it stops the task. |
| `JsonFraming.DeadPhasesStayDead` | src/server/message/handlers/json_handler.rs:97-108 | After a first read that was too short, or a crash, no later read has any effect. |
| `JsonFraming.RunConcat` | src/server/server.rs:73-81 | Handling reads in two batches is handling them all: phases chain, dispatches and refusals add up. |
| `JsonFraming.JsonHandler.HandleSegmentedFrame` | src/server/message/handlers/json_handler.rs:53-121 | The handler object follows the framing step: its new state, what it dispatches and what it refuses. |
| `JsonFraming.JsonHandler.ServeConnection` | src/server/server.rs:73-81 | The read loop of a connection computes the run that the theorems above are about: its phase, dispatches and refusals. |
| `FileTransfer.UploadStoresPayload` | src/server/message/handlers/files_handler.rs:99-264 | For every cutting whose first read holds the request frame, with the length field and the payload cut anywhere, exactly the payload is stored, once, and the handler is reset, if and only if the payload is not empty; an empty one leaves the upload waiting. |
| `FileTransfer.NothingStoredEarlier` | src/server/message/handlers/files_handler.rs:244-260 | The upload is finalised on the read that completes the payload and on none before it. |
| `FileTransfer.UploadKeepsOrder` | src/server/message/handlers/files_handler.rs:139-242 | Until the handler acts, the bytes given to the uploader followed by the buffered ones are the bytes received, in order, for any cut and any excess. |
| `FileTransfer.FirstStoredIsThePayload` | src/server/message/handlers/files_handler.rs:226-260 | Whatever is stored first is the announced number of bytes from the front of the stream, or the announced size was above the limit and is refused. |
| `FileTransfer.UploadsInTurn` | src/server/message/handlers/files_handler.rs:87-93 | A connection serves any sequence of well-cut uploads, each stored whole, without one affecting the next. |
| `FileTransfer.RequestNeedsWholeFrame` | src/server/message/handlers/files_handler.rs:99-145 | The read that begins a request is recognised exactly when it holds the whole request frame; otherwise it lands in the content buffer or the task stops. |
| `FileTransfer.RequestsActAtOnce` | src/server/message/handlers/files_handler.rs:117-204 | A complete request that is no upload acts in its read: a download with the hash and the mode that the request names, a metadata request with its hash, and an error exactly for text that is invalid or unknown; the handler is then reset. |
| `FileTransfer.RequestIsRun` | src/server/message/handlers/files_handler.rs:173-204 | The same as the run of a connection that sends one request. |
| `FileTransfer.BadUploadIsRefused` | src/server/message/handlers/files_handler.rs:131-172 | An upload is refused exactly when its fields do not decode, or once the length is there and the name is not accepted or the size above the limit. |
| `FileTransfer.ReadPastTheEnd` | src/server/message/handlers/files_handler.rs:231-242 | One read past the payload end, from an empty buffer: it stores the payload if and only if it holds exactly the missing bytes or twice as many; what happens in each other case. |
| `FileTransfer.UploadWithMoreBytes` | src/server/message/handlers/files_handler.rs:218-264 | For every connection whose reads run on past the payload: the payload is stored if and only if a read ends with it, or the bytes beyond it, summed over the reads from there on, come at some read to exactly what was missing before them; the first thing stored is then the payload. |
| `FileTransfer.OverrunCompletes` | src/server/message/handlers/files_handler.rs:231-242 | The same from any state of the uploader with a first read beyond the end; if the sum is missed, nothing more happens. |
| `FileTransfer.OverrunNeverEnds` | src/fs/helpers/uploader.rs:68-74 | Once more than announced has been uploaded, no later read completes the upload or is answered. |
| `FileTransfer.SplitRequestSpoilsUpload` | src/server/message/handlers/files_handler.rs:102-109 | After a split request frame the first thing stored is never the payload, for every payload of which neither it nor the first read begins with the other. |
| `FileTransfer.PayloadReadAsRequest` | src/server/message/handlers/files_handler.rs:102-172 | The excepted payloads can be stored: one that begins with its own request frame and length is read as the request when these have landed in the content buffer, and stored whole. |
| `FileTransfer.SplitRequestStores` | src/server/message/handlers/files_handler.rs:102-172 | Concrete reads that do so. |
| `FileTransfer.SplitRequestExample` | src/server/message/handlers/files_handler.rs:102-109 | A concrete split request with nothing stored. |
| `FileTransfer.RunConcat` | src/server/server.rs:101-114 | Reads handled in two batches chain: phases compose and actions are appended. |
| `FilesHandlers.UploadThenDownload` | src/server/message/handlers/files_handler.rs:218-300 | After an upload in any valid cut is answered with a hash, and any further work of any connection under own names, a `media_only` download of that hash yields exactly the payload, if and only if the hash could be fetched before when it was there before, or else the preview of a new medium is written. |
| `FilesHandlers.RoundTripOnTheWire` | src/server/message/handlers/files_handler.rs:63-72 | Over the reads of both connections: the upload is answered by the hash of the payload, and the data frames sent for a `media_only` request of that hash concatenate to the payload under the same exact condition. |
| `FilesHandlers.DownloadCarries` | src/server/message/handlers/files_handler.rs:266-300 | In every mode the data frames of a download concatenate to the content that mode selects; if there is none, the answer is one error without data. |
| `FilesHandlers.UploadAnswer` | src/fs/document.rs:80-112 | For every name: an upload is answered with the hash of its content exactly if that is in the store already, or the copy can be written where the name leads and, for media, a preview be made. |
| `FilesHandlers.LostRowExample` | src/fs/media.rs:127-187 | A medium whose preview fails, uploaded again, is answered with a hash that cannot be fetched. |
| `FilesHandlers.ActionsExtendDisk` | src/server/message/handlers/files_handler.rs:218-264 | Any sequence of actions under own names keeps the store sound and overwrites nothing. |
| `FilesHandlers.FetchedContentHasItsHash` | src/fs/document.rs:76-112 | Whatever can be fetched from a store made by such actions has the hash it is fetched by. |
| `FilesHandlers.FileUploader.Create` | src/fs/helpers/uploader.rs:38-55 | Refuses sizes above the limit and media of unsupported type, and nothing else. |
| `FilesHandlers.FileUploader.ConsumeDataFrame` | src/fs/helpers/uploader.rs:57-62 | Appends the part to the stored data and keeps the byte count equal to its length. |
| `FilesHandlers.FileUploader.Finalize` | src/fs/helpers/uploader.rs:64-66 | The store and the answer are those of finishing this upload with the data given so far. |
| `FilesHandlers.FilesHandler.TakeUploadStart` | src/server/message/handlers/files_handler.rs:131-172 | The accumulation of the length field and the creation of the uploader follow the transfer step, with the error path exactly where that step refuses. |
| `FilesHandlers.FilesHandler.ProcessRequest` | src/server/message/handlers/files_handler.rs:99-216 | Request recognition, request errors and the content buffer agree with the transfer step. |
| `FilesHandlers.FilesHandler.FeedUploader` | src/server/message/handlers/files_handler.rs:231-242 | Which part of the buffer the uploader gets and which part stays, with the 64-bit difference as written. |
| `FilesHandlers.FilesHandler.OnUploader` | src/server/message/handlers/files_handler.rs:218-264 | One turn of the uploader follows the transfer step; the store and the reply are those of its action. |
| `FilesHandlers.FilesHandler.OnFetcher` | src/server/message/handlers/files_handler.rs:266-300 | Terminates, announces the selected files, then sends non-empty frames that concatenate to preview followed by main file, whatever lengths the file reads return, and resets. |
| `FilesHandlers.FilesHandler.HandleSegmentedFrame` | src/server/message/handlers/files_handler.rs:63-72 | One read moves the handler, the store and the messages exactly as the transfer step and its action say, errors included. |
| `FilesHandlers.FilesHandler.ServeConnection` | src/server/server.rs:101-114 | After any reads the handler and the stored files are those of the run the theorems above are about, and the messages written answer its actions one after the other. |
| `Paths.OwnNameResolves` | src/fs/document.rs:91 | A name of one normal component, perhaps behind `.` or empty ones, leads into the directory it is joined to. |
| `Paths.OtherNamesLeave` | src/fs/media.rs:143-147 | Every other name, in a directory just made, fails or leads outside. |
| `FileStore.ExactlyOwnNamesUploadWell` | src/fs/document.rs:91-96 | For every name, document or media: new uploads with it are answered as they should be and overwrite nothing in every sound store, if and only if it is such an own name. |
| `FileStore.ClimbingNameExample` | src/fs/document.rs:91-96 | For all contents: a document whose name climbs into the directory of another upload replaces its file, and the other hash leads to the new content. |
| `FileStore.NoFileNameExample` | src/fs/document.rs:81-96 | A document with an empty name fails after its directory was made; a later upload of the same content is answered with a hash that cannot be fetched. |
| `FileStore.FinishExtends` | src/fs/document.rs:70-113 | Finishing an upload under an own name keeps every row pointing at a file that hashes to its key, and never changes a stored file, row or directory. |
| `FileStore.ExtensionKeepsContent` | src/fs/document.rs:75-84 | What can be fetched, and what cannot, stays so while the store grows. |
| `FileStore.RowsCanBeFetched` | src/fs/helpers/fetcher.rs:39-76 | In a sound store a row can be fetched, in every mode, exactly unless it is a medium whose preview was not written, and its main file is the content of its hash. |
| `FileStore.MediaByExtension` | src/fs/media.rs:40-61 | A name is accepted as media exactly by its last extension, or as a whole without a dot, in any case: one of eight. |
| `FileStore.NewUploadIsFetched` | src/fs/media.rs:163-183 | A new upload answered with its hash is fetched back, unless the thumbnail call succeeded without writing a preview. |
| `FileStore.NewUploadRow` | src/fs/media.rs:171-184 | The row of a new upload has its name and kind, and for media the preview that was made, if it was written. |
| `FileStore.WhatEachModeSends` | src/fs/helpers/fetcher.rs:50-61 | In a sound store: a document sends its main file in every mode; a medium its preview, its main file, or the preview and then the main file; and what name and size are announced for each. |
| `FileStore.AnnouncedSizes` | src/fs/document.rs:116-157 | The announced file sizes add up to the length of the stream. |
| `FileStore.Storage.FetchHashMetadata` | src/fs/document.rs:116-157 | The metadata of both files, or nothing when the row, the file or the preview is missing. |
| `FileStore.DocumentUploader.Finalize` | src/fs/document.rs:70-113 | Early return if anything has the name of the directory; else the directory, the copy to wherever the name leads, and the row if the copy succeeds. |
| `FileStore.MediaUploader.Finalize` | src/fs/media.rs:119-187 | The same for media, with the preview between the copy and the row, and what remains if one of them fails. |
| `FileStore.FileFetcher.Open` | src/fs/helpers/fetcher.rs:39-76 | A fetcher exists exactly when the mode selects a file, and what it has to send is the selection's bytes. |
| `FileStore.FileFetcher.FetchDataFrame` | src/fs/helpers/fetcher.rs:83-106 | A frame and what remains are what remained before; each call shortens the open file or finishes one. |
| `DatabasePools.EveryReachablePool` | src/db/bucket.rs:125-162 | In every state of every interleaving: counters within 0..3 and at least the live handlers of their bucket, their sum the live handlers and one, and the number of buckets bounded below by the live and above by the peak number of handlers. |
| `DatabasePools.OpensOnlyWhenAllWereFull` | src/db/bucket.rs:125-162 | A bucket is opened only if every counter was at the capacity when the mutex was taken, although handlers left during the scan. |
| `DatabasePools.DropKeepsInv` | src/db/bucket.rs:73-76 | A decrement never underflows and keeps the invariant at any point of the scan. |
| `DatabasePools.IncrementKeepsInv` | src/db/bucket.rs:67-71 | The increment after a separate test keeps every counter within the capacity. |
| `DatabasePools.SortKeepsInv` | src/db/bucket.rs:125-162 | Any reordering of the buckets keeps the invariant; a completed scan means the pool was full. |
| `DatabasePools.StepKeepsInv` | src/server/server.rs:154-188 | Every atomic step of accept loops and handlers keeps conservation and both bounds. |
| `DatabasePools.Conservation` | src/db/bucket.rs:22-30 | The counters add up to the live handlers and the first bucket's own count. |
| `DatabasePools.DatabasePool.TryBucket` | src/db/bucket.rs:125-162 | One bucket of the scan, with handlers leaving before the test and before the increment, is a sequence of steps and gives a bucket the caller holds. |
| `DatabasePools.DatabasePool.GetAvailableBucket` | src/db/bucket.rs:125-162 | The whole scan is a sequence of atomic steps; the bucket handed out is held by the caller and counted, and at most one bucket is added. |
| `Sessions.EveryReachableState` | src/server/session.rs:61-127 | In every reachable state an unauthenticated session has no handler but its first and no registry entry; every entry has its own user id and a session id; and each connection of a handler not cleaned up is listed exactly once, in its current session, and in no other list. |
| `Sessions.CredentialsAreWriteOnce` | src/server/message/methods/auth.rs:38-77 | Once set, a session's user id and session id never change in any run, although they are tested under a read lock and written under a later write lock. |
| `Sessions.CredentialsWereAnswered` | src/server/message/methods/auth.rs:46-75 | In every run a session has the user id and session id that the users table answered to its own first handler. |
| `Sessions.HandlersMoveAtBinds` | src/server/message/methods/bind.rs:16-24 | A handler changes to session b exactly at its own bind with a user registered to b and with the session id of b, from another session; its connection leaves the one list and ends the other. |
| `Sessions.GuestsPresentedTheId` | src/server/message/methods/bind.rs:16-33 | In every run, whoever is in a session that is not its own has presented that session's user and id in a bind. |
| `Sessions.RegistryAgreement` | src/server/message/methods/auth.rs:82-86 | The registry holds exactly the live authenticated sessions at every moment of a run if and only if nobody enters it while already in it and no bind takes the last connection of an authenticated session. |
| `Sessions.StepAgreement` | src/server/message/methods/bind.rs:16-24 | The same condition for one step, both directions. |
| `Sessions.EventsReachAConnection` | src/server/session.rs:103-106 | Connection 0 of every registered session exists throughout a run if and only if no bind takes the last connection of a registered session. |
| `Sessions.OlderSessionForgetsNewer` | src/server/message/handlers/json_handler.rs:379-389 | Cleaning up after the older session of a user removes the registry entry of the newer one, which is live. |
| `Sessions.SecondLoginExample` | src/server/message/handlers/json_handler.rs:379-389 | A run from the start that reaches this: two logins of one user, and the first leaves. |
| `Sessions.StrandedSessionExample` | src/server/message/methods/bind.rs:16-24 | A run from the start in which a bind leaves a registered user without a connection. |
| `Sessions.StepKeepsInv` | src/server/message/handlers/json_handler.rs:369-391 | Connect, check, write, register, bind, leave and clean-up keep the session invariant. |
| `Sessions.BindKeepsInv` | src/server/message/methods/bind.rs:16-24 | Moving a connection keeps the lists a partition and credentials with their handlers. |
| `SessionServers.Session.RemoveConnection` | src/server/session.rs:96-98 | Removes the one connection by identity and keeps the others in order. |
| `SessionServers.Server.CheckAuthenticated` | src/server/message/methods/auth.rs:38-44 | The test under the read lock is the check step and refuses exactly authenticated sessions. |
| `SessionServers.Server.WriteCredentials` | src/server/message/methods/auth.rs:46-75 | The write under the write lock is the write step. |
| `SessionServers.Server.EnterRegistry` | src/server/message/methods/auth.rs:82-86 | The insertion into the registry is the enter step. |
| `SessionServers.Server.HandleAuth` | src/server/message/methods/auth.rs:35-95 | Success exactly for a good answer on an unauthenticated session, which then has those credentials and is the registered session of that user; otherwise nothing changes. |
| `SessionServers.Server.HandleBind` | src/server/message/methods/bind.rs:7-42 | Refused exactly when the user is not registered or the registered session has another id; otherwise the connection joins that session, or, for the session the client already has, waits forever. Reading the registered session's id is safe. |
| `SessionServers.Server.RunCleanUp` | src/server/message/handlers/json_handler.rs:376-389 | The clean-up of a dropped handler on shared objects is the clean-up step. |
| `SessionServers.Server.SendEvent` | src/server/session.rs:103-106 | An event to a registered user goes to the session's first connection, which is a handler's own, or panics exactly when the session has none; to an unregistered user it goes nowhere. |
| `Typing.NoStaleIndicator` | src/server/message/handlers/json_handler.rs:131-188 | For every sequence of messages and expiries, nobody is shown as typing while the task is idle or after it ends, if and only if each closing notice reaches whoever its opening reached. |
| `Typing.EpisodesAreClosed` | src/server/message/handlers/json_handler.rs:131-188 | For every sequence of inputs the output is, episode by episode, the message that opened it and the closing of the message in force, with what begins, continues and ends an episode said in terms of the inputs, and every message in one. |
| `Typing.SameChatTypingIsSilent` | src/server/message/handlers/json_handler.rs:162-182 | Further typing in the chat of the episode sends nothing and only replaces the notice in force. |
| `Typing.OneChatIsQuiet` | src/server/message/handlers/json_handler.rs:131-188 | With one chat and fixed receivers nobody keeps a stale indicator. |
| `Typing.TwoChatsExample` | src/server/message/handlers/json_handler.rs:166-176 | Typing in a second chat closes the episode at the wrong receivers: the first keeps the indicator. |
| `Typing.TypingRecvTask` | src/server/message/handlers/json_handler.rs:125-189 | The two nested loops send exactly what the state machine sends. |
| `Chats.EveryRunKeepsIdentity` | src/server/message/methods/send.rs:47-121 | Over every run of register, send, new group, invite, join and delete: private entries are symmetric and name a chat between exactly the two users, group ids stand for themselves, a live group's participants are distinct and are exactly the users holding its id, and a row is a group exactly when its id is negative. |
| `Chats.CreateKeepsInv` | src/server/message/methods/send.rs:79-105 | Creating the private chat with the first message keeps chat identity. |
| `Chats.JoinKeepsInv` | src/server/message/methods/join.rs:51-65 | Joining by invitation keeps chat identity. |
| `Chats.NewGroupKeepsInv` | src/server/message/methods/new.rs:42-60 | Creating a group keeps chat identity. |
| `Chats.NewLinkKeepsInv` | src/server/message/methods/new.rs:80-100 | An invitation link is only ever on a group and keeps chat identity. |
| `Chats.DeleteKeepsInv` | src/server/message/methods/edit.rs:480-491 | Deleting a chat, with its row and both map entries, keeps chat identity. |
| `Chats.DeleteMeaning` | src/server/message/methods/edit.rs:480-491 | A deletion by someone who knows the chat removes its row, the actor's entry and a peer's entry for the actor, and no other row or entry; any other deletion changes nothing. |
| `Chats.SendMeaning` | src/server/message/methods/send.rs:47-121 | Exactly the first message to another user makes a chat: private, of the two, known to each under the other's id; nothing else in the tables changes. |
| `Chats.NewGroupMeaning` | src/server/message/methods/new.rs:42-60 | A new group has its founder as only participant, who knows it by its own id, and nothing else changes. |
| `Chats.NewLinkMeaning` | src/server/message/methods/new.rs:80-100 | Exactly who knows an existing group gives it the new link, and nothing else changes. |
| `Chats.JoinMeaning` | src/server/message/methods/join.rs:41-65 | Exactly who comes with a link that a chat has and does not know that chat becomes its last participant and knows it by its own id; nothing else changes. |
| `Chats.OnePairPerChat` | src/db/user.rs:388-396 | A private chat id is held by one pair of users only. |
| `Routing.EventsAreRightlyRouted` | src/server/message/methods/edit.rs:84-117 | In every reachable state an edit, read, draft, delete or delete-all event is sent exactly when the actor knows the chat and its row exists; it then goes to the participants without the actor, each once, and the id it carries means the same real chat in every receiver's own map. |
| `Routing.MessagesAreRightlyRouted` | src/server/message/methods/send.rs:47-163 | A message is accepted exactly for another registered user, a known peer or an existing group; its chat exists afterwards and its events are rightly routed, also when this message created the chat. |
| `Routing.JoinEventIsRightlyRouted` | src/server/message/methods/join.rs:60-82 | The participants before the join hear of the new one under the group's id. |
| `Routing.GroupTestsAgree` | src/server/message/methods/edit.rs:84-85 | The handlers' three tests for a group, by public id, by real id and by row, agree. |
| `Routing.DeletedGroupPanics` | src/server/message/methods/edit.rs:149-153 | After a member deletes a group, the next mark, draft, edit or deletion of another member meets the missing row. |
| `Routing.DeletedGroupExample` | src/server/message/methods/edit.rs:149-153 | A run from the start that reaches this. |
| `ChatHandlers.ChatHandler.FetchChat` | src/db/chat/chats.rs:207-262 | The row with those participants that are users, in order, or nothing. |
| `ChatHandlers.ChatHandler.HandleNewInvitationLink` | src/server/message/methods/new.rs:65-101 | The group gets the link, exactly when the actor knows it and it is there, and nothing else changes; success exactly on change. |
| `ChatHandlers.ChatHandler.OnJoinGroup` | src/server/message/methods/join.rs:27-82 | The actor joins exactly with a link of a chat it does not know, nothing else changes, and the event goes to the participants before it. |
| `ChatHandlers.ChatHandler.OnDeleteChat` | src/server/message/methods/edit.rs:467-498 | Ok exactly when the actor knows the chat; then its row and the entries of the actor and of a peer are gone and nothing else is. |
| `ChatHandlers.ChatHandler.RouteEditDraft` | src/server/message/methods/edit.rs:180-213 | The receivers and the chat id of a typing event are those proved right. |
| `Requests.RequestHandler.HandleSendMessage` | src/server/message/methods/send.rs:29-166 | A message with a missing file or no target changes nothing; any other is appended to the log of the chat found or made, and its event, with the message as stored, goes to the other participants, each of whom knows that chat under the id in it. |
| `Requests.RequestHandler.HandleMarkAsRead` | src/server/message/methods/edit.rs:122-167 | The listed messages of the real chat are marked and no other chat changes, then the event goes along the route proved right; also when that meets a missing group. |
| `Requests.RequestHandler.HandleEditMessage` | src/server/message/methods/edit.rs:33-120 | Accepted exactly for an existing message of the actor in a chat the actor knows, with existing files. The fetch by its id and the event then carry the given text, reply and files, the old text and reply where none is given, and the old unread flag unless one is given; every other message stays. A refused edit changes nothing. |
| `Requests.RequestHandler.HandleDeleteMessages` | src/server/message/methods/edit.rs:333-413 | All listed messages go, or none, no other chat changes, and in a group no message of anybody else goes; the event follows the route. |
| `Requests.RequestHandler.HandleDeleteAllMessages` | src/server/message/methods/edit.rs:415-465 | The log of the real chat is emptied and no other changes; the event follows the route. |
| `MessageLog.PagesAreTheLog` | src/db/chat/messages.rs:202-272 | Pages of any size fetched from the latest message down to 0 concatenate to the whole log. |
| `MessageLog.FetchIsTheInterval` | src/db/internal/validate.rs:61-81 | For every start from -1 up and every end the fetch is the window of the normalised interval, without overflow. |
| `MessageLog.WindowIsTheInterval` | src/db/chat/messages.rs:202-272 | A window holds exactly the messages of its interval, newest first. |
| `MessageLog.RangeOverflow` | src/db/internal/validate.rs:61-81 | For a negative end, exactly when the sum of the two stays within 32 bits (or wraps to the same answer). |
| `MessageLog.AddedMessageIsReadBack` | src/db/chat/messages.rs:102-170 | The message read back is the one sent, optional fields recovered from their flags, and the new id is above all others, if and only if the largest id is not taken. |
| `MessageLog.AppendKeepsDense` | src/db/chat/messages.rs:102-130 | Without deletions the ids are 0 to n-1. |
| `MessageLog.EditIsReadBack` | src/db/chat/messages.rs:294-332 | An edited message, fetched by its id, has the given text, reply and files, keeps text and reply where none is given, has the opposite of a given `is_unread` and else the old one, keeps id, sender, chat and date, and is marked as edited; the event's message has the same fields and no other row changes. |
| `MessageLog.EditEventIsStored` | src/server/message/methods/edit.rs:78-97 | The message in the edit event equals the stored one if and only if it had been edited before. |
| `MessageLog.EditDoesWhatItSays` | src/server/message/types/edit.rs:23-43 | Field by field exactly when an edit does what it says: always for text and reply, for files only if they are repeated or there were none, for `is_unread` only if it is not given. |
| `MessageLog.MarkingLowersUnread` | src/db/chat/messages.rs:275-292 | Marking lowers the unread count by the number of distinct listed unread messages, for any list. |
| `MessageLog.MarkingMeaning` | src/db/chat/messages.rs:275-292 | Exactly the listed messages stop being unread, and no other field of any row changes. |
| `MessageLog.RemoveMeaning` | src/db/chat/messages.rs:334-355 | Deletion removes the listed messages and nothing else. |
| `MessageLog.DeletionSparesOthers` | src/server/message/methods/edit.rs:352-370 | After an allowed deletion no listed id is left, all of them were there, and in a group no message of anybody else is gone. |
| `MessageLog.MessagesDB.ValidateRange` | src/db/internal/validate.rs:61-81 | The in-place normalisation of start and end, with 32-bit wrap-around. |
| `MessageLog.MessagesDB.FetchMessages` | src/db/chat/messages.rs:202-272 | The query and the conversion loop return the fetch the theorems are about. |
| `MessageLog.MessagesDB.AddMessage` | src/db/chat/messages.rs:102-170 | The partition gets the new row; below the largest id the result is the message as sent. |
| `MessageLog.MessagesDB.MarkAsRead` | src/db/chat/messages.rs:275-292 | The loop of updates marks exactly the listed rows of this chat. |
| `MessageLog.MessagesDB.DeleteMessages` | src/db/chat/messages.rs:334-355 | The loop of deletions removes the listed rows of this chat and touches no other chat. |
| `MessageLog.MessagesDB.CheckDeletable` | src/server/message/methods/edit.rs:352-366 | True exactly when every listed message exists and, in a group, is the actor's. |
| `MessageLog.MessagesDB.OnDeleteMessages` | src/server/message/methods/edit.rs:352-370 | A delete request removes all listed messages, or nothing. |
| `MessageLog.MessagesDB.OnEditMessage` | src/db/chat/messages.rs:294-332 | The log part of an edit: accepted exactly for an existing message of the actor, which is then read back as the edit asks; no other row or chat changes. |
| `Accounts.ThreeNewestAreAccepted` | src/db/user.rs:247-295 | After any run of registrations and logins the stored list is the last three tokens issued in order; an issued token is accepted exactly while fewer than three newer ones exist, any other only for a user without any. |
| `Accounts.NeverEmptyAgain` | src/db/user.rs:265-295 | Once a token has been issued the list is never empty again, so accepting everything on an empty list cannot recur. |
| `Accounts.AccountsAreAsInserted` | src/db/user.rs:134-163 | After any run each account has the username and password of the insertion that made it. |
| `Accounts.LoginNeedsTheRegisteredPassword` | src/db/user.rs:214-245 | An insertion takes effect exactly for a username nobody has; after any further run a login under it is answered exactly for the password given then. |
| `Accounts.PushKeepsNewest` | src/db/user.rs:281-286 | Dropping the oldest of three and appending keeps the window of the newest. |
| `Accounts.UsersDB.CreateSession` | src/db/user.rs:265-295 | The account's list becomes the window with the new token; other accounts stay. |
| `Accounts.UsersDB.Register` | src/db/user.rs:112-163 | Succeeds exactly if the checks pass and nobody has the username; the only change is then an account with the given username and password and one token. |
| `Accounts.UsersDB.Login` | src/db/user.rs:214-245 | A token is issued exactly for a matching username and password, and nothing changes otherwise. |
| `Accounts.UsersDB.Authenticate` | src/db/user.rs:247-263 | Answers exactly what the window theorem says is accepted. |

## Left out

- Sockets, the tokio runtime, I/O errors, and waiting for locks: a deadlock between the registry's shard lock and a session lock is no step of the model, and a handler that waits for itself does not hold up the others.
- The ScyllaDB driver: no driver errors, no partial rows, no concurrent read-modify-write of one row; `*_exists` is taken as existence of the row.
- JSON decoding and encoding, and what a dispatched JSON body then does: decoding is a parameter of the files port, bodies of the JSON port are dispatched as bytes.
- Thumbnail generation and media compression: a preview is whatever an outside function returns, or its failure.
- SHA-256, Argon2 and randomness: a perfect hash, equality of passwords, and fresh values given as arguments.
- The file system beyond paths: limits on the length of names, symbolic links, permissions, space, and the temporary files that uploads are collected in; the base directory is taken to exist (a medium finalised without it panics).
- A media name without a dot counts as a preview that fails, where the code panics.
- Name and username checks, search, profile changes (also the profile event to private peers), drafts, `chat_info` counters: single branches.
- The `new_chat` event of a private chat: it has the same receiver and id as the message event that follows it.
- Events to users who are not connected: the typing and routing modules say to whom an event is addressed, `SessionServers.Server.SendEvent` whether a connection receives it.
- `send_events_to_connections` tasks: detached sends are ordered as issued.
- DatabasePools.DatabasePool.SortByCount: any permutation, because other tasks change the counters during the sort.
- FileTransfer.SplitRequestSpoilsUpload: one direction only; for a payload that agrees with the first read as far as both go it says nothing, and `FileTransfer.SplitRequestStores` shows that such a payload can be stored.
- FileTransfer.UploadStoresPayload: the request frame must be in the first read; `FileTransfer.RequestNeedsWholeFrame` says what happens otherwise.
- ChatHandlers.ChatHandler.RouteEditDraft: the drafts table that the request also updates is not modelled.
