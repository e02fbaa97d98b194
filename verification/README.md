# mychat message pipeline in Dafny

This project models the message-content pipeline of the mychat server and the client's `chat` reducer.

**Creating a message** (`MessagesPatcher.createMessage`, and its copy `ChatWebSocketHandler.messageReceive`):
- The raw text is split around mention tokens, which match `\B@([\S]+)`.
- Each token is resolved by name, becoming either a user segment or a literal segment.
- The message is then assembled from those segments, its unread mentions and its `readUsers` map.
- The map holds every other roster user as unread and the sender as read.

**Reading a message**, in two forms:
- The single-target `readMessage` of `MessagesPatcher`, which saves.
- The bulk scan of `ChatWebSocketHandler`, which flips every pending entry of one user.

**Rendering and dispatch:**
- A message is rendered into the outbound `ResponsePayload`.
- `run` dispatches on the op, and the handler branches on the request kind.

**The client:** the `chat` reducer appends one body per received text.

## Modules

| file | module | what it holds |
|---|---|---|
| `wrappers.dfy` | `Wrappers` | `Option`, `Result`, and `Mono` (a value, nothing, or an exception). |
| `domain.dfy` | `Domain` | `User`, `Content`, `Mention` and `Message`; the name directory `findByName` reads; `addReadUser`/`addUnReadUsers`; the unread count; the Java exceptions as `Fault`. |
| `mention_regex.dfy` | `MentionRegex` | The token grammar as a scanner; the matches that repeated `Matcher.find` calls report; `String.split` with limit 0 over the same grammar. |
| `segmentation.dfy` | `Segmentation` | The segment list `createMessage` builds, both as a function and as the source's `while (m.find())` loop. |
| `repository.dfy` | `Repository` | The repositories as values: whether the room exists, a name directory, the roster and the stored messages; `findById` and `save`. |
| `messages_patcher.dfy` | `MessagesPatcher` | `createMessage`, `readMessage` and `run`. |
| `chat_handler.dfy` | `ChatHandler` | Rendering, `messageReceive`, the bulk read (as written and corrected), dispatch, and a worked end-to-end example. |
| `chat_reducer.dfy` | `ChatReducer` | The reducer and replaying a list of actions. |

Two consequences of the code are worth knowing:

**The first segment can be empty.** The segment list always opens with the first split piece. That piece is the empty literal `""` when the text starts with a mention. `Segmentation.SegmentLeadingLiteral` states this.

**A lone token throws.** For a text that is a single token, such as `"@ghost"`, `split` returns an empty array, so `tokens[0]` throws. `Segmentation.SegmentFailsIffLoneToken` states exactly when this happens.

**Character classes.** `\w` and `\s` are modelled as ASCII classes:
- `\w` is `[A-Za-z0-9_]`;
- `\s` is space, tab, newline, vertical tab, form feed and carriage return.

## Model

| member | source | states |
|---|---|---|
| Domain.AddReadUser | server/src/main/java/com/github/godnsheeps/mychat/domain/Message.java:38-41 | Puts `true` under the user's id and inserts the key when absent. The keys become the old keys plus that id. Every other entry and every other field of the message stay as they were. |
| Domain.AddReadUserIdempotent | server/src/main/java/com/github/godnsheeps/mychat/domain/Message.java:38-41 | Marking a user read twice gives the same message as marking once. |
| Domain.AddReadUserCount | server/src/main/java/com/github/godnsheeps/mychat/domain/Message.java:38-41 | Marking a user read lowers the unread count by exactly one when their entry was pending. Otherwise the count is unchanged. |
| Domain.AddUnReadUsers | server/src/main/java/com/github/godnsheeps/mychat/domain/Message.java:43-46 | Fails, and only with `DuplicateKey`, exactly when two listed users share an id. Otherwise every listed id maps to false, overwriting any old value. The keys grow by exactly the listed ids. Unlisted entries and every other field are unchanged. |
| Domain.UnReadCount | server/src/main/java/com/github/godnsheeps/mychat/web/handler/ChatWebSocketHandler.java:89 | The count of entries that say unread. It never exceeds the number of entries, and it is zero exactly when every entry says read. |
| MentionRegex.TokenStartsAt | server/src/main/java/com/github/godnsheeps/mychat/util/MessagesPatcher.java:37 | The pattern can match at a position exactly when `\B` holds there, the character is '@', and a non-space follows. A match found there spans the '@' and at least one name character. |
| MentionRegex.RunEnd | server/src/main/java/com/github/godnsheeps/mychat/util/MessagesPatcher.java:37 | The greedy `[\S]+` run covers only non-whitespace. It stops at the first whitespace or at the end of the text. |
| MentionRegex.FindFrom | server/src/main/java/com/github/godnsheeps/mychat/util/MessagesPatcher.java:70 | Repeated `m.find()` calls, each resuming where the last match ended. Every match takes at least two characters, so there are at most half as many matches as characters left. |
| MentionRegex.FindFromMatchList | server/src/main/java/com/github/godnsheeps/mychat/util/MessagesPatcher.java:62-70 | Resuming each search where the last match ended reports only real matches. They come in increasing order, do not overlap, and none starts before the search did. |
| MentionRegex.Matches | server/src/main/java/com/github/godnsheeps/mychat/util/MessagesPatcher.java:62-70 | All reported matches are ordered: each is at least two characters long, opens with '@', and is followed by at least one character before the next. |
| MentionRegex.MatchesAreTokens | server/src/main/java/com/github/godnsheeps/mychat/util/MessagesPatcher.java:37-38 | Every reported span starts where `\B@` followed by a non-space matches, and runs to the next whitespace. |
| MentionRegex.FindFromCovers | server/src/main/java/com/github/godnsheeps/mychat/util/MessagesPatcher.java:70 | The scan misses nothing. Every position where the pattern could start lies inside a reported match, so an '@' inside a token is swallowed by it. |
| MentionRegex.BeforeFirstMatch | server/src/main/java/com/github/godnsheeps/mychat/util/MessagesPatcher.java:37-38 | The first match is the leftmost one. Nothing matches before it, and nothing matches at all when the scan reports nothing. |
| MentionRegex.StripTrailingEmpty | server/src/main/java/com/github/godnsheeps/mychat/util/MessagesPatcher.java:66 | Limit 0 keeps a prefix of the pieces and drops only empty strings. The last piece kept is never empty. |
| MentionRegex.Split | server/src/main/java/com/github/godnsheeps/mychat/util/MessagesPatcher.java:66 | `message.split(mentionRegex)` is a prefix of the pieces between matches (the whole text when nothing matches). Every piece it drops is empty, and when something matched its last piece is not empty. |
| MentionRegex.SplitShape | server/src/main/java/com/github/godnsheeps/mychat/util/MessagesPatcher.java:66 | With no match the split is the whole text. Otherwise it is a prefix of the pieces between matches, everything cut off is empty, and the last piece survives exactly when it is not empty. Only a single match can lose every piece. |
| MentionRegex.SplitEmptyIffLoneToken | server/src/main/java/com/github/godnsheeps/mychat/util/MessagesPatcher.java:66 | The split is empty exactly when the text is one mention token and nothing else. |
| Segmentation.Resolve | server/src/main/java/com/github/godnsheeps/mychat/util/MessagesPatcher.java:71-74 | A token becomes a user segment exactly when its name (without '@') is in the directory, and it then holds the user filed under that name. On a miss it becomes a literal holding the whole token, '@' included. With users filed under their own names, the segment stands for the token's text. |
| Segmentation.ResolveAll | server/src/main/java/com/github/godnsheeps/mychat/util/MessagesPatcher.java:70-74 | One resolved segment per match, in match order. None is an empty literal. |
| Segmentation.Segment | server/src/main/java/com/github/godnsheeps/mychat/util/MessagesPatcher.java:66-79 | Segmentation can only fail with `IndexOutOfBounds`. A success is never empty and opens with a literal. |
| Segmentation.BuildContents | server/src/main/java/com/github/godnsheeps/mychat/util/MessagesPatcher.java:66-78 | The source's loop computes the segment list. It counts matches in `i` and appends the next split piece only while `tokens.length > ++i`. |
| Segmentation.SegmentShape | server/src/main/java/com/github/godnsheeps/mychat/util/MessagesPatcher.java:69-77 | Any text that is not a lone token segments successfully. First comes the first piece. Match `t` sits at `2t+1` as its resolved segment, and piece `t` sits at `2t`. The last piece is missing exactly when it is empty and something matched. |
| Segmentation.SegmentFailsIffLoneToken | server/src/main/java/com/github/godnsheeps/mychat/util/MessagesPatcher.java:66-69 | Segmentation throws exactly when the text is a single mention token. |
| Segmentation.SegmentWithoutMention | server/src/main/java/com/github/godnsheeps/mychat/util/MessagesPatcher.java:66-69 | A text in which no token starts becomes one literal holding all of it, the empty text included. |
| Segmentation.SegmentLeadingLiteral | server/src/main/java/com/github/godnsheeps/mychat/util/MessagesPatcher.java:66-69 | For any text that is not a lone token, the first literal is the text before the first token. No token starts inside it, and one starts right after it unless it is the whole text. It is empty when the text opens with a mention. |
| Segmentation.SegmentNoTrailingEmptyLiteral | server/src/main/java/com/github/godnsheeps/mychat/util/MessagesPatcher.java:75-77 | When something matched and the text is not a lone token, the list never ends in an empty literal. |
| Segmentation.SegmentRoundTrip | server/src/main/java/com/github/godnsheeps/mychat/util/MessagesPatcher.java:66-79 | With users filed under their own names, any text that is not a lone token segments successfully, and concatenating the segments gives back the original text. Each mention is written as `@name`. |
| Repository.FindMessage | server/src/main/java/com/github/godnsheeps/mychat/util/MessagesPatcher.java:104 | The lookup returns a stored message with that id. It finds nothing exactly when no stored message has it. |
| Repository.FindUser | server/src/main/java/com/github/godnsheeps/mychat/web/handler/ChatWebSocketHandler.java:122 | The lookup returns a roster user with that id. It finds nothing exactly when no user has it. |
| Repository.Save | server/src/main/java/com/github/godnsheeps/mychat/util/MessagesPatcher.java:94 | After a save, a lookup by the message's id returns it, and lookups by other ids are unaffected. The store grows only when the id was new. |
| Repository.SaveFresh | server/src/main/java/com/github/godnsheeps/mychat/util/MessagesPatcher.java:94 | Saving a message under an id not yet stored appends it and keeps every stored message in place. |
| MessagesPatcher.Others | server/src/main/java/com/github/godnsheeps/mychat/util/MessagesPatcher.java:89-91 | The roster users whose id differs from the sender's. Their ids are the roster ids minus the sender's. |
| MessagesPatcher.OthersAppend | server/src/main/java/com/github/godnsheeps/mychat/util/MessagesPatcher.java:89-91 | Filtering a concatenated roster concatenates the filtered parts. With the membership and length facts, this fixes the filter's output to roster order, repeats kept. Repeats matter because they decide whether `Collectors.toMap` throws. |
| MessagesPatcher.OthersDistinct | server/src/main/java/com/github/godnsheeps/mychat/util/MessagesPatcher.java:89-92 | Filtering out the sender keeps distinct roster ids distinct, so `Collectors.toMap` cannot throw `DuplicateKey` on them. |
| MessagesPatcher.MentionsOf | server/src/main/java/com/github/godnsheeps/mychat/util/MessagesPatcher.java:83-85 | Every mention is unread, and a user is mentioned exactly when a user segment names them. |
| MessagesPatcher.MentionsOfAppend | server/src/main/java/com/github/godnsheeps/mychat/util/MessagesPatcher.java:83-85 | Mentions of a concatenation are the concatenated mentions, so they keep segment order. |
| MessagesPatcher.SeedReadUsers | server/src/main/java/com/github/godnsheeps/mychat/util/MessagesPatcher.java:88-92 | Seeding fails, with `DuplicateKey`, exactly when two other users share an id. Otherwise the keys are the roster ids plus the sender's, the sender is read even when not on the roster, and everyone else is unread. |
| MessagesPatcher.CreateMessage | server/src/main/java/com/github/godnsheeps/mychat/util/MessagesPatcher.java:59-95 | Emits nothing exactly when the room is missing. A created message carries the segmentation of the text, its mentions, the new id and the sender, with every roster user but the sender unread and the sender read. It is saved under the new id, and no other id's message and nothing but the messages changes. A failure saves no message. |
| MessagesPatcher.CreateMessageFresh | server/src/main/java/com/github/godnsheeps/mychat/util/MessagesPatcher.java:94 | When the new id is not yet stored, as for an id the database assigns, creation only appends the new message after the stored ones. |
| MessagesPatcher.CreateMessageOutcome | server/src/main/java/com/github/godnsheeps/mychat/util/MessagesPatcher.java:59-92 | In an existing room, creation fails with `IndexOutOfBounds` on a lone token and with `DuplicateKey` on a roster id shared by two other users. It succeeds exactly when neither applies. |
| MessagesPatcher.CreateMessageCounts | server/src/main/java/com/github/godnsheeps/mychat/util/MessagesPatcher.java:88-92 | With the room present and a text that is not a lone token, creation succeeds for a roster of N distinct users that includes the sender. The new map then has N entries, of which N-1 are unread. |
| MessagesPatcher.ReadMessage | server/src/main/java/com/github/godnsheeps/mychat/util/MessagesPatcher.java:102-108 | A missing target throws. A message is emitted exactly when the target exists and the user's entry is there and unread. That entry then becomes read, no other entry or field changes, and the result is saved. Otherwise nothing is saved. |
| MessagesPatcher.ReadMessageCount | server/src/main/java/com/github/godnsheeps/mychat/util/MessagesPatcher.java:105-106 | A successful read lowers the message's unread count by exactly one. |
| MessagesPatcher.ReadMessageIdempotent | server/src/main/java/com/github/godnsheeps/mychat/util/MessagesPatcher.java:104-107 | Reading again after a read emits nothing and saves nothing. |
| MessagesPatcher.ValueOf | server/src/main/java/com/github/godnsheeps/mychat/util/MessagesPatcher.java:113 | `String.valueOf` keeps a present value and turns a missing one into `"null"`. |
| MessagesPatcher.Run | server/src/main/java/com/github/godnsheeps/mychat/util/MessagesPatcher.java:110-119 | A missing op throws. `"create"` creates from the value's text and `"read"` reads the target. Any other op emits nothing and changes nothing. |
| MessagesPatcher.RunCreateWithoutValue | server/src/main/java/com/github/godnsheeps/mychat/util/MessagesPatcher.java:113 | A create request without a value posts a message whose only segment is the literal `"null"`. |
| ChatHandler.RenderContent | server/src/main/java/com/github/godnsheeps/mychat/web/handler/ChatWebSocketHandler.java:80-83 | `isUser` is copied. The rendered text stands for the same text as the segment once a mention is written `@name`. |
| ChatHandler.Render | server/src/main/java/com/github/godnsheeps/mychat/web/handler/ChatWebSocketHandler.java:78-91 | The payload carries the message id, the sender's name and the number of unread entries. Its contents have the same length and order as the message's, segment by segment. |
| ChatHandler.RenderedWritten | server/src/main/java/com/github/godnsheeps/mychat/web/handler/ChatWebSocketHandler.java:78-84 | The rendered contents, written back, give the same text as the segments. |
| ChatHandler.MessageReceive | server/src/main/java/com/github/godnsheeps/mychat/web/handler/ChatWebSocketHandler.java:147-206 | A missing sender or room emits nothing. A missing message text throws. A success emits exactly the rendering of the saved message. A failure saves no message. |
| ChatHandler.MessageReceiveAsCreate | server/src/main/java/com/github/godnsheeps/mychat/web/handler/ChatWebSocketHandler.java:151-189 | With the sender and the room found, the copy saves what `createMessage` saves and fails as it fails. |
| ChatHandler.MessageReceiveRoundTrip | server/src/main/java/com/github/godnsheeps/mychat/web/handler/ChatWebSocketHandler.java:155-204 | A known sender, a present room, distinct roster ids and a text that is not a lone token always yield exactly one payload. It has the new id and the sender's name. Its contents, with mentions written `@name`, give back the text sent. |
| ChatHandler.PendingFor | server/src/main/java/com/github/godnsheeps/mychat/web/handler/ChatWebSocketHandler.java:124-126 | A message is selected exactly when it is stored and the user's entry is present and unread. |
| ChatHandler.PendingForAppend | server/src/main/java/com/github/godnsheeps/mychat/web/handler/ChatWebSocketHandler.java:124-126 | Filtering a concatenated store concatenates the filtered parts, so the pending messages, and the payloads built from them, come in store order. |
| ChatHandler.BulkReadAsWritten | server/src/main/java/com/github/godnsheeps/mychat/web/handler/ChatWebSocketHandler.java:118-145 | Emits nothing for an unknown user. Otherwise payload `k` is the rendering of pending message `k`, in store order, after the user is marked read in it. That gives its id, the sender's name, its contents and its unread count. The store is left exactly as it was. |
| ChatHandler.MarkRead | server/src/main/java/com/github/godnsheeps/mychat/web/handler/ChatWebSocketHandler.java:127 | Each message keeps its fields and keys, nothing stays pending for the user, and every other entry is unchanged. |
| ChatHandler.BulkRead | server/src/main/java/com/github/godnsheeps/mychat/web/handler/ChatWebSocketHandler.java:118-145 | Emits the same payloads as the as-written scan and also writes every flip back to the store. |
| ChatHandler.BulkReadPayloads | server/src/main/java/com/github/godnsheeps/mychat/web/handler/ChatWebSocketHandler.java:127-142 | Each payload carries its pending message's id and the sender's name. Its contents, written back, give the message's text, and its unread count is one lower than before. |
| ChatHandler.BulkReadSettles | server/src/main/java/com/github/godnsheeps/mychat/web/handler/ChatWebSocketHandler.java:124-128 | With the write-back, a second bulk read emits nothing. |
| ChatHandler.BulkReadAsWrittenRepeats | server/src/main/java/com/github/godnsheeps/mychat/web/handler/ChatWebSocketHandler.java:122-128 | As written, a second bulk read emits everything the first emitted. |
| ChatHandler.BulkReadAsWrittenLosesReads | server/src/main/java/com/github/godnsheeps/mychat/web/handler/ChatWebSocketHandler.java:122-128 | On a one-message store, the as-written scan reports the message again on the second request. The corrected scan does not. |
| ChatHandler.Dispatch | server/src/main/java/com/github/godnsheeps/mychat/web/handler/ChatWebSocketHandler.java:101-107 | A text request goes to `messageReceive`. A read request goes to the bulk read as written, so the store is left exactly as it was. |
| ChatHandler.DispatchCorrected | server/src/main/java/com/github/godnsheeps/mychat/web/handler/ChatWebSocketHandler.java:101-107 | The same branch, with a read request going to the corrected bulk read that writes its flips back. |
| ChatHandler.DispatchCorrectedAgrees | server/src/main/java/com/github/godnsheeps/mychat/web/handler/ChatWebSocketHandler.java:101-145 | Both branches emit the same payloads, and a text request is handled identically. After a read request the as-written branch repeats its payloads on the next read, while the corrected one then emits nothing. |
| ChatHandler.HiAliceScenario | server/src/main/java/com/github/godnsheeps/mychat/web/handler/ChatWebSocketHandler.java:147-206 | bob sends "hi @alice" to a room of alice, bob and carol. The result is the literal "hi " followed by alice, with two readers pending. alice's read then reports one pending. |
| ChatReducer.Chat | client/src/reducers/chat.js:3-21 | With no state, the default empty list is used. `RECV_TEXT` appends exactly one body (sender name and text) after the unchanged old bodies. Any other action returns the state unchanged. |
| ChatReducer.ReplayCollects | client/src/reducers/chat.js:7-21 | After a list of actions, the bodies are the old ones followed by one body per `RECV_TEXT`, in order. |

## Left out

- **Sessions and transport.** The session list, `handle()`, the snapshot sent on connect, the receive loop and the fan-out to sessions are left out. They are reactive I/O and concurrency.
- **JWT parsing.** Requests carry an already resolved user id.
- **Jackson.** Parsing and serialisation (`parse`, `parsePayload`, `writeValueAsString`) are left out. Requests arrive decoded: the `RequestPayload` fields are `Option`s, and `value` is the text `String.valueOf` gives it. As written, `parsePayload` (`server/src/main/java/com/github/godnsheeps/mychat/web/handler/ChatWebSocketHandler.java:59-66`) tries `MessageRequestPayload` first. With an `ObjectMapper` that ignores unknown properties, as Spring Boot configures it, that parse also accepts a read request's JSON and leaves `message` null. So on the wire the read branch at line 105 looks unreachable, and a read request ends in the `NullPointer` of `messageReceive`. The model dispatches on the decoded request kind instead.
- **Reactor.** `Mono`/`Flux` become `Mono` and `seq`. The saves of `contentRepository` are the identity.
- MessagesPatcher.CreateMessage: assumes the content saves complete in order. The model keeps the segments in the order `mergeSequential` emits them. `Flux.flatMap(content -> contentRepository.save(content))` (`server/src/main/java/com/github/godnsheeps/mychat/util/MessagesPatcher.java:80`, `server/src/main/java/com/github/godnsheeps/mychat/web/handler/ChatWebSocketHandler.java:174`) does not promise that order, so with asynchronous saves the stored contents can come back permuted. The claims that rest on this are `CreateMessage`'s `m.contents` being the segmentation of the text and the order of `m.mentions`. Everything built on them rests on it too: `ChatHandler.MessageReceive`, `ChatHandler.MessageReceiveRoundTrip` and `ChatHandler.HiAliceScenario`. The lemmas about segmentation itself, such as `Segmentation.SegmentShape` and `Segmentation.SegmentRoundTrip`, are about the list built before any save and do not depend on it.
- **Content saves.** Each `Content` is saved by `contentRepository.save` before the read state is seeded. When seeding then throws `DuplicateKey`, those contents are already stored. The model has no content store, so a failed creation saves no message and nothing else is recorded.
- **MongoDB.**
  - Repositories are values. A new message's id is a parameter, and `save` replaces the first message with the same id or appends.
  - The database always assigns a fresh id. The model does not require this: `MessagesPatcher.CreateMessage` given an id already stored overwrites that message. `MessagesPatcher.CreateMessageFresh` states the fresh-id case.
  - `findByName` is a finite map from names to users. The error a reactive repository raises for two users sharing a name is not modelled.
  - `findById` with a missing id is modelled as the `IllegalArgument` fault.
- **Message fields.** The `timestamp` (a clock) and the `chat` reference are not fields of the modelled message.
- **`ResponseContent.id`.** It is never set by the handler and is not modelled.
- **Regex engine and Unicode.** The general `java.util.regex` engine is not modelled, only the one token grammar. Before Java 19, `\B` also treats non-ASCII letters and digits as word characters. Here a word character is ASCII only.
- **Roster filter.** It compares ids by reference (`!=`). The model compares them by value. The final map is the same either way, because the sender is marked read last. A roster that holds the sender twice would throw `DuplicateKey` under reference comparison; under value comparison it does not.
- **Logging.** `System.out.println(target)` (`server/src/main/java/com/github/godnsheeps/mychat/util/MessagesPatcher.java:103`), `e.printStackTrace()` (`server/src/main/java/com/github/godnsheeps/mychat/util/MessagesPatcher.java:54`, `server/src/main/java/com/github/godnsheeps/mychat/web/handler/ChatWebSocketHandler.java:63`), `.log(log)` and `log.trace` (`server/src/main/java/com/github/godnsheeps/mychat/web/handler/ChatWebSocketHandler.java:72`, `:112`) and `console.log` (`client/src/reducers/chat.js:10`) only write to a log. They change no state and are left out.
- **Client components.** `MessageContainer`, `UnReadCountContainer`, `ChatContainer`, `MyMessage` and `OtherMessage` are UI rendering. `ActionTypes` is not part of this model, so `RECV_TEXT` is a constructor of its own rather than a string.

## Findings

| source | as written | input that shows it | evidently intended | confidence | as-written member | corrected member |
|---|---|---|---|---|---|---|
| server/src/main/java/com/github/godnsheeps/mychat/web/handler/ChatWebSocketHandler.java:122-128 | The bulk read marks the user read on the messages loaded by `findAll()` and emits them, but never saves them, so every flip is lost. | A store with message `m1` where carol's entry is `false`. carol sends two read requests, and both report `m1` with one reader fewer. | Save each flipped message, as `MessagesPatcher.readMessage` does, so a second read finds nothing pending. | medium, not executed | ChatHandler.BulkReadAsWritten, ChatHandler.Dispatch, ChatHandler.BulkReadAsWrittenLosesReads | ChatHandler.BulkRead, ChatHandler.DispatchCorrected, ChatHandler.BulkReadSettles, ChatHandler.DispatchCorrectedAgrees |

The bulk-read finding is stated for requests that reach the read branch. Given the decoding order described under "## Left out" (Jackson), that branch may be unreachable as the code stands. In that case the lost reads would only show once decoding is fixed.
