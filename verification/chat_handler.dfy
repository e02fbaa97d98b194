/**
 * `ChatWebSocketHandler` after decoding and before encoding: rendering a
 * message into its outbound payload, the copy of message creation behind a
 * text request, the bulk "mark everything read" scan behind a read request,
 * and the choice between the two.
 */
module ChatHandler {
  import opened Wrappers
  import opened Domain
  import opened MentionRegex
  import opened Segmentation
  import opened Repository
  import opened MessagesPatcher

  /** One rendered segment: a mention shows the user's name, a literal its text. */
  datatype ResponseContent = ResponseContent(isUser: bool, text: string)

  datatype ResponsePayload = ResponsePayload(
    id: string,
    username: string,
    unReadCount: nat,
    contents: seq<ResponseContent>)

  /** What a request leaves behind: the store after its saves, and the
      payloads it emits or the exception that ends it. */
  datatype Reply = Reply(store: Store, out: Result<seq<ResponsePayload>, Fault>)

  /** The text a rendered segment stands for once a mention is written `@name` again. */
  function WrittenText(rc: ResponseContent): string {
    if rc.isUser then "@" + rc.text else rc.text
  }

  function Written(rcs: seq<ResponseContent>): string
    decreases |rcs|
  {
    if |rcs| == 0 then "" else WrittenText(rcs[0]) + Written(rcs[1..])
  }

  function RenderContent(c: Content): (rc: ResponseContent)
    ensures rc.isUser <==> c.UserRef?
    ensures WrittenText(rc) == SourceText(c)
  {
    match c
    case Literal(t) => ResponseContent(false, t)
    case UserRef(u) => ResponseContent(true, u.name)
  }

  function RenderContents(cs: seq<Content>): (rcs: seq<ResponseContent>)
    ensures |rcs| == |cs|
    ensures forall k :: 0 <= k < |cs| ==> rcs[k] == RenderContent(cs[k])
  {
    seq(|cs|, k requires 0 <= k < |cs| => RenderContent(cs[k]))
  }

  /** The payload of a message: its id, the sender's name, how many entries
      still say unread, and one rendered segment per content segment. */
  function Render(m: Message): (p: ResponsePayload)
    ensures p.id == m.id && p.username == m.from.name
    ensures p.unReadCount == |UnreadKeys(m.readUsers)|
    ensures |p.contents| == |m.contents|
    ensures forall k :: 0 <= k < |m.contents| ==>
      (p.contents[k].isUser <==> m.contents[k].UserRef?) && WrittenText(p.contents[k]) == SourceText(m.contents[k])
  {
    ResponsePayload(m.id, m.from.name, UnReadCount(m), RenderContents(m.contents))
  }

  /** Rendering keeps what the segments stand for: written back, the rendered
      contents give the same text as the segments. */
  lemma {:induction false} RenderedWritten(cs: seq<Content>)
    ensures Written(RenderContents(cs)) == Source(cs)
    decreases |cs|
  {
    if |cs| > 0 {
      RenderedWritten(cs[1..]);
      assert RenderContents(cs)[1..] == RenderContents(cs[1..]);
    }
  }

  /** `messageReceive`: look up the sender and the room together, then build,
      seed and save the message exactly as `createMessage` does and render it. */
  function MessageReceive(st: Store, userId: string, message: Option<string>, newId: string): (r: Reply)
    ensures FindUser(st.users, userId).None? || !st.roomExists ==> r == Reply(st, Success([]))
    ensures FindUser(st.users, userId).Some? && st.roomExists && message.None? ==>
      r == Reply(st, Failure(NullPointer))
    ensures r.out.Success? && |r.out.value| > 0 ==>
      && |r.out.value| == 1
      && FindMessage(r.store.messages, newId).Some?
      && r.out.value[0] == Render(FindMessage(r.store.messages, newId).value)
    ensures r.out.Failure? ==> r.store == st
  {
    match FindUser(st.users, userId)
    case None => Reply(st, Success([]))
    case Some(user) =>
      if !st.roomExists then Reply(st, Success([]))
      else
        match message
        case None => Reply(st, Failure(NullPointer))
        case Some(text) =>
          var step := CreateMessage(st, user, text, newId);
          match step.out
          case Just(m) =>
            assert step.store == Commit(st, m) && m.id == newId;
            Reply(step.store, Success([Render(m)]))
          case Empty => Reply(st, Success([]))
          case Error(e) => Reply(st, Failure(e))
  }

  /** The copy behaves like the original: with the sender found and the room
      there, it saves what `createMessage` would and emits its rendering. */
  lemma MessageReceiveAsCreate(st: Store, userId: string, text: string, newId: string)
    requires FindUser(st.users, userId).Some? && st.roomExists
    ensures var user := FindUser(st.users, userId).value;
      var step := CreateMessage(st, user, text, newId);
      var r := MessageReceive(st, userId, Some(text), newId);
      && r.store == step.store
      && (step.out.Just? <==> r.out.Success?)
      && (step.out.Just? ==> r.out.value == [Render(step.out.value)])
      && (step.out.Error? ==> r.out == Failure(step.out.error))
  {
  }

  /** Round trip through the wire: when every user is filed under their own
      name, the emitted payload names the sender and its contents, with each
      mention written `@name` again, give back the text that was sent. */
  lemma MessageReceiveRoundTrip(st: Store, userId: string, text: string, newId: string)
    requires FindUser(st.users, userId).Some? && st.roomExists && DistinctIds(st.users)
    requires FiledByName(st.byName) && !IsLoneToken(text)
    ensures MessageReceive(st, userId, Some(text), newId).out.Success?
    ensures |MessageReceive(st, userId, Some(text), newId).out.value| == 1
    ensures var p := MessageReceive(st, userId, Some(text), newId).out.value[0];
      && Written(p.contents) == text
      && p.id == newId
      && p.username == FindUser(st.users, userId).value.name
  {
    var user := FindUser(st.users, userId).value;
    OthersDistinct(st.users, user);
    CreateMessageOutcome(st, user, text, newId);
    MessageReceiveAsCreate(st, userId, text, newId);
    var m := CreateMessage(st, user, text, newId).out.value;
    SegmentRoundTrip(text, st.byName);
    RenderedWritten(m.contents);
  }

  /** The messages whose entry for the user exists and still says unread, in store order. */
  function PendingFor(ms: seq<Message>, uid: string): (r: seq<Message>)
    ensures forall m :: m in r <==> m in ms && Pending(m, uid)
    ensures |r| <= |ms|
    decreases |ms|
  {
    if |ms| == 0 then []
    else if Pending(ms[0], uid) then [ms[0]] + PendingFor(ms[1..], uid)
    else PendingFor(ms[1..], uid)
  }

  /** The filter keeps store order: filtering a concatenation concatenates
      the filtered parts. */
  lemma {:induction false} PendingForAppend(a: seq<Message>, b: seq<Message>, uid: string)
    ensures PendingFor(a + b, uid) == PendingFor(a, uid) + PendingFor(b, uid)
    decreases |a|
  {
    if |a| == 0 {
      assert a + b == b;
    } else {
      assert (a + b)[0] == a[0];
      assert (a + b)[1..] == a[1..] + b;
      PendingForAppend(a[1..], b, uid);
    }
  }

  /** The payloads of the pending messages once the user is marked read in each. */
  function RenderFlipped(pending: seq<Message>, user: User): (ps: seq<ResponsePayload>)
    ensures |ps| == |pending|
    ensures forall k :: 0 <= k < |pending| ==> ps[k] == Render(AddReadUser(pending[k], user))
  {
    seq(|pending|, k requires 0 <= k < |pending| => Render(AddReadUser(pending[k], user)))
  }

  /** The handler's `readMessage` as written: it marks the user read in every
      pending message and emits the results, but saves none of them. */
  function BulkReadAsWritten(st: Store, userId: string): (r: Reply)
    ensures r.store == st
    ensures r.out.Success?
    ensures FindUser(st.users, userId).None? ==> r.out.value == []
    ensures FindUser(st.users, userId).Some? ==>
      var user := FindUser(st.users, userId).value;
      var pending := PendingFor(st.messages, user.id);
      && |r.out.value| == |pending|
      && forall k :: 0 <= k < |pending| ==> r.out.value[k] == Render(AddReadUser(pending[k], user))
  {
    match FindUser(st.users, userId)
    case None => Reply(st, Success([]))
    case Some(user) => Reply(st, Success(RenderFlipped(PendingFor(st.messages, user.id), user)))
  }

  /** Every stored message with the user marked read where the entry was pending. */
  function MarkRead(ms: seq<Message>, user: User): (r: seq<Message>)
    ensures |r| == |ms|
    ensures forall k :: 0 <= k < |ms| ==>
      && r[k] == ms[k].(readUsers := r[k].readUsers)
      && !Pending(r[k], user.id)
      && (user.id in ms[k].readUsers <==> user.id in r[k].readUsers)
      && (forall id :: id in ms[k].readUsers && id != user.id ==> id in r[k].readUsers && r[k].readUsers[id] == ms[k].readUsers[id])
      && r[k].readUsers.Keys == ms[k].readUsers.Keys
  {
    seq(|ms|, k requires 0 <= k < |ms| => if Pending(ms[k], user.id) then AddReadUser(ms[k], user) else ms[k])
  }

  /** The bulk read with the write-back the as-written handler lacks: the same
      payloads, and every flipped entry saved in place. */
  function BulkRead(st: Store, userId: string): (r: Reply)
    ensures r.out == BulkReadAsWritten(st, userId).out
    ensures FindUser(st.users, userId).None? ==> r.store == st
    ensures FindUser(st.users, userId).Some? ==>
      r.store == st.(messages := MarkRead(st.messages, FindUser(st.users, userId).value))
  {
    match FindUser(st.users, userId)
    case None => Reply(st, Success([]))
    case Some(user) =>
      Reply(st.(messages := MarkRead(st.messages, user)), BulkReadAsWritten(st, userId).out)
  }

  /** Each payload of a bulk read is a pending message after the flip: same
      id, the sender's name, contents that write back to the message's text,
      and one fewer unread entry than it had. */
  lemma BulkReadPayloads(st: Store, userId: string)
    requires FindUser(st.users, userId).Some?
    ensures var user := FindUser(st.users, userId).value;
      var pending := PendingFor(st.messages, user.id);
      var out := BulkRead(st, userId).out.value;
      forall k :: 0 <= k < |out| ==>
        && out[k].id == pending[k].id
        && out[k].username == pending[k].from.name
        && Written(out[k].contents) == Source(pending[k].contents)
        && out[k].unReadCount == UnReadCount(pending[k]) - 1
  {
    var user := FindUser(st.users, userId).value;
    var pending := PendingFor(st.messages, user.id);
    forall k | 0 <= k < |pending|
      ensures UnReadCount(AddReadUser(pending[k], user)) == UnReadCount(pending[k]) - 1
    {
      assert pending[k] in pending;
      AddReadUserCount(pending[k], user);
    }
    forall k | 0 <= k < |pending|
      ensures Written(RenderContents(pending[k].contents)) == Source(pending[k].contents)
    {
      RenderedWritten(pending[k].contents);
    }
  }

  /** Nothing is pending when no message has a pending entry for the user. */
  lemma {:induction false} PendingForNone(ms: seq<Message>, uid: string)
    requires forall k :: 0 <= k < |ms| ==> !Pending(ms[k], uid)
    ensures PendingFor(ms, uid) == []
    decreases |ms|
  {
    if |ms| > 0 {
      assert !Pending(ms[0], uid);
      PendingForNone(ms[1..], uid);
    }
  }

  /** With the write-back, nothing is left pending for the user. */
  lemma MarkReadClears(ms: seq<Message>, user: User)
    ensures PendingFor(MarkRead(ms, user), user.id) == []
  {
    PendingForNone(MarkRead(ms, user), user.id);
  }

  /** A second bulk read after the corrected one emits nothing. */
  lemma BulkReadSettles(st: Store, userId: string)
    ensures var st' := BulkRead(st, userId).store;
      BulkRead(st', userId).out == Success([])
  {
    var st' := BulkRead(st, userId).store;
    assert st'.users == st.users;
    if FindUser(st.users, userId).Some? {
      MarkReadClears(st.messages, FindUser(st.users, userId).value);
    }
  }

  /** As written, a second bulk read emits every payload of the first one
      again, since nothing was saved. */
  lemma BulkReadAsWrittenRepeats(st: Store, userId: string)
    ensures var st' := BulkReadAsWritten(st, userId).store;
      BulkReadAsWritten(st', userId) == BulkReadAsWritten(st, userId)
  {
  }

  /** A store with one message still unread by carol: the as-written bulk read
      reports it to carol on every request, the corrected one only once. */
  lemma BulkReadAsWrittenLosesReads()
    ensures var carol := User("c", "carol");
      var bob := User("b", "bob");
      var m := Message("m1", bob, [Literal("hi")], [], map["b" := true, "c" := false]);
      var st := Store(true, map[], [bob, carol], [m]);
      && |BulkReadAsWritten(BulkReadAsWritten(st, "c").store, "c").out.value| == 1
      && BulkRead(BulkRead(st, "c").store, "c").out == Success([])
  {
    var carol := User("c", "carol");
    var bob := User("b", "bob");
    var m := Message("m1", bob, [Literal("hi")], [], map["b" := true, "c" := false]);
    var st := Store(true, map[], [bob, carol], [m]);
    assert FindUser(st.users, "c") == Some(carol);
    assert Pending(m, "c");
    assert PendingFor(st.messages, "c") == [m];
    BulkReadSettles(st, "c");
  }

  /** A decoded request: a text message or a read-everything request, each
      from an already authenticated user id. */
  datatype Request =
    | MessageRequest(fromId: string, message: Option<string>)
    | ReadRequest(fromId: string)

  /** The handler's branch on the payload class: a text goes to
      `messageReceive`, a read request to the bulk read as written, which
      leaves the store as it was. */
  function Dispatch(st: Store, request: Request, newId: string): (r: Reply)
    ensures request.MessageRequest? ==> r == MessageReceive(st, request.fromId, request.message, newId)
    ensures request.ReadRequest? ==> r.store == st && r == BulkReadAsWritten(st, request.fromId)
  {
    match request
    case MessageRequest(fromId, message) => MessageReceive(st, fromId, message, newId)
    case ReadRequest(fromId) => BulkReadAsWritten(st, fromId)
  }

  /** The same branch with the bulk read writing its flips back. */
  function DispatchCorrected(st: Store, request: Request, newId: string): (r: Reply)
    ensures request.MessageRequest? ==> r == MessageReceive(st, request.fromId, request.message, newId)
    ensures request.ReadRequest? ==> r == BulkRead(st, request.fromId)
  {
    match request
    case MessageRequest(fromId, message) => MessageReceive(st, fromId, message, newId)
    case ReadRequest(fromId) => BulkRead(st, fromId)
  }

  /** The correction changes only what is stored: both branches emit the same
      payloads, a text request is handled identically, and after a corrected
      read a second read finds nothing, while as written it repeats. */
  lemma DispatchCorrectedAgrees(st: Store, request: Request, newId: string)
    ensures DispatchCorrected(st, request, newId).out == Dispatch(st, request, newId).out
    ensures request.MessageRequest? ==> DispatchCorrected(st, request, newId) == Dispatch(st, request, newId)
    ensures request.ReadRequest? ==>
      && Dispatch(Dispatch(st, request, newId).store, request, newId).out == Dispatch(st, request, newId).out
      && DispatchCorrected(DispatchCorrected(st, request, newId).store, request, newId).out == Success([])
  {
    if request.ReadRequest? {
      BulkReadSettles(st, request.fromId);
    }
  }

  /** The scan of "hi @alice" finds the one token "@alice". */
  lemma HiAliceMatches()
    ensures Matches("hi @alice") == [Span(3, 9)]
  {
    var text := "hi @alice";
    assert RunEnd(text, 4) == 9 by {
      assert RunEnd(text, 9) == 9;
      assert RunEnd(text, 8) == 9;
      assert RunEnd(text, 7) == 9;
      assert RunEnd(text, 6) == 9;
      assert RunEnd(text, 5) == 9;
    }
    assert FindFrom(text, 9) == [];
    assert TokenStartsAt(text, 3);
    assert FindFrom(text, 3) == [Span(3, 9)] + FindFrom(text, 9);
    assert !TokenStartsAt(text, 2) && !TokenStartsAt(text, 1) && !TokenStartsAt(text, 0);
    assert FindFrom(text, 2) == FindFrom(text, 3);
    assert FindFrom(text, 1) == FindFrom(text, 2);
    assert FindFrom(text, 0) == FindFrom(text, 1);
  }

  /** Split drops the empty piece after the token, so "hi " is all that is left. */
  lemma HiAliceSplit()
    ensures Split("hi @alice") == ["hi "]
  {
    var text := "hi @alice";
    HiAliceMatches();
    var ms := Matches(text);
    assert Pieces(text, ms) == ["hi ", ""] by {
      assert Piece(text, ms, 0) == text[0..3] == "hi ";
      assert Piece(text, ms, 1) == text[9..9] == "";
    }
  }

  lemma HiAliceSegment(alice: User)
    requires alice == User("a", "alice")
    ensures Segment("hi @alice", map["alice" := alice]) == Success([Literal("hi "), UserRef(alice)])
  {
    var text := "hi @alice";
    var byName := map["alice" := alice];
    HiAliceMatches();
    HiAliceSplit();
    var ms := Matches(text);
    assert ms == [Span(3, 9)];
    var rs := ResolveAll(text, ms, byName);
    assert Resolve(text, ms[0], byName) == UserRef(alice) by {
      assert text[4..9] == "alice";
    }
    assert |rs| == 1 && rs[0] == Resolve(text, ms[0], byName);
    assert rs == [UserRef(alice)];
    assert Interleave(rs, ["hi "], 1) == [];
    assert Interleave(rs, ["hi "], 0) == [UserRef(alice)] + [] + [];
    assert Segment(text, byName).Success?;
    SegmentUnfold(text, byName);
    assert Segment(text, byName).value == [Literal("hi ")] + Interleave(rs, Split(text), 0);
    assert Segment(text, byName).value == [Literal("hi ")] + [UserRef(alice)];
    assert [Literal("hi ")] + [UserRef(alice)] == [Literal("hi "), UserRef(alice)];
  }

  lemma HiAliceRoster(alice: User, bob: User, carol: User)
    requires alice == User("a", "alice") && bob == User("b", "bob") && carol == User("c", "carol")
    ensures Others([alice, bob, carol], bob) == [alice, carol]
    ensures DistinctIds([alice, carol])
    ensures IdsOf([alice, bob, carol]) == {"a", "b", "c"}
  {
    var users := [alice, bob, carol];
    assert users[1..] == [bob, carol];
    assert users[1..][1..] == [carol];
    assert alice in users && bob in users && carol in users;
  }

  /** The message bob's text becomes: alice and carol unread, bob read. */
  lemma HiAliceCreate(st: Store, alice: User, bob: User, carol: User)
    requires alice == User("a", "alice") && bob == User("b", "bob") && carol == User("c", "carol")
    requires st == Store(true, map["alice" := alice], [alice, bob, carol], [])
    ensures var out := CreateMessage(st, bob, "hi @alice", "m1").out;
      && out.Just?
      && out.value.contents == [Literal("hi "), UserRef(alice)]
      && out.value.readUsers == map["a" := false, "b" := true, "c" := false]
  {
    HiAliceSegment(alice);
    HiAliceRoster(alice, bob, carol);
    CreateMessageOutcome(st, bob, "hi @alice", "m1");
    HiAliceReadState(CreateMessage(st, bob, "hi @alice", "m1").out.value.readUsers, st.users, alice, bob, carol);
  }

  lemma HiAliceReadState(rm: map<string, bool>, users: seq<User>, alice: User, bob: User, carol: User)
    requires alice == User("a", "alice") && bob == User("b", "bob") && carol == User("c", "carol")
    requires users == [alice, bob, carol]
    requires rm.Keys == IdsOf(users) + {bob.id} && rm[bob.id]
    requires forall u :: u in users && u.id != bob.id ==> !rm[u.id]
    ensures rm == map["a" := false, "b" := true, "c" := false]
  {
    HiAliceRoster(alice, bob, carol);
    assert alice in users && carol in users;
  }

  /** The payload of bob's message: two readers pending, "hi " and alice. */
  lemma HiAlicePayload(m: Message, alice: User, bob: User)
    requires alice == User("a", "alice") && bob == User("b", "bob")
    requires m.id == "m1" && m.from == bob && m.contents == [Literal("hi "), UserRef(alice)]
    requires m.readUsers == map["a" := false, "b" := true, "c" := false]
    ensures Render(m) == ResponsePayload("m1", "bob", 2,
      [ResponseContent(false, "hi "), ResponseContent(true, "alice")])
  {
    assert UnreadKeys(m.readUsers) == {"a", "c"};
    assert RenderContents(m.contents) == [ResponseContent(false, "hi "), ResponseContent(true, "alice")];
  }

  /** alice's read request against the stored message: one payload, one reader pending. */
  lemma HiAliceRead(st: Store, m: Message, alice: User, bob: User, carol: User)
    requires alice == User("a", "alice") && bob == User("b", "bob") && carol == User("c", "carol")
    requires st.users == [alice, bob, carol] && st.messages == [m]
    requires m.readUsers == map["a" := false, "b" := true, "c" := false]
    ensures var read := Dispatch(st, ReadRequest("a"), "m2");
      |read.out.value| == 1 && read.out.value[0].unReadCount == 1
  {
    assert FindUser(st.users, "a") == Some(alice);
    assert Pending(m, "a");
    assert PendingFor(st.messages, "a") == [m] by {
      assert st.messages[1..] == [];
    }
    assert UnreadKeys(AddReadUser(m, alice).readUsers) == {"c"};
  }

  /** bob writes "hi @alice" to a room of alice, bob and carol: the payload
      shows the literal "hi " and alice, with two readers pending; when alice
      then asks to read, the message comes back with one reader pending. */
  lemma HiAliceScenario()
    ensures var alice := User("a", "alice");
      var bob := User("b", "bob");
      var carol := User("c", "carol");
      var st := Store(true, map["alice" := alice], [alice, bob, carol], []);
      var sent := Dispatch(st, MessageRequest("b", Some("hi @alice")), "m1");
      && sent.out == Success([ResponsePayload("m1", "bob", 2,
           [ResponseContent(false, "hi "), ResponseContent(true, "alice")])])
      && var read := Dispatch(sent.store, ReadRequest("a"), "m2");
      && |read.out.value| == 1 && read.out.value[0].unReadCount == 1
  {
    var alice := User("a", "alice");
    var bob := User("b", "bob");
    var carol := User("c", "carol");
    var st := Store(true, map["alice" := alice], [alice, bob, carol], []);
    HiAliceCreate(st, alice, bob, carol);
    var step := CreateMessage(st, bob, "hi @alice", "m1");
    var m := step.out.value;
    assert FindUser(st.users, "b") == Some(bob);
    var sent := Dispatch(st, MessageRequest("b", Some("hi @alice")), "m1");
    assert sent == Reply(step.store, Success([Render(m)]));
    HiAlicePayload(m, alice, bob);
    assert sent.store.messages == [m];
    HiAliceRead(sent.store, m, alice, bob, carol);
  }
}
