/**
 * `MessagesPatcher`: assembling a new message from raw text, marking one
 * message read for one user, and the op-based dispatch between the two.
 */
module MessagesPatcher {
  import opened Wrappers
  import opened Domain
  import opened MentionRegex
  import opened Segmentation
  import opened Repository

  const MessageCreate: string := "create"
  const MessageRead: string := "read"

  /** What an operation leaves behind: the store after its saves, and what it emits. */
  datatype Step = Step(store: Store, out: Mono<Message, Fault>)

  /** The roster without the sender: every user whose id differs from the sender's. */
  function Others(users: seq<User>, from: User): (r: seq<User>)
    ensures forall u :: u in r <==> u in users && u.id != from.id
    ensures IdsOf(r) == IdsOf(users) - {from.id}
    ensures |r| <= |users|
    decreases |users|
  {
    if |users| == 0 then []
    else if users[0].id != from.id then [users[0]] + Others(users[1..], from)
    else Others(users[1..], from)
  }

  /** Filtering out the sender keeps a roster of distinct ids distinct, so
      `Collectors.toMap` cannot throw on it. */
  lemma {:induction false} OthersDistinct(users: seq<User>, from: User)
    requires DistinctIds(users)
    ensures DistinctIds(Others(users, from))
    decreases |users|
  {
    if |users| > 0 {
      DistinctTail(users);
      OthersDistinct(users[1..], from);
      var rest := Others(users[1..], from);
      if users[0].id != from.id {
        assert IdsOf(rest) == IdsOf(users[1..]) - {from.id};
        DistinctCons(users[0], rest);
      }
    }
  }

  /** The filter keeps roster order and repeats: filtering a concatenation
      concatenates the filtered parts. */
  lemma {:induction false} OthersAppend(a: seq<User>, b: seq<User>, from: User)
    ensures Others(a + b, from) == Others(a, from) + Others(b, from)
    decreases |a|
  {
    if |a| == 0 {
      assert a + b == b;
    } else {
      assert (a + b)[0] == a[0];
      assert (a + b)[1..] == a[1..] + b;
      OthersAppend(a[1..], b, from);
    }
  }

  /** One unread mention per user segment, in segment order. */
  function MentionsOf(cs: seq<Content>): (ms: seq<Mention>)
    ensures |ms| <= |cs|
    ensures forall k :: 0 <= k < |ms| ==> !ms[k].isRead
    ensures forall u :: Mention(u, false) in ms <==> UserRef(u) in cs
    decreases |cs|
  {
    if |cs| == 0 then []
    else
      var head := if cs[0].UserRef? then [Mention(cs[0].user, false)] else [];
      assert cs == [cs[0]] + cs[1..];
      head + MentionsOf(cs[1..])
  }

  /** Deriving mentions distributes over concatenation, so they keep segment order. */
  lemma {:induction false} MentionsOfAppend(a: seq<Content>, b: seq<Content>)
    ensures MentionsOf(a + b) == MentionsOf(a) + MentionsOf(b)
    decreases |a|
  {
    if |a| == 0 {
      assert a + b == b;
    } else {
      assert (a + b)[0] == a[0];
      assert (a + b)[1..] == a[1..] + b;
      MentionsOfAppend(a[1..], b);
    }
  }

  /** `createMessage`: find the room, segment the text, derive the mentions,
      seed every other roster user unread and the sender read, then save. */
  function CreateMessage(st: Store, from: User, text: string, newId: string): (r: Step)
    ensures r.out.Empty? <==> !st.roomExists
    ensures !r.out.Just? ==> r.store == st
    ensures r.out.Just? ==>
      var m := r.out.value;
      && Segment(text, st.byName) == Success(m.contents)
      && m.id == newId && m.from == from
      && m.mentions == MentionsOf(m.contents)
      && m.readUsers.Keys == IdsOf(st.users) + {from.id}
      && m.readUsers[from.id]
      && (forall u :: u in st.users && u.id != from.id ==> !m.readUsers[u.id])
      && r.store == Commit(st, m)
  {
    if !st.roomExists then Step(st, Empty)
    else
      match Segment(text, st.byName)
      case Failure(e) => Step(st, Error(e))
      case Success(cs) =>
        match SeedReadUsers(Message(newId, from, cs, MentionsOf(cs), map[]), st.users)
        case Failure(e) => Step(st, Error(e))
        case Success(m) => Step(Commit(st, m), Just(m))
  }

  /** Seeding the read state of a fresh message: every roster user but the
      sender unread, then the sender read, whether on the roster or not. */
  function SeedReadUsers(draft: Message, users: seq<User>): (r: Result<Message, Fault>)
    requires draft.readUsers == map[]
    ensures r.Failure? <==> !DistinctIds(Others(users, draft.from))
    ensures r.Failure? ==> r.error == DuplicateKey
    ensures r.Success? ==>
      var seeded := r.value.readUsers;
      && r.value == draft.(readUsers := seeded)
      && seeded.Keys == IdsOf(users) + {draft.from.id}
      && seeded[draft.from.id]
      && (forall u :: u in users && u.id != draft.from.id ==> u.id in seeded && !seeded[u.id])
  {
    var others := Others(users, draft.from);
    match AddUnReadUsers(draft, others)
    case Failure(e) => Failure(e)
    case Success(m) =>
      assert m.readUsers.Keys == IdsOf(users) - {draft.from.id};
      Success(AddReadUser(m, draft.from))
  }

  /** The ways creation fails: no room gives nothing, a text that is one
      mention token alone throws on `tokens[0]`, and two other users sharing
      an id throw in `Collectors.toMap`. */
  lemma CreateMessageOutcome(st: Store, from: User, text: string, newId: string)
    requires st.roomExists
    ensures var out := CreateMessage(st, from, text, newId).out;
      && (IsLoneToken(text) ==> out == Error(IndexOutOfBounds))
      && (!IsLoneToken(text) && !DistinctIds(Others(st.users, from)) ==> out == Error(DuplicateKey))
      && (out.Just? <==> !IsLoneToken(text) && DistinctIds(Others(st.users, from)))
  {
    SegmentFailsIffLoneToken(text, st.byName);
  }

  /** With a roster of distinct ids that includes the sender, a new message
      has one entry per roster user and all but the sender are unread. */
  lemma CreateMessageCounts(st: Store, from: User, text: string, newId: string)
    requires DistinctIds(st.users) && from in st.users
    requires st.roomExists && !IsLoneToken(text)
    ensures CreateMessage(st, from, text, newId).out.Just?
    ensures var m := CreateMessage(st, from, text, newId).out.value;
      |m.readUsers| == |st.users| && UnReadCount(m) == |st.users| - 1
  {
    OthersDistinct(st.users, from);
    CreateMessageOutcome(st, from, text, newId);
    var m := CreateMessage(st, from, text, newId).out.value;
    SeededCounts(m.readUsers, st.users, from.id);
  }

  /** With the fresh id the database assigns, creating a message only adds
      it after the stored ones. */
  lemma CreateMessageFresh(st: Store, from: User, text: string, newId: string)
    requires FindMessage(st.messages, newId).None?
    ensures var r := CreateMessage(st, from, text, newId);
      r.out.Just? ==> r.store == st.(messages := st.messages + [r.out.value])
  {
    var r := CreateMessage(st, from, text, newId);
    if r.out.Just? {
      SaveFresh(st.messages, r.out.value);
    }
  }

  /** The counting argument on the map alone: distinct roster ids, all keys,
      one of them read and the rest unread. */
  lemma SeededCounts(rm: map<string, bool>, users: seq<User>, sender: string)
    requires DistinctIds(users) && sender in IdsOf(users)
    requires rm.Keys == IdsOf(users) + {sender} && rm[sender]
    requires forall u :: u in users && u.id != sender ==> !rm[u.id]
    ensures |rm| == |users| && |UnreadKeys(rm)| == |users| - 1
  {
    DistinctIdsCardinality(users);
    assert rm.Keys == IdsOf(users);
    assert UnreadKeys(rm) == IdsOf(users) - {sender} by {
      forall k | k in IdsOf(users) - {sender} ensures k in UnreadKeys(rm) {
        var u :| u in users && u.id == k;
      }
    }
  }

  /** The private `readMessage`: look the message up; if the user's entry is
      there and still unread, mark it read and save, otherwise emit nothing. */
  function ReadMessage(st: Store, user: User, target: Option<string>): (r: Step)
    ensures r.out.Error? <==> target.None?
    ensures r.out.Error? ==> r.out.error == IllegalArgument
    ensures r.out.Just? <==>
      target.Some? && FindMessage(st.messages, target.value).Some?
      && Pending(FindMessage(st.messages, target.value).value, user.id)
    ensures !r.out.Just? ==> r.store == st
    ensures r.out.Just? ==>
      var before := FindMessage(st.messages, target.value).value;
      && r.out.value == before.(readUsers := r.out.value.readUsers)
      && r.out.value.readUsers.Keys == before.readUsers.Keys
      && r.out.value.readUsers[user.id]
      && (forall k :: k in before.readUsers && k != user.id ==> r.out.value.readUsers[k] == before.readUsers[k])
      && r.store == Commit(st, r.out.value)
  {
    match target
    case None => Step(st, Error(IllegalArgument))
    case Some(id) =>
      match FindMessage(st.messages, id)
      case None => Step(st, Empty)
      case Some(m) =>
        if Pending(m, user.id) then
          var m' := AddReadUser(m, user);
          Step(Commit(st, m'), Just(m'))
        else Step(st, Empty)
  }

  /** A successful read lowers the message's unread count by exactly one. */
  lemma ReadMessageCount(st: Store, user: User, target: Option<string>)
    requires ReadMessage(st, user, target).out.Just?
    ensures UnReadCount(ReadMessage(st, user, target).out.value)
      == UnReadCount(FindMessage(st.messages, target.value).value) - 1
  {
    AddReadUserCount(FindMessage(st.messages, target.value).value, user);
  }

  /** Reading the same message again after a read emits nothing and saves nothing. */
  lemma ReadMessageIdempotent(st: Store, user: User, target: Option<string>)
    ensures var st' := ReadMessage(st, user, target).store;
      && !ReadMessage(st', user, target).out.Just?
      && ReadMessage(st', user, target).store == st'
  {
  }

  /** The request after JSON parsing: every field may be missing. `value` is
      kept as the text `String.valueOf` makes of it when present. */
  datatype RequestPayload = RequestPayload(op: Option<string>, target: Option<string>, value: Option<string>)

  /** `String.valueOf(Object)`: a missing value becomes the four letters "null". */
  function ValueOf(value: Option<string>): (t: string)
    ensures value.Some? ==> t == value.value
    ensures value.None? ==> t == "null"
  {
    match value
    case Some(v) => v
    case None => "null"
  }

  /** `run`: a `switch` on the op, which throws when the op is missing. */
  function Run(st: Store, user: User, request: RequestPayload, newId: string): (r: Step)
    ensures request.op.None? ==> r == Step(st, Error(NullPointer))
    ensures request.op == Some(MessageCreate) ==> r == CreateMessage(st, user, ValueOf(request.value), newId)
    ensures request.op == Some(MessageRead) ==> r == ReadMessage(st, user, request.target)
    ensures request.op.Some? && request.op.value != MessageCreate && request.op.value != MessageRead ==>
      r == Step(st, Empty)
  {
    match request.op
    case None => Step(st, Error(NullPointer))
    case Some(op) =>
      if op == MessageCreate then CreateMessage(st, user, ValueOf(request.value), newId)
      else if op == MessageRead then ReadMessage(st, user, request.target)
      else Step(st, Empty)
  }

  /** A create request without a value posts the literal text "null". */
  lemma RunCreateWithoutValue(st: Store, user: User, target: Option<string>, newId: string)
    requires st.roomExists && DistinctIds(Others(st.users, user))
    ensures var r := Run(st, user, RequestPayload(Some(MessageCreate), target, None), newId);
      r.out.Just? && r.out.value.contents == [Literal("null")]
  {
    forall p: nat ensures !TokenStartsAt("null", p) {}
    SegmentWithoutMention("null", st.byName);
  }
}
