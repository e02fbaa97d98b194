/**
 * The repositories the pipeline reads and writes, as plain values: whether
 * the root chat room exists, the name lookup, the user roster and the
 * stored messages.
 */
module Repository {
  import opened Wrappers
  import opened Domain

  datatype Store = Store(
    roomExists: bool,      // `chatRepository.findById(rootChatId)` finds the room
    byName: Directory,     // `userRepository.findByName`
    users: seq<User>,      // `userRepository.findAll`, in roster order
    messages: seq<Message>)

  /** `messageRepository.findById`: the first stored message with that id. */
  function FindMessage(ms: seq<Message>, id: string): (r: Option<Message>)
    ensures r.Some? ==> r.value in ms && r.value.id == id
    ensures r.None? <==> forall k :: 0 <= k < |ms| ==> ms[k].id != id
    decreases |ms|
  {
    if |ms| == 0 then None
    else if ms[0].id == id then Some(ms[0])
    else FindMessage(ms[1..], id)
  }

  /** `userRepository.findById`: the first user of the roster with that id. */
  function FindUser(users: seq<User>, id: string): (r: Option<User>)
    ensures r.Some? ==> r.value in users && r.value.id == id
    ensures r.None? <==> forall k :: 0 <= k < |users| ==> users[k].id != id
    decreases |users|
  {
    if |users| == 0 then None
    else if users[0].id == id then Some(users[0])
    else FindUser(users[1..], id)
  }

  /** `messageRepository.save`: replace the stored message with the same id,
      or add the message at the end when there is none. */
  function Save(ms: seq<Message>, m: Message): (r: seq<Message>)
    ensures FindMessage(r, m.id) == Some(m)
    ensures forall id :: id != m.id ==> FindMessage(r, id) == FindMessage(ms, id)
    ensures |r| == |ms| + (if FindMessage(ms, m.id).Some? then 0 else 1)
    decreases |ms|
  {
    if |ms| == 0 then [m]
    else if ms[0].id == m.id then [m] + ms[1..]
    else [ms[0]] + Save(ms[1..], m)
  }

  /** Saving a message whose id is new appends it and keeps every stored
      message in place. */
  lemma {:induction false} SaveFresh(ms: seq<Message>, m: Message)
    requires FindMessage(ms, m.id).None?
    ensures Save(ms, m) == ms + [m]
    decreases |ms|
  {
    if |ms| > 0 {
      assert ms[0].id != m.id;
      assert Save(ms, m) == [ms[0]] + Save(ms[1..], m);
      SaveFresh(ms[1..], m);
      assert ms == [ms[0]] + ms[1..];
    }
  }

  /** The store after saving `m`; nothing but the messages changes. */
  function Commit(st: Store, m: Message): (st': Store)
    ensures st' == st.(messages := st'.messages)
    ensures FindMessage(st'.messages, m.id) == Some(m)
    ensures forall id :: id != m.id ==> FindMessage(st'.messages, id) == FindMessage(st.messages, id)
  {
    st.(messages := Save(st.messages, m))
  }

}
