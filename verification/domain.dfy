/** The entities of the chat domain and the read-state operations of a message. */
module Domain {
  import opened Wrappers

  /** The Java exceptions the pipeline can raise. */
  datatype Fault =
    | IndexOutOfBounds  // `tokens[0]` on an empty split result
    | DuplicateKey      // `Collectors.toMap` over two users sharing an id
    | NullPointer       // a `switch` over a missing op, `pattern.matcher` on a missing text
    | IllegalArgument   // a repository lookup by a missing id

  datatype User = User(id: string, name: string)

  /** One content segment of a message: literal text, or a resolved mention. */
  datatype Content = Literal(text: string) | UserRef(user: User)

  datatype Mention = Mention(user: User, isRead: bool)

  /** A stored message. The room reference and the creation timestamp are not modelled. */
  /** The name lookup `UserRepository.findByName`, as a finite directory. */
  type Directory = map<string, User>

  /** Every entry is filed under its user's own display name. */
  predicate FiledByName(byName: Directory) {
    forall n :: n in byName ==> byName[n].name == n
  }

  datatype Message = Message(
    id: string,
    from: User,
    contents: seq<Content>,
    mentions: seq<Mention>,
    readUsers: map<string, bool>)

  /** The user's entry exists and still says unread. */
  predicate Pending(m: Message, uid: string) {
    uid in m.readUsers && !m.readUsers[uid]
  }

  /** `addReadUser`: put `true` under the user's id, inserting the key when absent. */
  function AddReadUser(m: Message, user: User): (m': Message)
    ensures m' == m.(readUsers := m'.readUsers)
    ensures m'.readUsers.Keys == m.readUsers.Keys + {user.id}
    ensures m'.readUsers[user.id]
    ensures forall k :: k in m.readUsers && k != user.id ==> m'.readUsers[k] == m.readUsers[k]
  {
    m.(readUsers := m.readUsers[user.id := true])
  }

  /** No two users of the list share an id. */
  predicate DistinctIds(users: seq<User>) {
    forall a, b :: 0 <= a < b < |users| ==> users[a].id != users[b].id
  }

  function IdsOf(users: seq<User>): set<string> {
    set u | u in users :: u.id
  }

  /** `addUnReadUsers`: build an id -> false map with `Collectors.toMap`, which
      throws on a repeated key, and `putAll` it over the existing entries. */
  function AddUnReadUsers(m: Message, users: seq<User>): (r: Result<Message, Fault>)
    ensures r.Failure? <==> exists a, b :: 0 <= a < b < |users| && users[a].id == users[b].id
    ensures r.Failure? ==> r.error == DuplicateKey
    ensures r.Success? ==> r.value == m.(readUsers := r.value.readUsers)
    ensures r.Success? ==> r.value.readUsers.Keys == m.readUsers.Keys + IdsOf(users)
    ensures r.Success? ==> forall u :: u in users ==> !r.value.readUsers[u.id]
    ensures r.Success? ==>
      forall k :: k in m.readUsers && k !in IdsOf(users) ==> r.value.readUsers[k] == m.readUsers[k]
  {
    if !DistinctIds(users) then Failure(DuplicateKey)
    else Success(m.(readUsers := m.readUsers + map id | id in IdsOf(users) :: false))
  }

  /** The keys whose entry still says unread. */
  function UnreadKeys(readUsers: map<string, bool>): (ks: set<string>)
    ensures ks <= readUsers.Keys
    ensures forall k :: k in ks <==> k in readUsers && !readUsers[k]
  {
    set k | k in readUsers && !readUsers[k]
  }

  /** The number of entries of `readUsers` whose value is false. */
  function UnReadCount(m: Message): (n: nat)
    ensures n <= |m.readUsers|
    ensures n == 0 <==> forall k :: k in m.readUsers ==> m.readUsers[k]
  {
    var ks := UnreadKeys(m.readUsers);
    SubsetCardinality(ks, m.readUsers.Keys);
    |ks|
  }

  lemma SubsetCardinality<T>(a: set<T>, b: set<T>)
    requires a <= b
    ensures |a| <= |b|
  {
    assert b == a + (b - a);
  }

  /** Marking a user read twice leaves the message as marking once. */
  lemma AddReadUserIdempotent(m: Message, user: User)
    ensures AddReadUser(AddReadUser(m, user), user) == AddReadUser(m, user)
  {
  }

  /** Marking a user read lowers the unread count by one exactly when that
      user's entry was pending, and otherwise leaves it. */
  lemma AddReadUserCount(m: Message, user: User)
    ensures Pending(m, user.id) ==> UnReadCount(AddReadUser(m, user)) == UnReadCount(m) - 1
    ensures !Pending(m, user.id) ==> UnReadCount(AddReadUser(m, user)) == UnReadCount(m)
  {
    var m' := AddReadUser(m, user);
    var before := UnreadKeys(m.readUsers);
    var after := UnreadKeys(m'.readUsers);
    assert after == before - {user.id};
    if Pending(m, user.id) {
      assert user.id in before;
    } else {
      assert after == before;
    }
  }

  lemma IdsOfCons(users: seq<User>)
    requires |users| > 0
    ensures IdsOf(users) == {users[0].id} + IdsOf(users[1..])
  {
    forall id | id in IdsOf(users) ensures id in {users[0].id} + IdsOf(users[1..]) {
      var u :| u in users && u.id == id;
      var j :| 0 <= j < |users| && users[j] == u;
      if j > 0 { assert users[1..][j - 1] == u; }
    }
  }

  /** A list of users with distinct ids names as many ids as it has users. */
  lemma {:induction false} DistinctIdsCardinality(users: seq<User>)
    requires DistinctIds(users)
    ensures |IdsOf(users)| == |users|
  {
    if |users| > 0 {
      DistinctTail(users);
      DistinctIdsCardinality(users[1..]);
      IdsOfCons(users);
    }
  }

  /** Dropping the first user keeps the ids distinct, and the first id does
      not occur among the rest. */
  lemma DistinctTail(users: seq<User>)
    requires DistinctIds(users) && |users| > 0
    ensures DistinctIds(users[1..])
    ensures users[0].id !in IdsOf(users[1..])
  {
    var rest := users[1..];
    forall a, b | 0 <= a < b < |rest| ensures rest[a].id != rest[b].id {
      assert rest[a] == users[a + 1] && rest[b] == users[b + 1];
    }
    forall u | u in rest ensures u.id != users[0].id {
      var j :| 0 <= j < |rest| && rest[j] == u;
      assert users[j + 1] == u;
    }
  }

  /** Putting a user with a new id in front keeps the ids distinct. */
  lemma DistinctCons(u: User, rest: seq<User>)
    requires DistinctIds(rest) && u.id !in IdsOf(rest)
    ensures DistinctIds([u] + rest)
  {
    var r := [u] + rest;
    forall a, b | 0 <= a < b < |r| ensures r[a].id != r[b].id {
      assert r[b] == rest[b - 1] && rest[b - 1] in rest;
      if a > 0 {
        assert r[a] == rest[a - 1];
      }
    }
  }
}
