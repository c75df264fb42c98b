/** Keys for private posts: an author's growing list of keys, shared with followers through a key store. */
module PostKeys {
  import opened Basics

  type Secret = seq<Byte>

  /** Identifiers in their textual form. */
  type NodeID = string

  /** A node's asymmetric key, and how many bytes its modulus has. */
  datatype PublicKey = PublicKey(owner: nat, size: nat)

  datatype KeyName =
    | PublicKeyOf(id: NodeID)
    | DecodingKey(author: NodeID, keyID: nat, target: NodeID)

  /** A published key, a post key sealed so that only one node can open it, or anything else. */
  datatype Value = Published(key: PublicKey) | Sealed(secret: Secret, to: PublicKey) | Junk(bytes: seq<Byte>)

  type Store = map<KeyName, Value>

  function Lookup(store: Store, name: KeyName): Option<Value> {
    if name in store then Some(store[name]) else None
  }

  /** The key a node has published. */
  function Reader(store: Store, id: NodeID): Option<PublicKey> {
    match Lookup(store, PublicKeyOf(id))
    case Some(Published(key)) => Some(key)
    case _ => None
  }

  /** Sealing needs room for the padding. */
  predicate Fits(secret: Secret, key: PublicKey) {
    |secret| + 11 <= key.size
  }

  function Seal(secret: Secret, key: PublicKey): Option<Value> {
    if Fits(secret, key) then Some(Sealed(secret, key)) else None
  }

  /** Only the node it was sealed to can open a key. */
  function Open(value: Option<Value>, own: PublicKey): (r: Option<Secret>)
    ensures forall secret :: r == Some(secret) <==> value == Some(Sealed(secret, own))
  {
    match value
    case Some(Sealed(secret, to)) => if to == own then Some(secret) else None
    case _ => None
  }

  /** What an author keeps. */
  datatype Author = Author(id: NodeID, encrypting: bool, followers: map<Addr, NodeID>, blocked: map<Addr, string>,
                           keys: seq<Secret>, store: Store)

  /** The name holds a key for one of the followers with the given identifiers who can be served. */
  predicate Serves(self: NodeID, ids: set<NodeID>, keys: seq<Secret>, store: Store, name: KeyName) {
    && name.DecodingKey? && name.author == self && name.target in ids
    && 1 <= name.keyID <= |keys|
    && Reader(store, name.target).Some?
    && Fits(keys[name.keyID - 1], Reader(store, name.target).value)
  }

  /** Every key has been sealed for every follower whose public key is there; nothing else changed. */
  ghost predicate Shared(self: NodeID, ids: set<NodeID>, keys: seq<Secret>, store: Store, store': Store) {
    forall name :: Lookup(store', name) ==
      if Serves(self, ids, keys, store, name) then Some(Sealed(keys[name.keyID - 1], Reader(store, name.target).value))
      else Lookup(store, name)
  }

  /** A follower is gone and, when posts are encrypted, a new key is in use and shared with the others. */
  ghost predicate Removed(s: Author, peer: Addr, secret: Secret, s': Author) {
    var rest := s.followers - {peer};
    if s.encrypting then
      && s' == s.(followers := rest, keys := s.keys + [secret], store := s'.store)
      && Shared(s.id, rest.Values, s.keys + [secret], s.store, s'.store)
    else
      s' == s.(followers := rest)
  }

  /** The last event is a write by another node: it may use any name but this author's decoding keys. */
  datatype Event =
    | FollowRequest(source: Addr, id: NodeID, accept: bool)
    | RemoveFollower(peer: Addr, secret: Secret)
    | Block(peer: Addr, nodeID: string, secret: Secret)
    | Elsewhere(name: KeyName, value: Value)

  ghost predicate Step(s: Author, e: Event, s': Author) {
    match e
    case FollowRequest(source, id, accept) =>
      if source in s.blocked || !accept then s' == s
      else
        && s' == s.(followers := s.followers[source := id], store := s'.store)
        && if s.encrypting then Shared(s.id, s'.followers.Values, s.keys, s.store, s'.store) else s'.store == s.store
    case RemoveFollower(peer, secret) => Removed(s, peer, secret, s')
    case Block(peer, nodeID, secret) => Removed(s.(blocked := s.blocked[peer := nodeID]), peer, secret, s')
    case Elsewhere(name, value) =>
      !(name.DecodingKey? && name.author == s.id) && s' == s.(store := s.store[name := value])
  }

  /** A node starts without followers, with its first key, and none of its decoding keys in the store. */
  ghost predicate Start(s: Author) {
    && s.followers == map[] && s.blocked == map[]
    && (s.encrypting ==> |s.keys| == 1)
    && forall name | name in s.store && name.DecodingKey? :: name.author != s.id
  }

  ghost predicate IsRun(states: seq<Author>, events: seq<Event>) {
    && |states| == |events| + 1
    && Start(states[0])
    && forall i: nat | i < |events| :: Step(states[i], events[i], states[i + 1])
  }

  /** The key that encrypts the next post, and its number. */
  function MostRecent(s: Author): Option<(Secret, nat)> {
    if s.keys == [] then None else Some((s.keys[|s.keys| - 1], |s.keys|))
  }

  /** The author's own way from a post's key number back to the key. */
  function Selected(s: Author, keyID: int): Option<Secret> {
    if 1 <= keyID <= |s.keys| then Some(s.keys[keyID - 1]) else None
  }

  /** --- every run --- */

  /** Blocked peers do not follow; stored decoding keys hold the key their number says. */
  ghost predicate Inv(s: Author) {
    && s.blocked.Keys !! s.followers.Keys
    && forall name | name in s.store && name.DecodingKey? && name.author == s.id ::
         1 <= name.keyID <= |s.keys| && s.store[name].Sealed? && s.store[name].secret == s.keys[name.keyID - 1]
  }

  lemma SharedKeepsInv(s: Author, ids: set<NodeID>, keys: seq<Secret>, store': Store)
    requires Inv(s) && s.keys <= keys && Shared(s.id, ids, keys, s.store, store')
    ensures forall name | name in store' && name.DecodingKey? && name.author == s.id ::
      1 <= name.keyID <= |keys| && store'[name].Sealed? && store'[name].secret == keys[name.keyID - 1]
  {
    forall name | name in store' && name.DecodingKey? && name.author == s.id
      ensures 1 <= name.keyID <= |keys| && store'[name].Sealed? && store'[name].secret == keys[name.keyID - 1]
    {
      assert Lookup(store', name) == Some(store'[name]);
    }
  }

  lemma StepKeepsInv(s: Author, e: Event, s': Author)
    requires Inv(s) && Step(s, e, s')
    ensures Inv(s') && s'.id == s.id && s'.encrypting == s.encrypting && s.keys <= s'.keys
    ensures s.blocked.Keys <= s'.blocked.Keys
    ensures forall name | name in s.store :: name in s'.store
    ensures forall name: KeyName | !e.Elsewhere? && !(name.DecodingKey? && name.author == s.id) ::
      Lookup(s'.store, name) == Lookup(s.store, name)
  {
    assert !e.Elsewhere? ==> forall name | name in s.store :: Lookup(s'.store, name).Some?;
    if s'.store != s.store && !e.Elsewhere? {
      SharedKeepsInv(s, s'.followers.Values, s'.keys, s'.store);
    }
  }

  lemma {:induction false} RunKeepsInv(states: seq<Author>, events: seq<Event>, i: nat, j: nat)
    requires IsRun(states, events) && i <= j < |states|
    ensures Inv(states[j]) && states[j].id == states[i].id && states[i].keys <= states[j].keys
    ensures states[j].encrypting == states[i].encrypting && states[i].blocked.Keys <= states[j].blocked.Keys
  {
    if i < j {
      RunKeepsInv(states, events, i, j - 1);
      StepKeepsInv(states[j - 1], events[j - 1], states[j]);
    } else if 0 < j {
      RunKeepsInv(states, events, j - 1, j - 1);
      StepKeepsInv(states[j - 1], events[j - 1], states[j]);
    }
  }

  /** Whoever has been blocked is no follower at any later time, whatever is requested. */
  lemma BlockedNeverFollow(states: seq<Author>, events: seq<Event>, i: nat, j: nat)
    requires IsRun(states, events) && i < j < |states| && events[i].Block?
    ensures events[i].peer !in states[j].followers
  {
    assert events[i].peer in states[i + 1].blocked.Keys;
    RunKeepsInv(states, events, i + 1, j);
  }

  /** One of the first n events blocks the peer. */
  ghost predicate WasBlocked(events: seq<Event>, n: nat, a: Addr)
    requires n <= |events|
  {
    exists k: nat | k < n :: events[k].Block? && events[k].peer == a
  }

  /** The blocked peers are those blocked at some time. */
  lemma {:induction false} BlockedExactly(states: seq<Author>, events: seq<Event>, j: nat, a: Addr)
    requires IsRun(states, events) && j < |states|
    ensures a in states[j].blocked <==> WasBlocked(events, j, a)
  {
    if j > 0 {
      BlockedExactly(states, events, j - 1, a);
      assert Step(states[j - 1], events[j - 1], states[j]);
      if events[j - 1].Block? && events[j - 1].peer == a {
        assert WasBlocked(events, j, a);
      } else {
        assert WasBlocked(events, j, a) <==> WasBlocked(events, j - 1, a);
      }
    }
  }

  /** The event takes from peer a that it follows with this identifier. */
  predicate Unfollows(e: Event, a: Addr, id: NodeID) {
    match e
    case FollowRequest(source, other, accept) => source == a && accept && other != id
    case RemoveFollower(peer, _) => peer == a
    case Block(peer, _, _) => peer == a
    case Elsewhere(_, _) => false
  }

  /** Event i is a request of peer a, not blocked so far, that is accepted, and nothing up to time j takes
      it back. */
  ghost predicate Follows(events: seq<Event>, i: nat, j: nat, a: Addr, id: NodeID)
    requires i < j <= |events|
  {
    && events[i] == FollowRequest(a, id, true)
    && !WasBlocked(events, i, a)
    && forall k | i < k < j :: !Unfollows(events[k], a, id)
  }

  /** Whoever is accepted while not blocked follows, with the identifier it sent, at every later time until
      it is removed or blocked or accepted with another one. */
  lemma {:induction false} AcceptedFollows(states: seq<Author>, events: seq<Event>, i: nat, j: nat, a: Addr, id: NodeID)
    requires IsRun(states, events) && i < j < |states| && Follows(events, i, j, a, id)
    ensures a in states[j].followers && states[j].followers[a] == id
  {
    assert Step(states[j - 1], events[j - 1], states[j]);
    if j == i + 1 {
      BlockedExactly(states, events, i, a);
    } else {
      AcceptedFollows(states, events, i, j - 1, a, id);
    }
  }

  lemma FollowedBefore(s: Author, e: Event, s': Author, a: Addr, id: NodeID)
    requires Inv(s) && Step(s, e, s') && a in s'.followers && s'.followers[a] == id
    ensures
      || (e == FollowRequest(a, id, true) && a !in s.blocked)
      || (a in s.followers && s.followers[a] == id && !Unfollows(e, a, id))
  {
  }

  /** And nobody else follows. */
  lemma {:induction false} FollowsExactly(states: seq<Author>, events: seq<Event>, j: nat, a: Addr, id: NodeID)
    requires IsRun(states, events) && j < |states|
    ensures a in states[j].followers && states[j].followers[a] == id <==>
            exists i: nat | i < j :: Follows(events, i, j, a, id)
  {
    if i: nat :| i < j && Follows(events, i, j, a, id) {
      AcceptedFollows(states, events, i, j, a, id);
    } else if a in states[j].followers && states[j].followers[a] == id {
      RunKeepsInv(states, events, j - 1, j - 1);
      FollowedBefore(states[j - 1], events[j - 1], states[j], a, id);
      if events[j - 1] == FollowRequest(a, id, true) && a !in states[j - 1].blocked {
        BlockedExactly(states, events, j - 1, a);
        assert Follows(events, j - 1, j, a, id);
      } else {
        FollowsExactly(states, events, j - 1, a, id);
        var i: nat :| i < j - 1 && Follows(events, i, j - 1, a, id);
        assert Follows(events, i, j, a, id);
      }
    }
  }

  /** The keys that came with removals and blocks, in order. */
  function NewSecrets(events: seq<Event>): seq<Secret> {
    if events == [] then []
    else
      NewSecrets(events[..|events| - 1])
      + match events[|events| - 1]
        case RemoveFollower(_, secret) => [secret]
        case Block(_, _, secret) => [secret]
        case _ => []
  }

  /** Every removal and every block brings a new key when posts are encrypted, whoever followed, and
      nothing else does. */
  lemma {:induction false} KeysExactly(states: seq<Author>, events: seq<Event>, j: nat)
    requires IsRun(states, events) && j < |states|
    ensures states[j].encrypting == states[0].encrypting
    ensures states[j].keys == states[0].keys + if states[0].encrypting then NewSecrets(events[..j]) else []
  {
    if j > 0 {
      KeysExactly(states, events, j - 1);
      assert Step(states[j - 1], events[j - 1], states[j]);
      assert events[..j][..j - 1] == events[..j - 1];
    }
  }

  /** A key number, once used for a post, selects the key of that post for ever: for the author in its
      list, and for everyone else in whatever is stored under that number. */
  lemma KeyIDsStaySelect(states: seq<Author>, events: seq<Event>, i: nat, j: nat, target: NodeID)
    requires IsRun(states, events) && i <= j < |states| && MostRecent(states[i]).Some?
    ensures var (secret, keyID) := MostRecent(states[i]).value;
      var stored := Lookup(states[j].store, DecodingKey(states[j].id, keyID, target));
      && Selected(states[j], keyID) == Some(secret)
      && (stored.Some? ==> stored.value.Sealed? && stored.value.secret == secret)
  {
    RunKeepsInv(states, events, i, j);
  }

  /** --- who gets new keys --- */

  /** Some follower between the two times had this identifier. */
  ghost predicate FollowedAs(states: seq<Author>, i: nat, j: nat, id: NodeID)
    requires j < |states|
  {
    exists m: nat | i < m <= j :: id in states[m].followers.Values
  }

  /** A key made after time i is stored only for identifiers under which someone followed since. */
  lemma {:induction false} NewKeysGoToFollowers(states: seq<Author>, events: seq<Event>, i: nat, j: nat, keyID: nat,
          id: NodeID)
    requires IsRun(states, events) && i <= j < |states| && keyID > |states[i].keys|
    requires DecodingKey(states[j].id, keyID, id) in states[j].store
    ensures FollowedAs(states, i, j, id)
  {
    var name := DecodingKey(states[j].id, keyID, id);
    RunKeepsInv(states, events, i, j);
    if i < j {
      RunKeepsInv(states, events, j - 1, j);
      var s, s' := states[j - 1], states[j];
      assert Lookup(s'.store, name).Some?;
      if name in s.store {
        NewKeysGoToFollowers(states, events, i, j - 1, keyID, id);
      } else {
        assert id in s'.followers.Values;
      }
    }
  }

  /** Requests carry the sender's own identifier. */
  ghost predicate Honest(events: seq<Event>, idOf: Addr -> NodeID) {
    forall i: nat | i < |events| && events[i].FollowRequest? :: events[i].id == idOf(events[i].source)
  }

  lemma {:induction false} FollowersUseTheirIDs(states: seq<Author>, events: seq<Event>, idOf: Addr -> NodeID, j: nat)
    requires IsRun(states, events) && Honest(events, idOf) && j < |states|
    ensures forall a | a in states[j].followers :: states[j].followers[a] == idOf(a)
  {
    if j > 0 {
      FollowersUseTheirIDs(states, events, idOf, j - 1);
    }
  }

  /** With honest, distinct identifiers no key created by a block or after it is ever written for the
      blocked peer's identifier. */
  lemma NoNewKeyForBlocked(states: seq<Author>, events: seq<Event>, idOf: Addr -> NodeID, i: nat, j: nat, keyID: nat)
    requires IsRun(states, events) && Honest(events, idOf) && i < j < |states| && events[i].Block?
    requires forall a, b :: idOf(a) == idOf(b) ==> a == b
    requires keyID > |states[i].keys|
    ensures DecodingKey(states[j].id, keyID, idOf(events[i].peer)) !in states[j].store
  {
    var id := idOf(events[i].peer);
    if DecodingKey(states[j].id, keyID, id) in states[j].store {
      NewKeysGoToFollowers(states, events, i, j, keyID, id);
      var m: nat :| i < m <= j && id in states[m].followers.Values;
      var a :| a in states[m].followers && states[m].followers[a] == id;
      FollowersUseTheirIDs(states, events, idOf, m);
      BlockedNeverFollow(states, events, i, m);
    }
  }

  /** --- followers can read --- */

  /** Public keys, once there, stay. */
  ghost predicate PublicKeysStay(states: seq<Author>) {
    forall i: nat, id | i + 1 < |states| && Reader(states[i].store, id).Some? ::
      Reader(states[i + 1].store, id) == Reader(states[i].store, id)
  }

  ghost predicate HasAllKeys(s: Author, id: NodeID, key: PublicKey) {
    forall k: nat | 1 <= k <= |s.keys| && Fits(s.keys[k - 1], key) ::
      Lookup(s.store, DecodingKey(s.id, k, id)) == Some(Sealed(s.keys[k - 1], key))
  }

  lemma SharingGivesAllKeys(s: Author, s': Author, id: NodeID, key: PublicKey)
    requires id in s'.followers.Values && s'.id == s.id && Reader(s.store, id) == Some(key)
    requires Shared(s.id, s'.followers.Values, s'.keys, s.store, s'.store)
    ensures HasAllKeys(s', id, key)
  {
  }

  lemma StepKeepsAllKeys(s: Author, e: Event, s': Author, id: NodeID, key: PublicKey)
    requires Step(s, e, s') && HasAllKeys(s, id, key) && Reader(s.store, id) == Some(key)
    requires id in s'.followers.Values
    ensures HasAllKeys(s', id, key)
  {
    if s'.store != s.store && !e.Elsewhere? {
      SharingGivesAllKeys(s, s', id, key);
    }
  }

  /** A peer accepted after publishing its key can open every key of the author, earlier and later
      ones, as long as its identifier is among the followers'. */
  lemma {:induction false} WhileListed(states: seq<Author>, events: seq<Event>, i: nat, j: nat, key: PublicKey)
    requires IsRun(states, events) && PublicKeysStay(states) && i < j < |states| && states[i].encrypting
    requires events[i].FollowRequest? && events[i].accept && events[i].source !in states[i].blocked
    requires Reader(states[i].store, events[i].id) == Some(key)
    requires forall m: nat | i < m <= j :: events[i].id in states[m].followers.Values
    ensures HasAllKeys(states[j], events[i].id, key) && Reader(states[j].store, events[i].id) == Some(key)
  {
    var id := events[i].id;
    if j == i + 1 {
      SharingGivesAllKeys(states[i], states[j], id, key);
    } else {
      WhileListed(states, events, i, j - 1, key);
      StepKeepsAllKeys(states[j - 1], events[j - 1], states[j], id, key);
    }
  }

  /** A peer accepted while not blocked, after publishing its key, can open every key of the author,
      earlier and later ones, until it is removed or blocked or accepted with another identifier. */
  lemma FollowersReadEverything(states: seq<Author>, events: seq<Event>, i: nat, j: nat, a: Addr, id: NodeID,
          key: PublicKey)
    requires IsRun(states, events) && PublicKeysStay(states) && i < j < |states| && states[0].encrypting
    requires Follows(events, i, j, a, id) && Reader(states[i].store, id) == Some(key)
    ensures Reader(states[j].store, id) == Some(key)
    ensures forall k: nat | 1 <= k <= |states[j].keys| && Fits(states[j].keys[k - 1], key) ::
      Open(Lookup(states[j].store, DecodingKey(states[0].id, k, id)), key) == Some(states[j].keys[k - 1])
  {
    forall m: nat | i < m <= j ensures id in states[m].followers.Values {
      AcceptedFollows(states, events, i, m, a, id);
    }
    BlockedExactly(states, events, i, a);
    RunKeepsInv(states, events, 0, i);
    RunKeepsInv(states, events, 0, j);
    WhileListed(states, events, i, j, key);
  }
}
