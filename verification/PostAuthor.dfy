/** The author's side of post keys, updated in place. */
module PostAuthor {
  import opened Basics
  import opened PostKeys

  /** A node's key store.  Several nodes may be given the same one. */
  class KeyStore {
    var data: Store

    constructor ()
      ensures data == map[]
    {
      data := map[];
    }

    method Get(name: KeyName) returns (value: Option<Value>)
      ensures value == Lookup(data, name)
    {
      value := if name in data then Some(data[name]) else None;
    }

    method Set(name: KeyName, value: Value)
      modifies this
      ensures data == old(data)[name := value]
    {
      data := data[name := value];
    }
  }

  function DecodePublicKey(text: Option<Value>): Option<PublicKey> {
    if text.Some? && text.value.Published? then Some(text.value.key) else None
  }

  /** The first n keys that fit have been sealed for one target; nothing else changed. */
  ghost predicate SharedUpTo(self: NodeID, target: NodeID, key: PublicKey, keys: seq<Secret>, n: nat, store: Store,
          store': Store)
    requires n <= |keys|
  {
    forall name :: Lookup(store', name) ==
      if
        && name.DecodingKey? && name.author == self && name.target == target
        && 1 <= name.keyID <= n && Fits(keys[name.keyID - 1], key)
      then Some(Sealed(keys[name.keyID - 1], key))
      else Lookup(store, name)
  }

  class PostAuthor {
    const id: NodeID
    const encrypting: bool
    const publicKey: PublicKey
    const keyStore: KeyStore
    var followers: map<Addr, NodeID>
    var following: map<Addr, NodeID>
    var blockedPeers: map<Addr, string>
    var postKeys: seq<Secret>

    function State(): Author
      reads this, keyStore
    {
      Author(id, encrypting, followers, blockedPeers, postKeys, keyStore.data)
    }

    constructor (id: NodeID, encrypting: bool, publicKey: PublicKey, keyStore: KeyStore)
      ensures this.id == id && this.encrypting == encrypting && this.publicKey == publicKey && this.keyStore == keyStore
      ensures followers == map[] && following == map[] && blockedPeers == map[] && postKeys == []
    {
      this.id := id;
      this.encrypting := encrypting;
      this.publicKey := publicKey;
      this.keyStore := keyStore;
      followers := map[];
      following := map[];
      blockedPeers := map[];
      postKeys := [];
    }

    /** Publishes the node's own key and makes the first post key. */
    method SetupNodeKeys(secret: Secret)
      requires followers == map[] && blockedPeers == map[]
      modifies this`postKeys, keyStore
      ensures (forall name | name in old(keyStore.data) && name.DecodingKey? :: name.author != id) ==> Start(State())
      ensures keyStore.data == if encrypting then old(keyStore.data)[PublicKeyOf(id) := Published(publicKey)]
                               else old(keyStore.data)
      ensures postKeys == if encrypting then [secret] else old(postKeys)
    {
      if encrypting {
        postKeys := [];
        keyStore.Set(PublicKeyOf(id), Published(publicKey));
        label published:
        GenerateNewPostKey(secret);
        SharedWithNobody@published(followers.Values);
      }
    }

    twostate lemma SharedWithNobody(ids: set<NodeID>)
      requires ids == {} && Shared(id, ids, postKeys, old(keyStore.data), keyStore.data)
      ensures keyStore.data == old(keyStore.data)
    {
      var before, after := old(keyStore.data), keyStore.data;
      forall name ensures name in after <==> name in before
        ensures name in after ==> after[name] == before[name]
      {
        assert Lookup(after, name) == Lookup(before, name);
      }
    }

    /** Seals every post key for one follower. */
    method ShareWith(follower: NodeID, key: PublicKey)
      modifies keyStore
      ensures SharedUpTo(id, follower, key, postKeys, |postKeys|, old(keyStore.data), keyStore.data)
    {
      for keyIDMinusOne := 0 to |postKeys|
        invariant SharedUpTo(id, follower, key, postKeys, keyIDMinusOne, old(keyStore.data), keyStore.data)
      {
        var encryptedKey := Seal(postKeys[keyIDMinusOne], key);
        if encryptedKey.None? {
          continue;
        }
        keyStore.Set(DecodingKey(id, keyIDMinusOne + 1, follower), encryptedKey.value);
      }
    }

    /** Seals every post key for every follower, skipping those whose public key is not to be had. */
    method UpdateNodePostKeys()
      modifies keyStore
      ensures Shared(id, followers.Values, postKeys, old(keyStore.data), keyStore.data)
    {
      var rest := followers.Keys;
      ghost var done: set<NodeID> := {};
      while rest != {}
        invariant rest <= followers.Keys
        invariant done == set v | v in followers.Keys - rest :: followers[v]
        invariant Shared(id, done, postKeys, old(keyStore.data), keyStore.data)
        decreases rest
      {
        var v :| v in rest;
        rest := rest - {v};
        var follower := followers[v];
        done := done + {follower};
        assert Lookup(keyStore.data, PublicKeyOf(follower)) == Lookup(old(keyStore.data), PublicKeyOf(follower));
        var text := keyStore.Get(PublicKeyOf(follower));
        var key := DecodePublicKey(text);
        if key.None? {
          continue;
        }
        ShareWith(follower, key.value);
      }
      assert done == followers.Values;
    }

    method GenerateNewPostKey(secret: Secret)
      modifies this`postKeys, keyStore
      ensures postKeys == if encrypting then old(postKeys) + [secret] else old(postKeys)
      ensures encrypting ==> Shared(id, followers.Values, postKeys, old(keyStore.data), keyStore.data)
      ensures !encrypting ==> keyStore.data == old(keyStore.data)
    {
      if encrypting {
        postKeys := postKeys + [secret];
        UpdateNodePostKeys();
      }
    }

    /** Drops requests of blocked peers; otherwise the user decides. */
    method FollowRequestMessageCallback(source: Addr, chordID: NodeID, accept: bool) returns (replied: bool)
      modifies this`followers, keyStore
      ensures Step(old(State()), FollowRequest(source, chordID, accept), State())
      ensures followers ==
        if accept && source !in blockedPeers then old(followers)[source := chordID] else old(followers)
      ensures replied == (accept && source !in blockedPeers)
    {
      if source in blockedPeers {
        return false;
      }
      if accept {
        followers := followers[source := chordID];
        if encrypting {
          UpdateNodePostKeys();
        }
        return true;
      }
      replied := false;
    }

    method RemoveFollower(peer: Addr, secret: Secret)
      modifies this`followers, this`postKeys, keyStore
      ensures Removed(old(State()), peer, secret, State())
      ensures Step(old(State()), Event.RemoveFollower(peer, secret), State())
      ensures followers == old(followers) - {peer}
      ensures postKeys == if encrypting then old(postKeys) + [secret] else old(postKeys)
    {
      followers := followers - {peer};
      if encrypting {
        GenerateNewPostKey(secret);
      }
    }

    method StopFollowing(peer: Addr)
      modifies this`following
      ensures following == old(following) - {peer}
    {
      if peer in following {
        following := following - {peer};
      }
    }

    /** Blocking a peer also stops following it and removes it as a follower. */
    method Block(peer: Addr, nodeID: string, secret: Secret)
      modifies this`blockedPeers, this`followers, this`following, this`postKeys, keyStore
      ensures Step(old(State()), Event.Block(peer, nodeID, secret), State())
      ensures blockedPeers == old(blockedPeers)[peer := nodeID] && followers == old(followers) - {peer}
      ensures postKeys == if encrypting then old(postKeys) + [secret] else old(postKeys)
      ensures following == old(following) - {peer}
    {
      blockedPeers := blockedPeers[peer := nodeID];
      if peer in following || nodeID in following {
        StopFollowing(peer);
      }
      RemoveFollower(peer, secret);
    }

    /** What encrypts the next private post. */
    method GetMostRecentPostKey() returns (r: Option<(Secret, nat)>)
      ensures r == MostRecent(State())
    {
      if |postKeys| <= 0 {
        return None;
      }
      r := Some((postKeys[|postKeys| - 1], |postKeys|));
    }

    /** The key of a post: the author's own list, or what the author sealed for this node. */
    method GetDecryptionKey(authorID: NodeID, keyID: nat) returns (key: Option<Secret>)
      requires authorID == id ==> 1 <= keyID <= |postKeys|
      ensures key == if authorID == id then Selected(State(), keyID)
                     else Open(Lookup(keyStore.data, DecodingKey(authorID, keyID, id)), publicKey)
    {
      if authorID == id {
        key := Some(postKeys[keyID - 1]);
      } else {
        var text := keyStore.Get(DecodingKey(authorID, keyID, id));
        key := Open(text, publicKey);
      }
    }
  }
}
