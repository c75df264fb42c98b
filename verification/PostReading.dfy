/** Private posts from the author's key to a reader's screen, across the ring. */
module PostReading {
  import opened Basics
  import opened ChordRing
  import opened PostKeys
  import opened Posts

  /** Content encryption with a post key. */
  datatype Cipher = Cipher(enc: (Secret, Bytes) -> Bytes, dec: (Secret, Bytes) -> Option<Bytes>)

  ghost predicate Undoes(c: Cipher) {
    forall secret, bytes :: c.dec(secret, c.enc(secret, bytes)) == Some(bytes)
  }

  /** What precedes the content of a post the reader cannot decrypt: ENCRYPTED POST CONTENT>> */
  const MARK: Bytes :=
    [69, 78, 67, 82, 89, 80, 84, 69, 68, 32, 80, 79, 83, 84, 32, 67, 79, 78, 84, 69, 78, 84, 62, 62]

  /** A private post as its author sends it off. */
  function Encrypted(c: Cipher, s: Author, post: Post): Option<Post> {
    if post.content.None? then None
    else if !s.encrypting then Some(post)
    else
      match MostRecent(s)
      case None => None
      case Some((secret, keyID)) => Some(post.(content := Some(c.enc(secret, post.content.value)), keyID := keyID))
  }

  /** The key a node finds for a post. */
  function KeyFor(s: Author, own: PublicKey, authorID: NodeID, keyID: nat): Option<Secret> {
    if authorID == s.id then Selected(s, keyID) else Open(Lookup(s.store, DecodingKey(authorID, keyID, s.id)), own)
  }

  /** The content in clear; posts without a key number are in clear already. */
  function Decrypted(c: Cipher, s: Author, own: PublicKey, post: Post): Option<Bytes> {
    var content := if post.content.Some? then post.content.value else [];
    if s.encrypting && post.keyID > 0 then
      match KeyFor(s, own, post.author, post.keyID)
      case None => None
      case Some(secret) => c.dec(secret, content)
    else Some(content)
  }

  /** What the reader is shown.  A post that cannot be decrypted is marked; one from the reader's own
      shelf loses its content besides. */
  function Shown(c: Cipher, s: Author, own: PublicKey, post: Post, atHome: bool): Post {
    if !s.encrypting then post
    else
      match Decrypted(c, s, own, post)
      case Some(bytes) => post.(content := Some(bytes))
      case None => post.(content := Some(MARK + if atHome || post.content.None? then [] else post.content.value))
  }

  /** Reader and author look at the same key store.  No message carries keys, so a reader with a store of
      its own has none of the author's: see SeparateStoresHide. */
  predicate Reads(reader: Author, author: Author) {
    reader.encrypting && reader.store == author.store
  }

  /** With the right key an encrypted post is shown as written, but for its key number. */
  lemma ShownAsWritten(c: Cipher, s: Author, post: Post, reader: Author, own: PublicKey, atHome: bool)
    requires Undoes(c) && reader.encrypting && s.encrypting && MostRecent(s).Some? && post.content.Some?
    requires var (secret, keyID) := MostRecent(s).value; KeyFor(reader, own, post.author, keyID) == Some(secret)
    ensures Encrypted(c, s, post).Some?
    ensures Shown(c, reader, own, Encrypted(c, s, post).value, atHome) == post.(keyID := |s.keys|)
  {
  }

  /** A post without a key number is shown as it is to every reader, and every post is where posts are not
      encrypted: there it is also sent as it is. */
  lemma ClearIsShown(c: Cipher, reader: Author, own: PublicKey, post: Post, atHome: bool)
    requires post.content.Some? && (post.keyID <= 0 || !reader.encrypting)
    ensures Shown(c, reader, own, post, atHome) == post
    ensures Decrypted(c, reader, own, post) == post.content
    ensures !reader.encrypting ==> Encrypted(c, reader, post) == Some(post)
  {
  }

  /** Encrypting does not shorten. */
  ghost predicate NoShorter(c: Cipher) {
    forall secret, bytes :: |c.enc(secret, bytes)| >= |bytes|
  }

  /** Someone else's encrypted post is shown as written if and only if the reader's own store holds, under
      the post's key number, a key sealed to the reader that decrypts it.  (A post that consists of the
      mark alone also looks the same on the shelf of a reader without the key.) */
  lemma ShownExactly(c: Cipher, s: Author, post: Post, reader: Author, own: PublicKey, atHome: bool)
    requires NoShorter(c) && reader.encrypting && s.encrypting && MostRecent(s).Some? && post.content.Some?
    requires post.author != reader.id
    ensures Encrypted(c, s, post).Some?
    ensures var sent, name := Encrypted(c, s, post).value, DecodingKey(post.author, |s.keys|, reader.id);
      var found := Open(Lookup(reader.store, name), own);
      var plain := if found.Some? then c.dec(found.value, sent.content.value) else None;
      Shown(c, reader, own, sent, atHome) == post.(keyID := |s.keys|) <==>
        plain == post.content || (plain == None && atHome && post.content.value == MARK)
  {
    var sent := Encrypted(c, s, post).value;
    assert |MARK + sent.content.value| > |post.content.value|;
    assert MARK + [] == MARK;
  }

  /** A node that alone writes to its store finds only its own decoding keys there. */
  lemma {:induction false} SeparateStoreHoldsOwn(states: seq<Author>, events: seq<Event>, j: nat)
    requires IsRun(states, events) && j < |states|
    requires forall e | e in events :: !e.Elsewhere?
    requires forall name | name in states[0].store :: name.PublicKeyOf?
    ensures states[j].id == states[0].id && states[j].encrypting == states[0].encrypting
    ensures forall name | name in states[j].store && name.DecodingKey? :: name.author == states[0].id
  {
    if j > 0 {
      SeparateStoreHoldsOwn(states, events, j - 1);
      assert events[j - 1] in events;
      StaysOwn(states[j - 1], events[j - 1], states[j]);
    }
  }

  lemma StaysOwn(s: Author, e: Event, s': Author)
    requires Step(s, e, s') && !e.Elsewhere?
    requires forall name | name in s.store && name.DecodingKey? :: name.author == s.id
    ensures s'.id == s.id && s'.encrypting == s.encrypting
    ensures forall name | name in s'.store && name.DecodingKey? :: name.author == s.id
  {
    forall name | name in s'.store && name.DecodingKey? ensures name.author == s.id {
      assert Lookup(s'.store, name).Some?;
    }
  }

  /** With separate key stores a follower never sees an encrypted post in clear, only the mark and, from
      afar, the encrypted bytes. */
  lemma SeparateStoresHide(c: Cipher, s: Author, post: Post, readers: seq<Author>, events: seq<Event>, j: nat,
          own: PublicKey, atHome: bool)
    requires IsRun(readers, events) && j < |readers| && readers[0].encrypting
    requires forall e | e in events :: !e.Elsewhere?
    requires forall name | name in readers[0].store :: name.PublicKeyOf?
    requires s.encrypting && MostRecent(s).Some? && post.content.Some? && post.author != readers[0].id
    ensures var sent := Encrypted(c, s, post);
      sent.Some? && Shown(c, readers[j], own, sent.value, atHome).content ==
        Some(MARK + if atHome then [] else sent.value.content.value)
  {
    SeparateStoreHoldsOwn(readers, events, j);
  }

  /** The author reads all its posts for ever, whatever followed. */
  lemma AuthorReadsOwn(c: Cipher, states: seq<Author>, events: seq<Event>, m: nat, j: nat, post: Post,
          own: PublicKey, atHome: bool)
    requires Undoes(c) && IsRun(states, events) && m <= j < |states| && states[0].encrypting
    requires post.author == states[0].id && post.content.Some?
    ensures Encrypted(c, states[m], post).Some?
    ensures Shown(c, states[j], own, Encrypted(c, states[m], post).value, atHome) == post.(keyID := |states[m].keys|)
  {
    RunKeepsInv(states, events, 0, m);
    RunKeepsInv(states, events, 0, j);
    KeyIDsStaySelect(states, events, m, j, states[0].id);
    ShownAsWritten(c, states[m], post, states[j], own, atHome);
  }

  /** Sharing the author's key store, a peer accepted while not blocked, after it published its key there,
      reads every post of the author, also those from before it followed, until it is removed or blocked
      or accepted with another identifier. */
  lemma FollowerReads(c: Cipher, states: seq<Author>, events: seq<Event>, i: nat, m: nat, j: nat, a: Addr, post: Post,
                      reader: Author, own: PublicKey, atHome: bool)
    requires Undoes(c) && IsRun(states, events) && PublicKeysStay(states) && states[0].encrypting
    requires i < j < |states| && m <= j && Reads(reader, states[j])
    requires Follows(events, i, j, a, reader.id) && Reader(states[i].store, reader.id) == Some(own)
    requires reader.id != states[0].id && forall secret | secret in states[m].keys :: Fits(secret, own)
    requires post.author == states[0].id && post.content.Some?
    ensures Encrypted(c, states[m], post).Some?
    ensures Shown(c, reader, own, Encrypted(c, states[m], post).value, atHome) == post.(keyID := |states[m].keys|)
  {
    RunKeepsInv(states, events, 0, m);
    RunKeepsInv(states, events, 0, j);
    KeyIDsStaySelect(states, events, m, j, reader.id);
    FollowersReadEverything(states, events, i, j, a, reader.id, own);
    ShownAsWritten(c, states[m], post, reader, own, atHome);
  }

  /** A peer blocked before a post was written is shown nothing of it but the mark and, from afar, the
      encrypted bytes. */
  lemma BlockedReadsNothing(c: Cipher, states: seq<Author>, events: seq<Event>, idOf: Addr -> NodeID, i: nat, m: nat,
          j: nat, post: Post, reader: Author, own: PublicKey, atHome: bool)
    requires IsRun(states, events) && Honest(events, idOf) && states[0].encrypting
    requires forall a, b :: idOf(a) == idOf(b) ==> a == b
    requires i < m <= j < |states| && events[i].Block? && Reads(reader, states[j])
    requires reader.id == idOf(events[i].peer) != states[0].id
    requires post.author == states[0].id && post.content.Some?
    ensures var sent := Encrypted(c, states[m], post);
      sent.Some? && Shown(c, reader, own, sent.value, atHome).content ==
        Some(MARK + if atHome then [] else sent.value.content.value)
  {
    RunKeepsInv(states, events, 0, i);
    RunKeepsInv(states, events, i, i + 1);
    RunKeepsInv(states, events, i + 1, m);
    RunKeepsInv(states, events, m, j);
    NoNewKeyForBlocked(states, events, idOf, i, j, |states[m].keys|);
  }

  /** Across the ring: stored by its author, and with whatever else delivered afterwards, a private post
      reaches every member as it was sent off exactly if the last delivery under its identifier, if any,
      carries the same. */
  lemma SentIsWhatArrives(net: Net, ring: set<Addr>, w: World, a: Addr, sent: Post, ds: seq<Delivery>, b: Addr)
    requires Ring(net, ring) && Complete(net, ring) && ring <= w.Keys && a in ring && b in ring
    requires Storable(sent) && FromMembers(ring, ds)
    ensures var w' := Deliver(net, ring, w, Stored(Request(a, sent, true)));
      Get(net, ring, Run(net, ring, w', ds), b, sent.postID) == Some(sent) <==>
      Last(net, ring, Some(sent), ds, sent.postID) == Some(sent)
  {
    var d := Stored(Request(a, sent, true));
    HolderIsShared(net, ring, a, b, sent.postID);
    DeliverThenGet(net, ring, w, d, b, sent.postID);
    EveryoneGetsTheLast(net, ring, Deliver(net, ring, w, d), ds, b, sent.postID);
  }

  lemma {:induction false} NothingConcerns(net: Net, ring: set<Addr>, before: Option<Post>, ds: seq<Delivery>,
          postID: string)
    requires Ring(net, ring) && FromMembers(ring, ds) && forall d | d in ds :: d.request.post.postID != postID
    ensures Last(net, ring, before, ds, postID) == before
  {
    if ds != [] {
      assert ds[|ds| - 1] in ds;
      NothingConcerns(net, ring, before, ds[..|ds| - 1], postID);
    }
  }

  /** Across the ring: stored by any member, a post in clear is what every member is shown, author, details
      and all, while nothing else is delivered under its identifier. */
  lemma ClearReachesAll(net: Net, ring: set<Addr>, w: World, a: Addr, post: Post, isPrivate: bool, ds: seq<Delivery>,
          b: Addr, c: Cipher, reader: Author, own: PublicKey)
    requires Ring(net, ring) && Complete(net, ring) && ring <= w.Keys && a in ring && b in ring
    requires Storable(post) && post.keyID == 0
    requires FromMembers(ring, ds) && forall d | d in ds :: d.request.post.postID != post.postID
    ensures Put(net, ring, w, a, post, isPrivate).Some?
    ensures var w' := Run(net, ring, Put(net, ring, w, a, post, isPrivate).value, ds);
      var found, atHome := Get(net, ring, w', b, post.postID), Holder(net, ring, b, post.postID) == Some(b);
      found.Some? && Shown(c, reader, own, found.value, atHome) == post
  {
    PutThenGet(net, ring, w, a, post, isPrivate, b, post.postID);
    var w1 := Put(net, ring, w, a, post, isPrivate).value;
    StoredAsWritten(net, ring, w, a, post, isPrivate, w1, b);
    EveryoneGetsTheLast(net, ring, w1, ds, b, post.postID);
    NothingConcerns(net, ring, Get(net, ring, w1, b, post.postID), ds, post.postID);
    ClearIsShown(c, reader, own, post, Holder(net, ring, b, post.postID) == Some(b));
  }
}
