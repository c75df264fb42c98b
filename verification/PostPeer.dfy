/** A member that stores, keeps and fetches posts. */
module PostPeer {
  import opened Basics
  import opened ChordRing
  import opened Posts
  import opened PostReading
  import ByteKeys
  import PostAuthor
  import ChordPeer

  type Members = map<Addr, PostPeer>

  ghost function Objects(members: Members): set<object> {
    set a | a in members :: members[a]
  }

  ghost function Shelves(members: Members): World
    reads Objects(members)
  {
    map a | a in members :: members[a].Shelf()
  }

  /** Every member sits under its address, on top of a Chord peer with that address. */
  ghost predicate Placed(members: Members, peers: ChordPeer.Peers, ring: set<Addr>) {
    && ring <= members.Keys
    && forall a | a in members ::
         && members[a].addr == a && a in peers
         && peers[a] == members[a].chord && members[a].chord.addr == a
  }

  class PostPeer {
    const addr: Addr
    const chord: ChordPeer.Peer
    const author: PostAuthor.PostAuthor
    const cipher: Cipher
    var postStore: map<string, Post>
    var postCatalog: Catalog

    constructor (addr: Addr, chord: ChordPeer.Peer, author: PostAuthor.PostAuthor, cipher: Cipher)
      ensures this.addr == addr && this.chord == chord && this.author == author && this.cipher == cipher
      ensures Shelf() == Posts.Shelf(map[], map[])
    {
      this.addr := addr;
      this.chord := chord;
      this.author := author;
      this.cipher := cipher;
      postStore := map[];
      postCatalog := map[];
    }

    ghost function Shelf(): Shelf
      reads this
    {
      Posts.Shelf(postStore, postCatalog)
    }

    method StorePrivatePostInCatalog(post: Post)
      modifies this`postCatalog
      ensures Shelf() == Note(old(Shelf()), post, true)
    {
      var postIDsByAuthor := if post.author in postCatalog then postCatalog[post.author] else {};
      postIDsByAuthor := postIDsByAuthor + {post.postID};
      postCatalog := postCatalog[post.author := postIDsByAuthor];
    }

    method StorePublicPostInCatalog(post: Post)
      modifies this`postCatalog
      ensures Shelf() == Note(old(Shelf()), post, false)
    {
      var postIDsByAuthor := if PUBLIC in postCatalog then postCatalog[PUBLIC] else {};
      postIDsByAuthor := postIDsByAuthor + {post.postID};
      postCatalog := postCatalog[PUBLIC := postIDsByAuthor];
    }

    /** Keeps a post another member sent. */
    method HandlePostRequest(post: Post, isPrivate: bool)
      modifies this
      ensures Shelf() == Handle(old(Shelf()), post, isPrivate)
    {
      postStore := postStore[post.postID := post];
      if isPrivate {
        StorePrivatePostInCatalog(post);
      } else {
        StorePublicPostInCatalog(post);
      }
    }

    /** The member responsible for a post, as the Chord peer below finds it. */
    method FindHolder(peers: ChordPeer.Peers, ghost net: Net, ghost ring: set<Addr>, postID: string)
      returns (h: Option<Addr>)
      requires ChordPeer.Network(peers) && net == ChordPeer.View(peers) && Ring(net, ring)
      requires addr in ring && addr in peers && peers[addr] == chord && chord.addr == addr
      ensures h == Holder(net, ring, addr, postID)
    {
      var key := ByteKeys.Decoded(postID);
      if key.None? {
        return None;
      }
      var c := chord.FindSuccessor(peers, net, ring, ByteKeys.IdOf(key.value));
      h := if c.None? then None else Some(c.value.addr);
    }

    /** Sends the post to another member and lists it here. */
    method SendAway(members: Members, holder: Addr, post: Post, isPrivate: bool)
      requires {addr, holder} <= members.Keys && members[addr] == this && holder != addr
      requires forall a | a in members :: members[a].addr == a
      modifies Objects(members)
      ensures Shelves(members) == Shelved(old(Shelves(members)), addr, holder, post, isPrivate)
    {
      members[holder].HandlePostRequest(post, isPrivate);
      if isPrivate {
        StorePrivatePostInCatalog(post);
      } else {
        StorePublicPostInCatalog(post);
      }
      ghost var after := Shelved(old(Shelves(members)), addr, holder, post, isPrivate);
      assert forall a | a in members :: members[a].Shelf() == after[a];
    }

    /** Keeps the post at home or sends it to its holder, and lists it either way. */
    method Deliver(members: Members, holder: Addr, post: Post, isPrivate: bool)
      requires {addr, holder} <= members.Keys && members[addr] == this
      requires forall a | a in members :: members[a].addr == a
      modifies Objects(members)
      ensures Shelves(members) == Shelved(old(Shelves(members)), addr, holder, post, isPrivate)
    {
      if holder == addr {
        ghost var w := Shelves(members);
        HandlePostRequest(if isPrivate then post else post.(keyID := 0), isPrivate);
        assert forall a | a in members && a != addr :: members[a].Shelf() == w[a];
      } else {
        SendAway(members, holder, post, isPrivate);
      }
    }

    /** Finds the holder and delivers. */
    method Store(members: Members, peers: ChordPeer.Peers, ghost net: Net, ghost ring: set<Addr>, post: Post,
            isPrivate: bool)
      returns (ok: bool)
      requires ChordPeer.Network(peers) && net == ChordPeer.View(peers) && Ring(net, ring)
      requires Placed(members, peers, ring)
      requires addr in ring && members[addr] == this && post.content.Some?
      modifies Objects(members)
      ensures var put := Put(net, ring, old(Shelves(members)), addr, post, isPrivate);
        ok == put.Some? && Shelves(members) == if ok then put.value else old(Shelves(members))
    {
      var h := FindHolder(peers, net, ring, post.postID);
      if h.None? {
        return false;
      }
      Deliver(members, h.value, post, isPrivate);
      ok := true;
    }

    /** The post as it is sent off: encrypted with the latest key, if posts are. */
    method EncryptPost(post: Post) returns (sent: Post)
      requires post.content.Some? && (author.encrypting ==> author.postKeys != [])
      ensures Encrypted(cipher, author.State(), post) == Some(sent)
    {
      sent := post;
      if author.encrypting {
        var key := author.GetMostRecentPostKey();
        sent := sent.(content := Some(cipher.enc(key.value.0, post.content.value)), keyID := key.value.1);
      }
    }

    method StorePrivatePost(members: Members, peers: ChordPeer.Peers, ghost net: Net, ghost ring: set<Addr>,
            post: Post)
      returns (ok: bool)
      requires ChordPeer.Network(peers) && net == ChordPeer.View(peers) && Ring(net, ring)
      requires Placed(members, peers, ring)
      requires addr in ring && members[addr] == this
      requires author.encrypting ==> author.postKeys != []
      modifies Objects(members)
      ensures var sent := Encrypted(cipher, author.State(), post);
        var put := if chord.hasJoinedChordNetwork && sent.Some?
                   then Put(net, ring, old(Shelves(members)), addr, sent.value, true) else None;
        ok == put.Some? && Shelves(members) == if ok then put.value else old(Shelves(members))
    {
      if !chord.hasJoinedChordNetwork || post.content.None? {
        return false;
      }
      var sent := EncryptPost(post);
      ok := Store(members, peers, net, ring, sent, true);
    }

    method StorePublicPost(members: Members, peers: ChordPeer.Peers, ghost net: Net, ghost ring: set<Addr>,
            post: Post)
      returns (ok: bool)
      requires ChordPeer.Network(peers) && net == ChordPeer.View(peers) && Ring(net, ring)
      requires Placed(members, peers, ring)
      requires addr in ring && members[addr] == this
      modifies Objects(members)
      ensures var put := if chord.hasJoinedChordNetwork
                         then Put(net, ring, old(Shelves(members)), addr, post, false) else None;
        ok == put.Some? && Shelves(members) == if ok then put.value else old(Shelves(members))
    {
      if !chord.hasJoinedChordNetwork || post.content.None? {
        return false;
      }
      ok := Store(members, peers, net, ring, post, false);
    }

    method PostRequestMessageCallback(postID: string) returns (post: Option<Post>)
      ensures post == if postID in postStore then Some(postStore[postID]) else None
    {
      post := if postID in postStore then Some(postStore[postID]) else None;
    }

    method DecryptPostContent(post: Post) returns (content: Option<Bytes>)
      requires post.author == author.id ==> post.keyID <= |author.postKeys|
      ensures content == Decrypted(cipher, author.State(), author.publicKey, post)
      ensures post.content.Some? && (post.keyID <= 0 || !author.encrypting) ==> content == post.content
    {
      var bytes := if post.content.Some? then post.content.value else [];
      if author.encrypting && post.keyID > 0 {
        var key := author.GetDecryptionKey(post.author, post.keyID);
        if key.None? {
          return None;
        }
        content := cipher.dec(key.value, bytes);
      } else {
        content := Some(bytes);
      }
    }

    /** Fetches a post from its holder and decrypts it if possible. */
    method GetPost(members: Members, peers: ChordPeer.Peers, ghost net: Net, ghost ring: set<Addr>, postID: string)
      returns (post: Option<Post>)
      requires ChordPeer.Network(peers) && net == ChordPeer.View(peers) && Ring(net, ring)
      requires Placed(members, peers, ring)
      requires addr in ring && members[addr] == this
      requires forall a, id | a in ring && id in members[a].postStore && members[a].postStore[id].author == author.id ::
        members[a].postStore[id].keyID <= |author.postKeys|
      ensures match Get(net, ring, Shelves(members), addr, postID)
        case None => post == None
        case Some(p) =>
          var atHome := Holder(net, ring, addr, postID) == Some(addr);
          && post == Some(Shown(cipher, author.State(), author.publicKey, p, atHome))
          && (p.content.Some? && (p.keyID <= 0 || !author.encrypting) ==> post == Some(p))
    {
      var h := FindHolder(peers, net, ring, postID);
      if h.None? {
        return None;
      }
      var found := members[h.value].PostRequestMessageCallback(postID);
      if found.None? {
        return None;
      }
      var res := found.value;
      if author.encrypting {
        var content := DecryptPostContent(res);
        if content.Some? {
          res := res.(content := content);
        } else if h.value == addr {
          res := res.(content := Some(MARK));
          assert MARK + [] == MARK;
        } else {
          res := res.(content := Some(MARK + if res.content.Some? then res.content.value else []));
        }
      }
      post := Some(res);
    }
  }
}
