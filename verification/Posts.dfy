/** Posts kept at the Chord successor of their identifier, seen from all members at once.  The ring
    does not change here. */
module Posts {
  import opened Basics
  import opened ChordRing
  import opened ChordLookup
  import ByteKeys

  /** Content is nil or bytes; details stands for times, likes and comments. */
  datatype Post = Post(postID: string, author: string, content: Option<Bytes>, keyID: int, details: string)

  /** Which posts are known, by author or as public. */
  type Catalog = map<string, set<string>>

  datatype Shelf = Shelf(posts: map<string, Post>, catalog: Catalog)

  /** What every member keeps. */
  type World = map<Addr, Shelf>

  /** Where the catalog lists public posts; no identifier is that short. */
  const PUBLIC := "0"

  function Owner(post: Post, isPrivate: bool): string {
    if isPrivate then post.author else PUBLIC
  }

  function Listed(catalog: Catalog, owner: string): set<string> {
    if owner in catalog then catalog[owner] else {}
  }

  function AddToCatalog(catalog: Catalog, owner: string, postID: string): Catalog {
    catalog[owner := Listed(catalog, owner) + {postID}]
  }

  function Note(shelf: Shelf, post: Post, isPrivate: bool): Shelf {
    shelf.(catalog := AddToCatalog(shelf.catalog, Owner(post, isPrivate), post.postID))
  }

  /** What a member does when asked to keep a post. */
  function Handle(shelf: Shelf, post: Post, isPrivate: bool): Shelf {
    Note(shelf.(posts := shelf.posts[post.postID := post]), post, isPrivate)
  }

  /** The member a lookup from self names for the post. */
  ghost function Holder(net: Net, ring: set<Addr>, self: Addr, postID: string): (h: Option<Addr>)
    requires Ring(net, ring) && self in ring
    ensures h.Some? ==> h.value in ring
  {
    var key := ByteKeys.Decoded(postID);
    if key.None? then None
    else
      FindSuccessorCorrect(net, ring, self, ByteKeys.IdOf(key.value));
      match FindSuccessor(net, ring, self, ByteKeys.IdOf(key.value))
      case None => None
      case Some(c) => Some(c.addr)
  }

  /** A public post stored at home loses its key number. */
  function Kept(self: Addr, holder: Addr, post: Post, isPrivate: bool): Post {
    if !isPrivate && self == holder then post.(keyID := 0) else post
  }

  /** The holder keeps the post, and self lists it. */
  function Shelved(w: World, self: Addr, holder: Addr, post: Post, isPrivate: bool): (w': World)
    requires {self, holder} <= w.Keys
    ensures w'.Keys == w.Keys
  {
    var w' := w[holder := Handle(w[holder], Kept(self, holder, post, isPrivate), isPrivate)];
    if holder == self then w' else w'[self := Note(w'[self], post, isPrivate)]
  }

  /** Storing: at home, or by request to the holder; then in one's own catalog. */
  ghost function Put(net: Net, ring: set<Addr>, w: World, self: Addr, post: Post, isPrivate: bool): (r: Option<World>)
    requires Ring(net, ring) && ring <= w.Keys && self in ring
    ensures r.Some? ==> r.value.Keys == w.Keys
  {
    var h := Holder(net, ring, self, post.postID);
    if post.content.None? || h.None? then None else Some(Shelved(w, self, h.value, post, isPrivate))
  }

  ghost function Get(net: Net, ring: set<Addr>, w: World, self: Addr, postID: string): Option<Post>
    requires Ring(net, ring) && ring <= w.Keys && self in ring
  {
    var h := Holder(net, ring, self, postID);
    if h.None? || postID !in w[h.value].posts then None else Some(w[h.value].posts[postID])
  }

  /** In a ring of complete tables every member finds the same holder for every post. */
  lemma HolderIsShared(net: Net, ring: set<Addr>, a: Addr, b: Addr, postID: string)
    requires Ring(net, ring) && Complete(net, ring) && a in ring && b in ring
    ensures Holder(net, ring, a, postID) == Holder(net, ring, b, postID)
    ensures Holder(net, ring, a, postID).Some? <==> ByteKeys.Decoded(postID).Some?
    ensures Holder(net, ring, a, postID).Some? ==>
      IsFirst(net, ring, ByteKeys.IdOf(ByteKeys.Decoded(postID).value), Holder(net, ring, a, postID).value)
  {
    var key := ByteKeys.Decoded(postID);
    if key.Some? {
      var id := ByteKeys.IdOf(key.value);
      CompleteLookupsAnswer(net, ring, a, id);
      CompleteLookupsAnswer(net, ring, b, id);
      FindSuccessorCorrect(net, ring, a, id);
      FindSuccessorCorrect(net, ring, b, id);
      var h, h' := FindSuccessor(net, ring, a, id).value.addr, FindSuccessor(net, ring, b, id).value.addr;
      FirstIsUnique(net, ring, id, h, h');
    }
  }

  /** --- the members together behave like one map --- */

  datatype Request = Request(sender: Addr, post: Post, isPrivate: bool)

  /** What happens to a request: it is stored, the sender seeing it through; or its holder receives a copy
      of its message, resent or late, whether or not the sender still waits. */
  datatype Delivery = Stored(request: Request) | Repeated(request: Request)

  predicate Storable(post: Post) {
    post.content.Some? && ByteKeys.Decoded(post.postID).Some?
  }

  /** Storing succeeds exactly for a post with content and a readable identifier.  It is then what
      every member gets, and what they get for any other identifier has not changed. */
  lemma PutThenGet(net: Net, ring: set<Addr>, w: World, self: Addr, post: Post, isPrivate: bool, b: Addr,
          postID: string)
    requires Ring(net, ring) && Complete(net, ring) && ring <= w.Keys && self in ring && b in ring
    ensures Put(net, ring, w, self, post, isPrivate).Some? <==> Storable(post)
    ensures match (Put(net, ring, w, self, post, isPrivate), Holder(net, ring, self, post.postID))
      case (Some(w'), h) =>
        h.Some? && Get(net, ring, w', b, postID) ==
          if postID == post.postID then Some(Kept(self, h.value, post, isPrivate)) else Get(net, ring, w, b, postID)
      case _ => true
  {
    HolderIsShared(net, ring, self, b, post.postID);
    HolderIsShared(net, ring, self, b, postID);
  }

  /** What every member gets is the post as written; only its key number may differ: a public post that
      its storer holds itself has none. */
  lemma StoredAsWritten(net: Net, ring: set<Addr>, w: World, self: Addr, post: Post, isPrivate: bool, w': World,
          b: Addr)
    requires Ring(net, ring) && Complete(net, ring) && ring <= w.Keys && self in ring && b in ring
    requires Put(net, ring, w, self, post, isPrivate) == Some(w')
    ensures var p := Get(net, ring, w', b, post.postID);
      && p.Some? && p.value.(keyID := post.keyID) == post
      && p.value.keyID ==
           if !isPrivate && Holder(net, ring, self, post.postID) == Some(self) then 0 else post.keyID
  {
    PutThenGet(net, ring, w, self, post, isPrivate, b, post.postID);
  }

  /** Storing lists the post in two catalogs, the storer's and the holder's: a private post under its
      author, a public one under 0.  All other lists, and all other shelves, are as before. */
  lemma CatalogsAfterPut(net: Net, ring: set<Addr>, w: World, self: Addr, post: Post, isPrivate: bool, w': World,
          a: Addr, owner: string)
    requires Ring(net, ring) && ring <= w.Keys && self in ring && a in w
    requires Put(net, ring, w, self, post, isPrivate) == Some(w')
    ensures w'.Keys == w.Keys
    ensures var lists := a == self || Holder(net, ring, self, post.postID) == Some(a);
      var here := lists && owner == if isPrivate then post.author else "0";
      && Listed(w'[a].catalog, owner) == Listed(w[a].catalog, owner) + (if here then {post.postID} else {})
      && (!lists ==> w'[a] == w[a])
      && (Holder(net, ring, self, post.postID) != Some(a) ==> w'[a].posts == w[a].posts)
  {
  }

  /** A copy of a request: only the holder acts, and nothing was ever sent for a post stored at home. */
  ghost function Repeat(net: Net, ring: set<Addr>, w: World, r: Request): (w': World)
    requires Ring(net, ring) && ring <= w.Keys && r.sender in ring
    ensures w'.Keys == w.Keys
  {
    var h := Holder(net, ring, r.sender, r.post.postID);
    if r.post.content.None? || h.None? || h.value == r.sender then w
    else w[h.value := Handle(w[h.value], r.post, r.isPrivate)]
  }

  /** A copy changes the holder's shelf alone, and no shelf if the sender holds the post itself. */
  lemma CopyAtHolder(net: Net, ring: set<Addr>, w: World, r: Request, a: Addr, owner: string)
    requires Ring(net, ring) && ring <= w.Keys && r.sender in ring && a in w
    ensures var w', here := Deliver(net, ring, w, Repeated(r)), Holder(net, ring, r.sender, r.post.postID) == Some(a);
      var added := if owner == if r.isPrivate then r.post.author else "0" then {r.post.postID} else {};
      if here && a != r.sender && r.post.content.Some? then
        && w'[a].posts == w[a].posts[r.post.postID := r.post]
        && Listed(w'[a].catalog, owner) == Listed(w[a].catalog, owner) + added
      else w'[a] == w[a]
  {
  }

  ghost function Deliver(net: Net, ring: set<Addr>, w: World, d: Delivery): (w': World)
    requires Ring(net, ring) && ring <= w.Keys && d.request.sender in ring
    ensures w'.Keys == w.Keys
  {
    var r := d.request;
    match d
    case Stored(_) =>
      var put := Put(net, ring, w, r.sender, r.post, r.isPrivate);
      if put.Some? then put.value else w
    case Repeated(_) => Repeat(net, ring, w, r)
  }

  ghost predicate FromMembers(ring: set<Addr>, ds: seq<Delivery>) {
    forall d | d in ds :: d.request.sender in ring
  }

  /** The members' shelves after the deliveries; a request that fails changes nothing. */
  ghost function Run(net: Net, ring: set<Addr>, w: World, ds: seq<Delivery>): (w': World)
    requires Ring(net, ring) && ring <= w.Keys && FromMembers(ring, ds)
    ensures w'.Keys == w.Keys
  {
    if ds == [] then w else Deliver(net, ring, Run(net, ring, w, ds[..|ds| - 1]), ds[|ds| - 1])
  }

  /** What a delivery leaves under an identifier, if it concerns it. */
  ghost function Leaves(net: Net, ring: set<Addr>, d: Delivery, postID: string): Option<Post>
    requires Ring(net, ring) && d.request.sender in ring
  {
    var r := d.request;
    var h := Holder(net, ring, r.sender, postID);
    if r.post.postID != postID || !Storable(r.post) || h.None? || (d.Repeated? && h.value == r.sender) then None
    else Some(Kept(r.sender, h.value, r.post, r.isPrivate))
  }

  /** What the last delivery concerning an identifier left, or what was there before. */
  ghost function Last(net: Net, ring: set<Addr>, before: Option<Post>, ds: seq<Delivery>, postID: string): Option<Post>
    requires Ring(net, ring) && FromMembers(ring, ds)
  {
    if ds == [] then before
    else
      var left := Leaves(net, ring, ds[|ds| - 1], postID);
      if left.Some? then left else Last(net, ring, before, ds[..|ds| - 1], postID)
  }

  lemma DeliverThenGet(net: Net, ring: set<Addr>, w: World, d: Delivery, b: Addr, postID: string)
    requires Ring(net, ring) && Complete(net, ring) && ring <= w.Keys && d.request.sender in ring && b in ring
    ensures var left := Leaves(net, ring, d, postID);
      Get(net, ring, Deliver(net, ring, w, d), b, postID) == if left.Some? then left else Get(net, ring, w, b, postID)
  {
    var r := d.request;
    HolderIsShared(net, ring, r.sender, b, r.post.postID);
    HolderIsShared(net, ring, r.sender, b, postID);
    if d.Stored? {
      PutThenGet(net, ring, w, r.sender, r.post, r.isPrivate, b, postID);
    }
  }

  /** Through any deliveries, in any order and however often, every member gets for every identifier what
      the last delivery concerning it left: the ring behaves like one map. */
  lemma {:induction false} EveryoneGetsTheLast(net: Net, ring: set<Addr>, w: World, ds: seq<Delivery>, b: Addr,
          postID: string)
    requires Ring(net, ring) && Complete(net, ring) && ring <= w.Keys && FromMembers(ring, ds) && b in ring
    ensures var before := Get(net, ring, w, b, postID);
      Get(net, ring, Run(net, ring, w, ds), b, postID) == Last(net, ring, before, ds, postID)
  {
    if ds != [] {
      var front := ds[..|ds| - 1];
      EveryoneGetsTheLast(net, ring, w, front, b, postID);
      DeliverThenGet(net, ring, Run(net, ring, w, front), ds[|ds| - 1], b, postID);
    }
  }

  /** The deliveries without the copies. */
  function Stores(ds: seq<Delivery>): seq<Delivery> {
    if ds == [] then []
    else Stores(ds[..|ds| - 1]) + if ds[|ds| - 1].Stored? then [ds[|ds| - 1]] else []
  }

  lemma {:induction false} StoresAmong(ds: seq<Delivery>)
    ensures forall d | d in Stores(ds) :: d in ds
  {
    if ds != [] {
      StoresAmong(ds[..|ds| - 1]);
    }
  }

  /** After delivery k nothing concerns the identifier any more, and k is a copy of another version than
      the one that was stored last. */
  ghost predicate Reverted(net: Net, ring: set<Addr>, before: Option<Post>, ds: seq<Delivery>, postID: string)
    requires Ring(net, ring) && FromMembers(ring, ds) && FromMembers(ring, Stores(ds))
  {
    exists k: nat | k < |ds| ::
      && ds[k].Repeated?
      && Leaves(net, ring, ds[k], postID).Some?
      && Leaves(net, ring, ds[k], postID) != Last(net, ring, before, Stores(ds), postID)
      && forall l | k < l < |ds| :: Leaves(net, ring, ds[l], postID).None?
  }

  /** The last delivery that concerns the identifier, if there is one. */
  lemma {:induction false} LastOne(net: Net, ring: set<Addr>, before: Option<Post>, ds: seq<Delivery>,
          postID: string)
    returns (k: int)
    requires Ring(net, ring) && FromMembers(ring, ds)
    ensures -1 <= k < |ds|
    ensures forall l | k < l < |ds| :: Leaves(net, ring, ds[l], postID).None?
    ensures k >= 0 ==> Leaves(net, ring, ds[k], postID).Some?
    ensures Last(net, ring, before, ds, postID) == if k < 0 then before else Leaves(net, ring, ds[k], postID)
  {
    if ds == [] {
      k := -1;
    } else if Leaves(net, ring, ds[|ds| - 1], postID).Some? {
      k := |ds| - 1;
    } else {
      k := LastOne(net, ring, before, ds[..|ds| - 1], postID);
    }
  }

  /** Copies after the last concerning delivery, and copies in general, do not count among the stores. */
  lemma {:induction false} LastStored(net: Net, ring: set<Addr>, before: Option<Post>, ds: seq<Delivery>,
          postID: string, k: int)
    requires Ring(net, ring) && FromMembers(ring, ds) && FromMembers(ring, Stores(ds)) && -1 <= k < |ds|
    requires forall l | k < l < |ds| :: Leaves(net, ring, ds[l], postID).None?
    requires k < 0 || (ds[k].Stored? && Leaves(net, ring, ds[k], postID).Some?)
    ensures Last(net, ring, before, Stores(ds), postID) == if k < 0 then before else Leaves(net, ring, ds[k], postID)
  {
    if ds != [] {
      var front, d := ds[..|ds| - 1], ds[|ds| - 1];
      StoresAmong(front);
      if d.Stored? {
        assert Stores(ds)[..|Stores(ds)| - 1] == Stores(front);
      } else {
        assert Stores(ds) == Stores(front);
      }
      if k < |ds| - 1 {
        LastStored(net, ring, before, front, postID, k);
      }
    }
  }

  lemma RevertedIsLast(net: Net, ring: set<Addr>, before: Option<Post>, ds: seq<Delivery>, postID: string)
    requires Ring(net, ring) && FromMembers(ring, ds) && FromMembers(ring, Stores(ds))
    requires Reverted(net, ring, before, ds, postID)
    ensures Last(net, ring, before, ds, postID) != Last(net, ring, before, Stores(ds), postID)
  {
    var i: nat :| i < |ds| && ds[i].Repeated?
      && Leaves(net, ring, ds[i], postID).Some?
      && Leaves(net, ring, ds[i], postID) != Last(net, ring, before, Stores(ds), postID)
      && forall l | i < l < |ds| :: Leaves(net, ring, ds[l], postID).None?;
    var k := LastOne(net, ring, before, ds, postID);
    assert k == i;
  }

  lemma UnlessReverted(net: Net, ring: set<Addr>, before: Option<Post>, ds: seq<Delivery>, postID: string)
    requires Ring(net, ring) && FromMembers(ring, ds) && FromMembers(ring, Stores(ds))
    requires Last(net, ring, before, ds, postID) != Last(net, ring, before, Stores(ds), postID)
    ensures Reverted(net, ring, before, ds, postID)
  {
    var k := LastOne(net, ring, before, ds, postID);
    if k < 0 || ds[k].Stored? {
      LastStored(net, ring, before, ds, postID, k);
    }
  }

  /** Under at-least-once delivery every member gets the version stored last exactly unless the last
      copy to arrive was one of another version: the holder keeps whatever comes last. */
  lemma EveryoneGetsTheLatest(net: Net, ring: set<Addr>, w: World, ds: seq<Delivery>, b: Addr, postID: string)
    requires Ring(net, ring) && Complete(net, ring) && ring <= w.Keys && FromMembers(ring, ds) && b in ring
    ensures FromMembers(ring, Stores(ds))
    ensures var before := Get(net, ring, w, b, postID);
      Get(net, ring, Run(net, ring, w, ds), b, postID) == Last(net, ring, before, Stores(ds), postID) <==>
      !Reverted(net, ring, before, ds, postID)
  {
    StoresAmong(ds);
    var before := Get(net, ring, w, b, postID);
    EveryoneGetsTheLast(net, ring, w, ds, b, postID);
    if Reverted(net, ring, before, ds, postID) {
      RevertedIsLast(net, ring, before, ds, postID);
    } else if Last(net, ring, before, ds, postID) != Last(net, ring, before, Stores(ds), postID) {
      UnlessReverted(net, ring, before, ds, postID);
    }
  }

  /** An old version comes back: stored away from home, replaced, and delivered once more. */
  lemma LateCopyReverts(net: Net, ring: set<Addr>, w: World, first: Request, second: Request, b: Addr)
    requires Ring(net, ring) && Complete(net, ring) && ring <= w.Keys && {first.sender, second.sender, b} <= ring
    requires Storable(first.post) && Storable(second.post) && first.post.postID == second.post.postID
    requires Holder(net, ring, first.sender, first.post.postID) != Some(first.sender)
    ensures var w' := Run(net, ring, w, [Stored(first), Stored(second)]);
      && FromMembers(ring, [Stored(first), Stored(second), Repeated(first)])
      && Get(net, ring, w', b, first.post.postID) == Leaves(net, ring, Stored(second), first.post.postID)
      && var w'' := Run(net, ring, w, [Stored(first), Stored(second), Repeated(first)]);
      Get(net, ring, w'', b, first.post.postID) == Some(first.post)
  {
    var id := first.post.postID;
    HolderIsShared(net, ring, first.sender, second.sender, id);
    var two, three := [Stored(first), Stored(second)], [Stored(first), Stored(second), Repeated(first)];
    assert three[..2] == two;
    EveryoneGetsTheLast(net, ring, w, two, b, id);
    EveryoneGetsTheLast(net, ring, w, three, b, id);
  }

  /** --- catalogs --- */

  /** A member holds only posts whose lookups lead to it, and its catalog lists them. */
  ghost predicate ShelfOrdered(net: Net, ring: set<Addr>, a: Addr, shelf: Shelf)
    requires Ring(net, ring) && a in ring
  {
    forall postID | postID in shelf.posts ::
      && shelf.posts[postID].postID == postID
      && Holder(net, ring, a, postID) == Some(a)
      && (postID in Listed(shelf.catalog, shelf.posts[postID].author) || postID in Listed(shelf.catalog, PUBLIC))
  }

  ghost predicate Ordered(net: Net, ring: set<Addr>, w: World)
    requires Ring(net, ring) && ring <= w.Keys
  {
    forall a {:trigger ShelfOrdered(net, ring, a, w[a])} | a in ring :: ShelfOrdered(net, ring, a, w[a])
  }

  lemma NoteKeepsOrder(net: Net, ring: set<Addr>, a: Addr, shelf: Shelf, post: Post, isPrivate: bool)
    requires Ring(net, ring) && a in ring && ShelfOrdered(net, ring, a, shelf)
    ensures ShelfOrdered(net, ring, a, Note(shelf, post, isPrivate))
    ensures post.postID in Listed(Note(shelf, post, isPrivate).catalog, Owner(post, isPrivate))
    ensures forall owner :: Listed(shelf.catalog, owner) <= Listed(Note(shelf, post, isPrivate).catalog, owner)
  {
  }

  lemma HandleKeepsOrder(net: Net, ring: set<Addr>, a: Addr, shelf: Shelf, post: Post, isPrivate: bool)
    requires Ring(net, ring) && a in ring && ShelfOrdered(net, ring, a, shelf)
    requires Holder(net, ring, a, post.postID) == Some(a)
    ensures ShelfOrdered(net, ring, a, Handle(shelf, post, isPrivate))
    ensures post.postID in Listed(Handle(shelf, post, isPrivate).catalog, Owner(post, isPrivate))
    ensures forall owner :: Listed(shelf.catalog, owner) <= Listed(Handle(shelf, post, isPrivate).catalog, owner)
  {
  }

  /** One member's shelf after a post is stored. */
  function ShelfAfter(shelf: Shelf, a: Addr, self: Addr, holder: Addr, post: Post, isPrivate: bool): Shelf {
    if a == holder then Handle(shelf, Kept(self, holder, post, isPrivate), isPrivate)
    else if a == self then Note(shelf, post, isPrivate)
    else shelf
  }

  lemma ShelfAfterKeepsOrder(net: Net, ring: set<Addr>, shelf: Shelf, a: Addr, self: Addr, holder: Addr, post: Post,
          isPrivate: bool)
    requires Ring(net, ring) && Complete(net, ring) && {a, self} <= ring
    requires Holder(net, ring, self, post.postID) == Some(holder)
    requires ShelfOrdered(net, ring, a, shelf)
    ensures var shelf' := ShelfAfter(shelf, a, self, holder, post, isPrivate);
      && ShelfOrdered(net, ring, a, shelf')
      && (a == self ==> post.postID in Listed(shelf'.catalog, Owner(post, isPrivate)))
      && forall owner :: Listed(shelf.catalog, owner) <= Listed(shelf'.catalog, owner)
  {
    HolderIsShared(net, ring, self, a, post.postID);
    if a == holder {
      HandleKeepsOrder(net, ring, a, shelf, Kept(self, holder, post, isPrivate), isPrivate);
    } else {
      NoteKeepsOrder(net, ring, a, shelf, post, isPrivate);
    }
  }

  /** Every member keeps its shelf in order, takes nothing off its catalog, and lists what it stored. */
  lemma PutKeepsOrder(net: Net, ring: set<Addr>, w: World, self: Addr, post: Post, isPrivate: bool, w': World)
    requires Ring(net, ring) && Complete(net, ring) && ring <= w.Keys && self in ring && Ordered(net, ring, w)
    requires Put(net, ring, w, self, post, isPrivate) == Some(w')
    ensures Ordered(net, ring, w')
    ensures post.postID in Listed(w'[self].catalog, Owner(post, isPrivate))
    ensures forall a, owner | a in ring :: Listed(w[a].catalog, owner) <= Listed(w'[a].catalog, owner)
  {
    var holder := Holder(net, ring, self, post.postID).value;
    forall a {:trigger ShelfOrdered(net, ring, a, w'[a])} | a in ring
      ensures ShelfOrdered(net, ring, a, w'[a])
      ensures a == self ==> post.postID in Listed(w'[a].catalog, Owner(post, isPrivate))
      ensures forall owner :: Listed(w[a].catalog, owner) <= Listed(w'[a].catalog, owner)
    {
      assert ShelfOrdered(net, ring, a, w[a]);
      ShelfAfterKeepsOrder(net, ring, w[a], a, self, holder, post, isPrivate);
    }
    assert ShelfOrdered(net, ring, self, w'[self]);
  }

  lemma RepeatKeepsOrder(net: Net, ring: set<Addr>, w: World, r: Request)
    requires Ring(net, ring) && Complete(net, ring) && ring <= w.Keys && r.sender in ring && Ordered(net, ring, w)
    ensures Ordered(net, ring, Repeat(net, ring, w, r))
  {
    var w', h := Repeat(net, ring, w, r), Holder(net, ring, r.sender, r.post.postID);
    forall a {:trigger ShelfOrdered(net, ring, a, w'[a])} | a in ring ensures ShelfOrdered(net, ring, a, w'[a]) {
      assert ShelfOrdered(net, ring, a, w[a]);
      HolderIsShared(net, ring, r.sender, a, r.post.postID);
      if w'[a] != w[a] {
        HandleKeepsOrder(net, ring, a, w[a], r.post, r.isPrivate);
      }
    }
  }

  lemma {:induction false} RunKeepsOrder(net: Net, ring: set<Addr>, w: World, ds: seq<Delivery>)
    requires Ring(net, ring) && Complete(net, ring) && ring <= w.Keys && Ordered(net, ring, w) && FromMembers(ring, ds)
    ensures Ordered(net, ring, Run(net, ring, w, ds))
  {
    if ds != [] {
      var w', d := Run(net, ring, w, ds[..|ds| - 1]), ds[|ds| - 1];
      RunKeepsOrder(net, ring, w, ds[..|ds| - 1]);
      if d.Repeated? {
        RepeatKeepsOrder(net, ring, w', d.request);
      } else if Put(net, ring, w', d.request.sender, d.request.post, d.request.isPrivate).Some? {
        PutKeepsOrder(net, ring, w', d.request.sender, d.request.post, d.request.isPrivate, Deliver(net, ring, w', d));
      }
    }
  }

  /** --- at one member --- */

  function HandleAll(shelf: Shelf, rs: seq<Request>): Shelf
    decreases rs
  {
    if rs == [] then shelf else HandleAll(Handle(shelf, rs[0].post, rs[0].isPrivate), rs[1..])
  }

  /** The last post among the requests with the identifier. */
  function LastFor(rs: seq<Request>, postID: string): Option<Post>
    decreases rs
  {
    if rs == [] then None
    else
      var later := LastFor(rs[1..], postID);
      if later.Some? then later else if rs[0].post.postID == postID then Some(rs[0].post) else None
  }

  /** Requests leave the last post they name under an identifier, and take nothing off the catalog. */
  lemma {:induction false} AfterAll(shelf: Shelf, rs: seq<Request>, postID: string, owner: string)
    ensures var after, last := HandleAll(shelf, rs), LastFor(rs, postID);
      && (if last.Some? then postID in after.posts && after.posts[postID] == last.value
          else
            && (postID in after.posts <==> postID in shelf.posts)
            && (postID in shelf.posts ==> after.posts[postID] == shelf.posts[postID]))
      && Listed(shelf.catalog, owner) <= Listed(after.catalog, owner)
    decreases rs
  {
    if rs != [] {
      AfterAll(Handle(shelf, rs[0].post, rs[0].isPrivate), rs[1..], postID, owner);
    }
  }

  /** Asked again to keep a post it kept, after any other requests, a member changes something if and
      only if the last of them about that post named another version. */
  lemma ReplayChangesNothing(shelf: Shelf, post: Post, isPrivate: bool, rs: seq<Request>)
    requires Handle(shelf, post, isPrivate) == shelf
    ensures var after := HandleAll(shelf, rs);
      Handle(after, post, isPrivate) == after <==>
      LastFor(rs, post.postID) == None || LastFor(rs, post.postID) == Some(post)
  {
    var after, owner := HandleAll(shelf, rs), Owner(post, isPrivate);
    assert shelf.posts == shelf.posts[post.postID := post];
    assert post.postID in Listed(shelf.catalog, owner) by {
      assert post.postID in Listed(Handle(shelf, post, isPrivate).catalog, owner);
    }
    AfterAll(shelf, rs, post.postID, owner);
    KnownAlready(after.catalog, owner, post.postID);
    if LastFor(rs, post.postID) == None || LastFor(rs, post.postID) == Some(post) {
      assert after.posts[post.postID := post] == after.posts;
    } else {
      assert Handle(after, post, isPrivate).posts[post.postID] != after.posts[post.postID];
    }
  }

  lemma KnownAlready(catalog: Catalog, owner: string, postID: string)
    requires postID in Listed(catalog, owner)
    ensures AddToCatalog(catalog, owner, postID) == catalog
  {
    assert Listed(catalog, owner) + {postID} == catalog[owner];
  }

  lemma HandledOnce(shelf: Shelf, post: Post, isPrivate: bool)
    ensures var once := Handle(shelf, post, isPrivate); Handle(once, post, isPrivate) == once
  {
    var once := Handle(shelf, post, isPrivate);
    KnownAlready(once.catalog, Owner(post, isPrivate), post.postID);
    assert once.posts[post.postID := post] == once.posts;
  }
}
