/** Content-addressed files: chunked upload, download, and fetching from untrusted peers. */
module FileStore {
  import opened Basics

  /** Separates the chunk hashes of a metafile: a newline. */
  const SEP: Byte := 10

  /** What a store returns for a key: nil when the key is absent or was set to nil. */
  datatype Value = Nil | Data(bytes: Bytes)

  type Store = map<Bytes, Value>

  function Get(store: Store, key: Bytes): Value {
    if key in store then store[key] else Nil
  }

  /** Collision-free, and printed in digits that never include the separator. */
  ghost predicate GoodHash(hash: Bytes -> Bytes) {
    && (forall a, b :: hash(a) == hash(b) ==> a == b)
    && (forall a :: SEP !in hash(a))
  }

  /** Every value sits under its hash. */
  ghost predicate ContentAddressed(hash: Bytes -> Bytes, store: Store) {
    forall k | k in store && store[k].Data? :: hash(store[k].bytes) == k
  }

  /** --- metafiles --- */

  function Join(parts: seq<Bytes>): Bytes {
    if parts == [] then []
    else if |parts| == 1 then parts[0]
    else Join(parts[..|parts| - 1]) + [SEP] + parts[|parts| - 1]
  }

  /** The pieces between separators; one empty piece for an empty text. */
  function Split(text: Bytes): (parts: seq<Bytes>)
    ensures parts != []
  {
    if text == [] then [[]]
    else
      var last, front := text[|text| - 1], Split(text[..|text| - 1]);
      if last == SEP then front + [[]]
      else front[..|front| - 1] + [front[|front| - 1] + [last]]
  }

  lemma {:induction false} SplitAppend(text: Bytes, part: Bytes)
    requires SEP !in part
    ensures var f := Split(text); Split(text + part) == f[..|f| - 1] + [f[|f| - 1] + part]
  {
    if part == [] {
      assert text + part == text;
      var f := Split(text);
      assert f == f[..|f| - 1] + [f[|f| - 1]];
      assert f[|f| - 1] + part == f[|f| - 1];
    } else {
      var whole, last := text + part, part[|part| - 1];
      assert whole[..|whole| - 1] == text + part[..|part| - 1];
      SplitAppend(text, part[..|part| - 1]);
      assert part == part[..|part| - 1] + [last];
      assert last in part && whole[|whole| - 1] == last;
      var f, g := Split(text), Split(text + part[..|part| - 1]);
      assert g[..|g| - 1] == f[..|f| - 1];
      assert g[|g| - 1] + [last] == f[|f| - 1] + part;
    }
  }

  lemma SplitAfterSeparator(text: Bytes, part: Bytes)
    requires SEP !in part
    ensures Split(text + [SEP] + part) == Split(text) + [part]
  {
    var t := text + [SEP];
    assert t[..|t| - 1] == text;
    SplitAppend(t, part);
    assert [] + part == part;
  }

  /** Splitting undoes joining. */
  lemma {:induction false} SplitJoin(parts: seq<Bytes>)
    requires parts != [] && forall p | p in parts :: SEP !in p
    ensures Split(Join(parts)) == parts
  {
    var front, last := parts[..|parts| - 1], parts[|parts| - 1];
    assert parts == front + [last];
    if |parts| == 1 {
      SplitAppend([], last);
      assert [] + last == last;
    } else {
      SplitJoin(front);
      SplitAfterSeparator(Join(front), last);
    }
  }

  /** --- upload --- */

  datatype ReadError = NoError | EndOfFile | OtherError

  /** One answer of a reader: the bytes delivered and the error beside them. */
  datatype ReadResult = ReadResult(bytes: Bytes, error: ReadError)

  /** The chunks an upload takes from a reader that gives these answers. */
  function Chunks(input: seq<ReadResult>): seq<Bytes> {
    if input == [] || input[0].bytes == [] then []
    else if input[0].error != NoError then [input[0].bytes]
    else [input[0].bytes] + Chunks(input[1..])
  }

  /** The upload gives up on an error other than the end of the file. */
  predicate ReadFails(input: seq<ReadResult>) {
    && input != [] && input[0].bytes != []
    && (input[0].error == OtherError || (input[0].error == NoError && ReadFails(input[1..])))
  }

  /** The chunks are the bytes of the first k reads, up to one that gives nothing or the first error, that
      read's bytes included.  The upload gives up exactly if that error is no end of the file. */
  lemma {:induction false} ChunksAreReads(input: seq<ReadResult>) returns (k: nat)
    ensures k <= |input| && |Chunks(input)| == k
    ensures forall i | 0 <= i < k :: Chunks(input)[i] == input[i].bytes != []
    ensures forall i | 0 <= i < k - 1 :: input[i].error == NoError
    ensures k == |input| || input[k].bytes == [] || (k > 0 && input[k - 1].error != NoError)
    ensures ReadFails(input) <==> k > 0 && input[k - 1].error == OtherError
  {
    if input == [] || input[0].bytes == [] {
      k := 0;
    } else if input[0].error != NoError {
      k := 1;
    } else {
      var rest := input[1..];
      var n := ChunksAreReads(rest);
      assert Chunks(input) == [input[0].bytes] + Chunks(rest);
      k := n + 1;
      assert input[n] == if n == 0 then input[0] else rest[n - 1];
      assert k < |input| ==> input[k] == rest[n];
    }
  }

  function StoreChunk(hash: Bytes -> Bytes, store: Store, chunk: Bytes): Store {
    store[hash(chunk) := Data(chunk)]
  }

  function StoreAll(hash: Bytes -> Bytes, store: Store, chunks: seq<Bytes>): Store
    decreases chunks
  {
    if chunks == [] then store else StoreAll(hash, StoreChunk(hash, store, chunks[0]), chunks[1..])
  }

  function Hashes(hash: Bytes -> Bytes, chunks: seq<Bytes>): (hs: seq<Bytes>)
    ensures |hs| == |chunks| && forall i | 0 <= i < |chunks| :: hs[i] == hash(chunks[i])
  {
    seq(|chunks|, i requires 0 <= i < |chunks| => hash(chunks[i]))
  }

  function Metafile(hash: Bytes -> Bytes, chunks: seq<Bytes>): Bytes {
    Join(Hashes(hash, chunks))
  }

  /** The store after an upload that found no error. */
  function Uploaded(hash: Bytes -> Bytes, store: Store, chunks: seq<Bytes>): Store {
    if chunks == [] then store else StoreAll(hash, store, chunks + [Metafile(hash, chunks)])
  }

  /** Whatever the small store answers, the large one answers too. */
  ghost predicate Holds(large: Store, small: Store) {
    forall k | Get(small, k).Data? :: Get(large, k) == Get(small, k)
  }

  /** Storing chunks never replaces another value, and every chunk is then found under its hash.  Under
      other keys nothing has changed. */
  lemma {:induction false} StoreAllKeeps(hash: Bytes -> Bytes, store: Store, chunks: seq<Bytes>)
    requires GoodHash(hash) && ContentAddressed(hash, store)
    ensures var store' := StoreAll(hash, store, chunks);
      && ContentAddressed(hash, store') && Holds(store', store)
      && (forall c | c in chunks :: Get(store', hash(c)) == Data(c))
      && forall k | forall c | c in chunks :: hash(c) != k ::
           (k in store' <==> k in store) && (k in store ==> store'[k] == store[k])
    decreases chunks
  {
    if chunks != [] {
      var store1 := StoreChunk(hash, store, chunks[0]);
      StoreAllKeeps(hash, store1, chunks[1..]);
      assert Get(store1, hash(chunks[0])) == Data(chunks[0]);
    }
  }

  /** --- download --- */

  datatype Reply = Reply(key: Bytes, value: Value)

  /** What arrives while a key is being asked for: any replies, and whether the awaited one was among
      them. */
  datatype Answer = Answer(replies: seq<Reply>, answered: bool)

  datatype Fetched = Fetched(store: Store, value: Option<Bytes>)

  /** Replies are stored as they come, under whatever key they carry. */
  function HandleReplies(store: Store, replies: seq<Reply>): Store
    decreases replies
  {
    if replies == [] then store else HandleReplies(store[replies[0].key := replies[0].value], replies[1..])
  }

  predicate Intact(hash: Bytes -> Bytes, value: Value, key: Bytes) {
    value.Data? && value.bytes != [] && hash(value.bytes) == key
  }

  /** A value from the store, or else from a peer, checked once the awaited reply is in. */
  function Fetch(hash: Bytes -> Bytes, store: Store, key: Bytes, remote: Bytes -> Answer): Fetched {
    if Get(store, key).Data? then Fetched(store, Some(Get(store, key).bytes))
    else
      var store' := HandleReplies(store, remote(key).replies);
      if !remote(key).answered then Fetched(store', None)
      else if Intact(hash, Get(store', key), key) then Fetched(store', Some(Get(store', key).bytes))
      else Fetched(store' - {key}, None)
  }

  /** The values of all keys, one after the other, until one is missing. */
  function FetchAll(hash: Bytes -> Bytes, store: Store, keys: seq<Bytes>, remote: Bytes -> Answer): Fetched
    decreases keys
  {
    if keys == [] then Fetched(store, Some([]))
    else
      var head := Fetch(hash, store, keys[0], remote);
      if head.value.None? then head
      else
        var tail := FetchAll(hash, head.store, keys[1..], remote);
        if tail.value.None? then tail else Fetched(tail.store, Some(head.value.value + tail.value.value))
  }

  function Download(hash: Bytes -> Bytes, store: Store, metahash: Bytes, remote: Bytes -> Answer): Fetched {
    var meta := Fetch(hash, store, metahash, remote);
    if meta.value.None? then meta else FetchAll(hash, meta.store, Split(meta.value.value), remote)
  }

  lemma FetchAllOne(hash: Bytes -> Bytes, store: Store, key: Bytes, remote: Bytes -> Answer)
    ensures FetchAll(hash, store, [key], remote) == Fetch(hash, store, key, remote)
  {
    var f := Fetch(hash, store, key, remote);
    assert [key][1..] == [];
    assert f.value.Some? ==> f.value.value + [] == f.value.value;
  }

  lemma Reassociated(a: Bytes, b: Bytes, c: Bytes)
    ensures a + (b + c) == a + b + c
  {
  }

  /** One key more: nothing is asked for once a value is missing; else its value comes last. */
  lemma {:induction false} FetchAllAppend(hash: Bytes -> Bytes, store: Store, keys: seq<Bytes>, key: Bytes,
          remote: Bytes -> Answer)
    ensures var front, all := FetchAll(hash, store, keys, remote), FetchAll(hash, store, keys + [key], remote);
      var last := Fetch(hash, front.store, key, remote);
      if front.value.None? then all == front
      else all == Fetched(last.store, if last.value.None? then None else Some(front.value.value + last.value.value))
    decreases keys
  {
    if keys == [] {
      FetchAllOne(hash, store, key, remote);
      var last := Fetch(hash, store, key, remote).value;
      assert keys + [key] == [key] && (last.Some? ==> [] + last.value == last.value);
    } else {
      var head := Fetch(hash, store, keys[0], remote);
      assert (keys + [key])[1..] == keys[1..] + [key];
      if head.value.Some? {
        FetchAllAppend(hash, head.store, keys[1..], key, remote);
        var front := FetchAll(hash, head.store, keys[1..], remote);
        var last := Fetch(hash, front.store, key, remote);
        if front.value.Some? && last.value.Some? {
          Reassociated(head.value.value, front.value.value, last.value.value);
        }
      }
    }
  }

  function Concat(chunks: seq<Bytes>): Bytes {
    if chunks == [] then [] else chunks[0] + Concat(chunks[1..])
  }

  lemma {:induction false} FetchAllStored(hash: Bytes -> Bytes, store: Store, chunks: seq<Bytes>,
          remote: Bytes -> Answer)
    requires forall c | c in chunks :: Get(store, hash(c)) == Data(c)
    ensures FetchAll(hash, store, Hashes(hash, chunks), remote) == Fetched(store, Some(Concat(chunks)))
    decreases chunks
  {
    if chunks != [] {
      assert Hashes(hash, chunks)[1..] == Hashes(hash, chunks[1..]);
      FetchAllStored(hash, store, chunks[1..], remote);
    }
  }

  /** All bytes a reader delivers. */
  function Delivered(input: seq<ReadResult>): Bytes {
    if input == [] then [] else input[0].bytes + Delivered(input[1..])
  }

  /** Reads of any positive sizes without error, up to the end of the file, which may be announced with
      the last bytes or after them. */
  predicate ReadsToEnd(input: seq<ReadResult>) {
    forall i | 0 <= i < |input| ::
      input[i].bytes != [] && (input[i].error == NoError || (i == |input| - 1 && input[i].error == EndOfFile))
  }

  lemma {:induction false} ChunksAreTheData(input: seq<ReadResult>)
    requires ReadsToEnd(input)
    ensures !ReadFails(input) && Concat(Chunks(input)) == Delivered(input)
    ensures input != [] ==> Chunks(input) != []
  {
    if input != [] {
      ChunksAreTheData(input[1..]);
      if input[0].error != NoError {
        assert input[1..] == [];
        assert input[0].bytes + [] == input[0].bytes;
      }
    }
  }

  /** Downloading what was uploaded gives the data back, however it was cut into reads, from any store
      that has not lost what the upload put there; so earlier uploads stay downloadable. */
  lemma DownloadUpload(hash: Bytes -> Bytes, store: Store, chunks: seq<Bytes>, later: Store, remote: Bytes -> Answer)
    requires GoodHash(hash) && ContentAddressed(hash, store) && chunks != []
    requires Holds(later, Uploaded(hash, store, chunks))
    ensures Download(hash, later, hash(Metafile(hash, chunks)), remote) == Fetched(later, Some(Concat(chunks)))
  {
    var meta := Metafile(hash, chunks);
    var all := chunks + [meta];
    var up := Uploaded(hash, store, chunks);
    StoreAllKeeps(hash, store, all);
    forall c | c in all ensures Get(later, hash(c)) == Data(c) {
      assert Get(up, hash(c)) == Data(c);
    }
    assert meta == all[|chunks|] && meta in all;
    forall c | c in chunks ensures c in all {
    }
    SplitJoin(Hashes(hash, chunks));
    FetchAllStored(hash, later, chunks, remote);
  }

  /** Any non-empty data, read in pieces of any sizes, comes back whole. */
  lemma DataComesBack(hash: Bytes -> Bytes, store: Store, input: seq<ReadResult>, later: Store, remote: Bytes -> Answer)
    requires GoodHash(hash) && ContentAddressed(hash, store) && ReadsToEnd(input) && input != []
    requires Holds(later, Uploaded(hash, store, Chunks(input)))
    ensures Download(hash, later, hash(Metafile(hash, Chunks(input))), remote) == Fetched(later, Some(Delivered(input)))
  {
    ChunksAreTheData(input);
    DownloadUpload(hash, store, Chunks(input), later, remote);
  }

  lemma UploadKeepsEarlier(hash: Bytes -> Bytes, store: Store, chunks: seq<Bytes>)
    requires GoodHash(hash) && ContentAddressed(hash, store)
    ensures ContentAddressed(hash, Uploaded(hash, store, chunks)) && Holds(Uploaded(hash, store, chunks), store)
    ensures var store', meta := Uploaded(hash, store, chunks), hash(Metafile(hash, chunks));
      forall k | (forall c | c in chunks :: hash(c) != k) && (chunks != [] ==> k != meta) ::
        (k in store' <==> k in store) && (k in store ==> store'[k] == store[k])
  {
    if chunks != [] {
      StoreAllKeeps(hash, store, chunks + [Metafile(hash, chunks)]);
    }
  }

  /** --- untrusted peers --- */

  /** The value of the last reply for a key. */
  function LastReply(replies: seq<Reply>, k: Bytes): Option<Value>
    decreases replies
  {
    if replies == [] then None
    else
      var later := LastReply(replies[1..], k);
      if later.Some? then later else if replies[0].key == k then Some(replies[0].value) else None
  }

  /** Of the replies for a key the store keeps the last. */
  lemma {:induction false} LastReplyStays(store: Store, replies: seq<Reply>, k: Bytes)
    ensures var after, last := HandleReplies(store, replies), LastReply(replies, k);
      && (k in after <==> k in store || last.Some?)
      && (k in after ==> after[k] == if last.Some? then last.value else store[k])
    decreases replies
  {
    if replies != [] {
      LastReplyStays(store[replies[0].key := replies[0].value], replies[1..], k);
    }
  }

  lemma {:induction false} LastReplyIsThere(replies: seq<Reply>, k: Bytes)
    ensures LastReply(replies, k).Some? <==> exists r :: r in replies && r.key == k
    decreases replies
  {
    if replies != [] {
      LastReplyIsThere(replies[1..], k);
      assert replies[0] in replies;
    }
  }

  /** Every key named in the replies is left with nil or a value that fits it, but for the key asked if
      the awaited reply came: that one is checked. */
  predicate LeavesNothingWrong(hash: Bytes -> Bytes, key: Bytes, answer: Answer) {
    forall r | r in answer.replies ::
      match LastReply(answer.replies, r.key)
      case Some(Data(v)) => hash(v) == r.key || (r.key == key && answer.answered)
      case _ => true
  }

  lemma StoredAfterFetch(hash: Bytes -> Bytes, store: Store, key: Bytes, remote: Bytes -> Answer, k: Bytes)
    requires Get(store, key).Nil?
    ensures var after, last := Fetch(hash, store, key, remote).store, LastReply(remote(key).replies, k);
      Get(after, k) ==
        if k == key && remote(key).answered && Fetch(hash, store, key, remote).value.None? then Nil
        else if last.Some? then last.value else Get(store, k)
  {
    LastReplyStays(store, remote(key).replies, k);
  }

  /** What a fetch gives, in all cases: the value at hand as it is, or else the last reply for the key
      exactly if the awaited reply came and that one is a fitting non-empty value, which the store then keeps. */
  lemma FetchSucceedsExactly(hash: Bytes -> Bytes, store: Store, key: Bytes, remote: Bytes -> Answer)
    ensures var f, last := Fetch(hash, store, key, remote), LastReply(remote(key).replies, key);
      match Get(store, key)
      case Data(v) => f == Fetched(store, Some(v))
      case Nil =>
        && (f.value.Some? ==> Get(f.store, key) == Data(f.value.value))
        && forall v :: f.value == Some(v) <==>
             remote(key).answered && last == Some(Data(v)) && v != [] && hash(v) == key
  {
    LastReplyStays(store, remote(key).replies, key);
  }

  /** A fetch succeeds only with a value that hashes to the key.  From a remote one the store comes out
      content-addressed again if and only if the answer, however many replies it held and whether or not
      the awaited one was among them, leaves nothing wrong: the callback stores every reply under the key
      it names, and only the key asked for is checked. */
  lemma FetchIsSound(hash: Bytes -> Bytes, store: Store, key: Bytes, remote: Bytes -> Answer)
    requires ContentAddressed(hash, store)
    ensures var f := Fetch(hash, store, key, remote);
      && (f.value.Some? ==> hash(f.value.value) == key)
      && (if Get(store, key).Data? then f.store == store
          else ContentAddressed(hash, f.store) <==> LeavesNothingWrong(hash, key, remote(key)))
  {
    if Get(store, key).Nil? {
      var after := Fetch(hash, store, key, remote).store;
      if ContentAddressed(hash, after) {
        NothingWrong(hash, store, key, remote);
      } else {
        var k :| k in after && after[k].Data? && hash(after[k].bytes) != k;
        StoredAfterFetch(hash, store, key, remote, k);
        LastReplyIsThere(remote(key).replies, k);
      }
    }
  }

  lemma NothingWrong(hash: Bytes -> Bytes, store: Store, key: Bytes, remote: Bytes -> Answer)
    requires Get(store, key).Nil? && ContentAddressed(hash, Fetch(hash, store, key, remote).store)
    ensures LeavesNothingWrong(hash, key, remote(key))
  {
    var after := Fetch(hash, store, key, remote).store;
    forall r, v | r in remote(key).replies && LastReply(remote(key).replies, r.key) == Some(Data(v))
      ensures hash(v) == r.key || (r.key == key && remote(key).answered)
    {
      StoredAfterFetch(hash, store, key, remote, r.key);
      assert Get(after, r.key).Data? ==> r.key in after;
    }
  }

  /** Awaiting the reply matters: one that comes too late for its own attempt is stored but not
      checked, and the next request for the key returns it as a local value, whatever it is. */
  lemma LateReplyIsNotChecked(hash: Bytes -> Bytes, store: Store, key: Bytes, remote: Bytes -> Answer, v: Bytes,
          next: Bytes -> Answer)
    requires Get(store, key).Nil? && remote(key) == Answer([Reply(key, Data(v))], false)
    ensures var f := Fetch(hash, store, key, remote);
      f.value.None? && Fetch(hash, f.store, key, next).value == Some(v)
  {
    assert HandleReplies(store, [Reply(key, Data(v))]) == store[key := Data(v)];
  }

  /** Where a chunk would be looked for, there is that chunk or nothing. */
  ghost predicate RightChunks(hash: Bytes -> Bytes, store: Store) {
    forall c {:trigger hash(c)} :: Get(store, hash(c)).Data? ==> Get(store, hash(c)) == Data(c)
  }

  /** Asked for k, the peers answer properly, with x, and slip in `bad` where c belongs. */
  ghost predicate SlipsIn(hash: Bytes -> Bytes, remote: Bytes -> Answer, k: Bytes, x: Bytes, c: Bytes, bad: Bytes) {
    && remote(k).answered
    && LastReply(remote(k).replies, k) == Some(Data(x)) && Intact(hash, Data(x), k)
    && hash(c) != k && LastReply(remote(k).replies, hash(c)) == Some(Data(bad)) && bad != c
  }

  ghost predicate NeverSlipIn(hash: Bytes -> Bytes, remote: Bytes -> Answer) {
    forall k, x, c, bad :: !SlipsIn(hash, remote, k, x, c, bad)
  }

  lemma FetchKeepsRightChunks(hash: Bytes -> Bytes, store: Store, x: Bytes, remote: Bytes -> Answer)
    requires GoodHash(hash) && RightChunks(hash, store) && NeverSlipIn(hash, remote)
    ensures var f := Fetch(hash, store, hash(x), remote);
      f.value.Some? ==> f.value.value == x && RightChunks(hash, f.store)
  {
    var k := hash(x);
    var f := Fetch(hash, store, k, remote);
    if Get(store, k).Nil? && f.value.Some? {
      StoredAfterFetch(hash, store, k, remote, k);
      forall c {:trigger hash(c)} | Get(f.store, hash(c)).Data? ensures Get(f.store, hash(c)) == Data(c) {
        StoredAfterFetch(hash, store, k, remote, hash(c));
        var bad := Get(f.store, hash(c)).bytes;
        assert !SlipsIn(hash, remote, k, x, c, bad);
      }
    }
  }

  lemma {:induction false} FetchAllRightChunks(hash: Bytes -> Bytes, store: Store, chunks: seq<Bytes>,
          remote: Bytes -> Answer)
    requires GoodHash(hash) && RightChunks(hash, store) && NeverSlipIn(hash, remote)
    ensures var f := FetchAll(hash, store, Hashes(hash, chunks), remote);
      f.value.Some? ==> f.value.value == Concat(chunks)
    decreases chunks
  {
    if chunks != [] {
      FetchKeepsRightChunks(hash, store, chunks[0], remote);
      assert Hashes(hash, chunks)[1..] == Hashes(hash, chunks[1..]);
      var head := Fetch(hash, store, hash(chunks[0]), remote);
      if head.value.Some? {
        FetchAllRightChunks(hash, head.store, chunks[1..], remote);
      }
    }
  }

  /** Nothing but the file that was uploaded comes back, from any content-addressed store. */
  ghost predicate Authentic(hash: Bytes -> Bytes, remote: Bytes -> Answer) {
    forall store, chunks {:trigger Download(hash, store, hash(Metafile(hash, chunks)), remote)} |
      ContentAddressed(hash, store) && chunks != [] ::
      var d := Download(hash, store, hash(Metafile(hash, chunks)), remote);
      d.value.Some? ==> d.value.value == Concat(chunks)
  }

  lemma AuthenticUnlessSlippedIn(hash: Bytes -> Bytes, store: Store, chunks: seq<Bytes>, remote: Bytes -> Answer)
    requires GoodHash(hash) && ContentAddressed(hash, store) && chunks != [] && NeverSlipIn(hash, remote)
    ensures var d := Download(hash, store, hash(Metafile(hash, chunks)), remote);
      d.value.Some? ==> d.value.value == Concat(chunks)
  {
    var meta := Metafile(hash, chunks);
    FetchKeepsRightChunks(hash, store, meta, remote);
    var m := Fetch(hash, store, hash(meta), remote);
    if m.value.Some? {
      SplitJoin(Hashes(hash, chunks));
      FetchAllRightChunks(hash, m.store, chunks, remote);
    }
  }

  /** Asked for x by its hash, the peers answer with it in the end. */
  predicate Provided(hash: Bytes -> Bytes, remote: Bytes -> Answer, x: Bytes) {
    var answer := remote(hash(x));
    answer.answered && LastReply(answer.replies, hash(x)) == Some(Data(x)) && x != []
  }

  lemma ProvidedIsFetched(hash: Bytes -> Bytes, store: Store, x: Bytes, remote: Bytes -> Answer)
    requires GoodHash(hash) && RightChunks(hash, store) && NeverSlipIn(hash, remote) && Provided(hash, remote, x)
    ensures var f := Fetch(hash, store, hash(x), remote); f.value == Some(x) && RightChunks(hash, f.store)
  {
    FetchSucceedsExactly(hash, store, hash(x), remote);
    var f := Fetch(hash, store, hash(x), remote);
    assert f.value == Some(x);
    FetchKeepsRightChunks(hash, store, x, remote);
  }

  lemma {:induction false} FetchAllProvided(hash: Bytes -> Bytes, store: Store, chunks: seq<Bytes>,
          remote: Bytes -> Answer)
    requires GoodHash(hash) && RightChunks(hash, store) && NeverSlipIn(hash, remote)
    requires forall c | c in chunks :: Provided(hash, remote, c)
    ensures FetchAll(hash, store, Hashes(hash, chunks), remote).value == Some(Concat(chunks))
    decreases chunks
  {
    if chunks != [] {
      ProvidedIsFetched(hash, store, chunks[0], remote);
      assert Hashes(hash, chunks)[1..] == Hashes(hash, chunks[1..]);
      FetchAllProvided(hash, Fetch(hash, store, hash(chunks[0]), remote).store, chunks[1..], remote);
    }
  }

  /** From peers that provide the metafile and every chunk, and slip nothing in, the file comes, whatever
      of it and of other files is at hand already. */
  lemma ProvidedFileComes(hash: Bytes -> Bytes, store: Store, chunks: seq<Bytes>, remote: Bytes -> Answer)
    requires GoodHash(hash) && ContentAddressed(hash, store) && chunks != [] && NeverSlipIn(hash, remote)
    requires forall c | c in chunks + [Metafile(hash, chunks)] :: Provided(hash, remote, c)
    ensures Download(hash, store, hash(Metafile(hash, chunks)), remote).value == Some(Concat(chunks))
  {
    var meta := Metafile(hash, chunks);
    var all := chunks + [meta];
    assert all[|chunks|] == meta && forall c | c in chunks :: c in all;
    ProvidedIsFetched(hash, store, meta, remote);
    SplitJoin(Hashes(hash, chunks));
    FetchAllProvided(hash, Fetch(hash, store, hash(meta), remote).store, chunks, remote);
  }

  /** Every question is answered once, with what one store has. */
  ghost predicate ServedFrom(source: Store, remote: Bytes -> Answer) {
    forall k :: remote(k) == Answer([Reply(k, Get(source, k))], true)
  }

  /** What one peer has uploaded, another downloads from it: any non-empty data, in whatever pieces it
      was read, as long as the uploader has lost none of it, whatever the other has already. */
  lemma UploadedElsewhereComes(hash: Bytes -> Bytes, store: Store, input: seq<ReadResult>, later: Store,
          remote: Bytes -> Answer, other: Store)
    requires GoodHash(hash) && ContentAddressed(hash, store) && ReadsToEnd(input) && input != []
    requires Holds(later, Uploaded(hash, store, Chunks(input))) && ContentAddressed(hash, later)
    requires ServedFrom(later, remote) && ContentAddressed(hash, other)
    requires Metafile(hash, Chunks(input)) != []
    ensures Download(hash, other, hash(Metafile(hash, Chunks(input))), remote).value == Some(Delivered(input))
  {
    ChunksAreTheData(input);
    var chunks := Chunks(input);
    var n := ChunksAreReads(input);
    var all := chunks + [Metafile(hash, chunks)];
    StoreAllKeeps(hash, store, all);
    forall c | c in all ensures Provided(hash, remote, c) {
      assert Get(Uploaded(hash, store, chunks), hash(c)) == Data(c);
      OneReply(Reply(hash(c), Get(later, hash(c))), hash(c));
      assert c in chunks || c == Metafile(hash, chunks);
    }
    forall k, x, c, bad ensures !SlipsIn(hash, remote, k, x, c, bad) {
      OneReply(Reply(k, Get(later, k)), hash(c));
    }
    ProvidedFileComes(hash, other, chunks, remote);
  }

  lemma OneReply(r: Reply, k: Bytes)
    ensures LastReply([r], k) == if r.key == k then Some(r.value) else None
  {
    assert [r][1..] == [];
  }

  /** With bad on the shelf of c, c repeated is bad repeated. */
  lemma {:induction false} BadCopies(hash: Bytes -> Bytes, store: Store, c: Bytes, bad: Bytes, copies: nat,
          remote: Bytes -> Answer)
    requires Get(store, hash(c)) == Data(bad)
    ensures var cs, bads := seq(copies, i => c), seq(copies, i => bad);
      FetchAll(hash, store, Hashes(hash, cs), remote) == Fetched(store, Some(Concat(bads)))
  {
    if copies > 0 {
      var cs, bads := seq(copies, i => c), seq(copies, i => bad);
      assert Hashes(hash, cs)[1..] == Hashes(hash, seq(copies - 1, i => c)) && bads[1..] == seq(copies - 1, i => bad);
      BadCopies(hash, store, c, bad, copies - 1, remote);
    }
  }

  /** A file of x and copies of c, of which only the metafile is at hand. */
  lemma SlippedInIsServed(hash: Bytes -> Bytes, remote: Bytes -> Answer, k: Bytes, x: Bytes, c: Bytes, bad: Bytes,
          copies: nat)
    requires GoodHash(hash) && SlipsIn(hash, remote, k, x, c, bad)
    requires x != Metafile(hash, [x] + seq(copies, i => c))
    ensures var meta := Metafile(hash, [x] + seq(copies, i => c));
      Download(hash, map[hash(meta) := Data(meta)], hash(meta), remote).value == Some(x + Concat(seq(copies, i => bad)))
  {
    var chunks := [x] + seq(copies, i => c);
    var meta := Metafile(hash, chunks);
    var store: Store := map[hash(meta) := Data(meta)];
    SplitJoin(Hashes(hash, chunks));
    StoredAfterFetch(hash, store, k, remote, k);
    StoredAfterFetch(hash, store, k, remote, hash(c));
    LastReplyStays(store, remote(k).replies, k);
    var head := Fetch(hash, store, k, remote);
    assert Hashes(hash, chunks)[0] == k && Hashes(hash, chunks)[1..] == Hashes(hash, seq(copies, i => c));
    BadCopies(hash, head.store, c, bad, copies, remote);
  }

  lemma ConcatCopies(c: Bytes)
    ensures Concat(seq(1, i => c)) == c && Concat(seq(2, i => c)) == c + c
  {
    assert seq(1, i => c) == [c] && seq(2, i => c) == [c, c];
    assert [c][1..] == [] && [c, c][1..] == [c];
    assert c + [] == c;
  }

  lemma TwiceDiffers(bad: Bytes, c: Bytes)
    requires bad != c
    ensures bad + bad != c + c
  {
    if |bad| == |c| {
      assert (bad + bad)[..|bad|] == bad && (c + c)[..|c|] == c;
    }
  }

  lemma StillDiffers(x: Bytes, s: Bytes, t: Bytes)
    requires s != t
    ensures x + s != x + t
  {
    assert (x + s)[|x|..] == s && (x + t)[|x|..] == t;
  }

  lemma OneOrTwo(bad: Bytes, c: Bytes, x: Bytes, copies: nat)
    requires bad != c && 1 <= copies <= 2
    ensures x + Concat(seq(copies, i => bad)) != Concat([x] + seq(copies, i => c))
  {
    ConcatCopies(bad);
    ConcatCopies(c);
    TwiceDiffers(bad, c);
    StillDiffers(x, Concat(seq(copies, i => bad)), Concat(seq(copies, i => c)));
    assert ([x] + seq(copies, i => c))[1..] == seq(copies, i => c);
  }

  /** One slip makes some download wrong: of a file of which the store holds the metafile. */
  lemma SlippedInIsNotAuthentic(hash: Bytes -> Bytes, remote: Bytes -> Answer, k: Bytes, x: Bytes, c: Bytes, bad: Bytes)
    requires GoodHash(hash) && SlipsIn(hash, remote, k, x, c, bad)
    ensures !Authentic(hash, remote)
  {
    var copies := if x != Metafile(hash, [x] + seq(1, i => c)) then 1 else 2;
    var chunks := [x] + seq(copies, i => c);
    var meta := Metafile(hash, chunks);
    if copies == 2 {
      MetafilesDiffer(hash, [x] + seq(1, i => c), chunks);
    }
    SlippedInIsServed(hash, remote, k, x, c, bad, copies);
    OneOrTwo(bad, c, x, copies);
    var store: Store := map[hash(meta) := Data(meta)];
    assert ContentAddressed(hash, store);
    var d := Download(hash, store, hash(Metafile(hash, chunks)), remote);
    assert d.value.value != Concat(chunks);
  }

  lemma MetafilesDiffer(hash: Bytes -> Bytes, chunks: seq<Bytes>, others: seq<Bytes>)
    requires GoodHash(hash) && chunks != [] && others != [] && |chunks| != |others|
    ensures Metafile(hash, chunks) != Metafile(hash, others)
  {
    SplitJoin(Hashes(hash, chunks));
    SplitJoin(Hashes(hash, others));
  }

  /** Downloads are authentic, from every content-addressed store and for every file, if and only if the
      peers, when they answer a request properly, never slip in a wrong value under another chunk's hash. */
  lemma DownloadIsAuthentic(hash: Bytes -> Bytes, remote: Bytes -> Answer)
    requires GoodHash(hash)
    ensures Authentic(hash, remote) <==> NeverSlipIn(hash, remote)
  {
    if NeverSlipIn(hash, remote) {
      forall store, chunks {:trigger Download(hash, store, hash(Metafile(hash, chunks)), remote)} |
        ContentAddressed(hash, store) && chunks != []
        ensures var d := Download(hash, store, hash(Metafile(hash, chunks)), remote);
          d.value.Some? ==> d.value.value == Concat(chunks)
      {
        AuthenticUnlessSlippedIn(hash, store, chunks, remote);
      }
    } else {
      var k, x, c, bad :| SlipsIn(hash, remote, k, x, c, bad);
      SlippedInIsNotAuthentic(hash, remote, k, x, c, bad);
    }
  }

  lemma AnsweredWithMore(hash: Bytes -> Bytes, store: Store, k: Bytes, v: Bytes, other: Bytes, bad: Bytes,
          remote: Bytes -> Answer)
    requires Get(store, k).Nil? && Intact(hash, Data(v), k) && other != k
    requires remote(k) == Answer([Reply(other, Data(bad)), Reply(k, Data(v))], true)
    ensures var f := Fetch(hash, store, k, remote); f.value == Some(v) && Get(f.store, other) == Data(bad)
  {
    var replies := remote(k).replies;
    var second := replies[1..];
    assert second == [Reply(k, Data(v))] && second[1..] == [];
    var stored := store[other := Data(bad)][k := Data(v)];
    assert HandleReplies(stored, second[1..]) == stored;
    assert HandleReplies(store[other := Data(bad)], second) == stored;
    assert HandleReplies(store, replies) == stored;
  }

  /** The simplest such answer: the right metafile, and with it a wrong chunk. */
  lemma WrongChunkIsServed(hash: Bytes -> Bytes, store: Store, c: Bytes, bad: Bytes, remote: Bytes -> Answer)
    requires GoodHash(hash) && c != Metafile(hash, [c]) && Metafile(hash, [c]) != []
    requires var meta := Metafile(hash, [c]);
      && Get(store, hash(meta)).Nil?
      && remote(hash(meta)) == Answer([Reply(hash(c), Data(bad)), Reply(hash(meta), Data(meta))], true)
    ensures Download(hash, store, hash(Metafile(hash, [c])), remote).value == Some(bad)
  {
    var meta := Metafile(hash, [c]);
    AnsweredWithMore(hash, store, hash(meta), meta, hash(c), bad, remote);
    SplitJoin(Hashes(hash, [c]));
    assert [c] == seq(1, i => c);
    BadCopies(hash, Fetch(hash, store, hash(meta), remote).store, c, bad, 1, remote);
    ConcatCopies(bad);
  }
}
