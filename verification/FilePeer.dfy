/** A peer that uploads and downloads files through its blob store. */
module FilePeer {
  import opened Basics
  import opened FileStore

  /** Where an upload reads from.  The script says what the coming reads deliver; after it the reader
      is at the end of the file. */
  class Reader {
    var script: seq<ReadResult>

    constructor (script: seq<ReadResult>)
      ensures this.script == script
    {
      this.script := script;
    }

    method Read(buffer: array<Byte>) returns (nread: nat, error: ReadError)
      requires script != [] ==> |script[0].bytes| <= buffer.Length
      modifies this, buffer
      ensures nread <= buffer.Length
      ensures old(script) == [] ==> nread == 0 && error == EndOfFile && script == []
      ensures old(script) != [] ==> ReadResult(buffer[..nread], error) == old(script)[0] && script == old(script)[1..]
    {
      if script == [] {
        return 0, EndOfFile;
      }
      var r := script[0];
      script := script[1..];
      forall i | 0 <= i < |r.bytes| {
        buffer[i] := r.bytes[i];
      }
      nread, error := |r.bytes|, r.error;
    }
  }

  lemma {:induction false} StoreAllAppend(hash: Bytes -> Bytes, store: Store, chunks: seq<Bytes>, c: Bytes)
    ensures StoreAll(hash, store, chunks + [c]) == StoreChunk(hash, StoreAll(hash, store, chunks), c)
    decreases chunks
  {
    if chunks == [] {
      assert [] + [c] == [c];
    } else {
      assert (chunks + [c])[1..] == chunks[1..] + [c];
      StoreAllAppend(hash, StoreChunk(hash, store, chunks[0]), chunks[1..], c);
    }
  }

  /** A partial download: the bytes so far in front of what the remaining keys give. */
  function Prefixed(file: Bytes, rest: Fetched): Fetched {
    if rest.value.None? then rest else Fetched(rest.store, Some(file + rest.value.value))
  }

  lemma PrefixedByNothing(rest: Fetched)
    ensures Prefixed([], rest) == rest
  {
    if rest.value.Some? {
      assert [] + rest.value.value == rest.value.value;
    }
  }

  lemma PrefixedTwice(file: Bytes, chunk: Bytes, rest: Fetched)
    ensures Prefixed(file, Prefixed(chunk, rest)) == Prefixed(file + chunk, rest)
  {
    if rest.value.Some? {
      assert file + (chunk + rest.value.value) == file + chunk + rest.value.value;
    }
  }

  /** What one more answer of the reader adds to the chunks. */
  lemma AfterRead(stored: seq<Bytes>, script: seq<ReadResult>)
    ensures script == [] || script[0].bytes == [] ==> stored + Chunks(script) == stored && !ReadFails(script)
    ensures script != [] && script[0].bytes != [] ==>
      if script[0].error == NoError then
        && stored + Chunks(script) == stored + [script[0].bytes] + Chunks(script[1..])
        && ReadFails(script) == ReadFails(script[1..])
      else
        stored + Chunks(script) == stored + [script[0].bytes] && ReadFails(script) == (script[0].error == OtherError)
  {
  }

  lemma HashesAppend(hash: Bytes -> Bytes, chunks: seq<Bytes>, c: Bytes)
    ensures Hashes(hash, chunks + [c]) == Hashes(hash, chunks) + [hash(c)]
  {
  }

  lemma JoinAppend(parts: seq<Bytes>, p: Bytes)
    ensures Join(parts + [p]) == if parts == [] then p else Join(parts) + [SEP] + p
  {
    assert (parts + [p])[..|parts|] == parts;
  }

  class FilePeer {
    const hash: Bytes -> Bytes
    const chunkSize: nat
    var blobs: Store

    constructor (hash: Bytes -> Bytes, chunkSize: nat)
      ensures this.hash == hash && this.chunkSize == chunkSize && blobs == map[]
    {
      this.hash := hash;
      this.chunkSize := chunkSize;
      blobs := map[];
    }

    /** Stores a copy, so the buffer can be reused. */
    method StoreSlice(buffer: array<Byte>, n: nat) returns (metaHash: Bytes)
      requires n <= buffer.Length
      modifies this
      ensures metaHash == hash(buffer[..n])
      ensures blobs == StoreChunk(hash, old(blobs), buffer[..n])
    {
      var copied := buffer[..n];
      metaHash := hash(copied);
      blobs := blobs[metaHash := Data(copied)];
    }

    method BuildMetafile(metaHashes: seq<Bytes>) returns (text: Bytes)
      ensures text == Join(metaHashes)
    {
      text := [];
      for i := 0 to |metaHashes|
        invariant text == Join(metaHashes[..i]) + if 0 < i < |metaHashes| then [SEP] else []
      {
        JoinAppend(metaHashes[..i], metaHashes[i]);
        assert metaHashes[..i + 1] == metaHashes[..i] + [metaHashes[i]];
        text := text + metaHashes[i];
        if i != |metaHashes| - 1 {
          text := text + [SEP];
        }
      }
      assert metaHashes[..|metaHashes|] == metaHashes;
    }

    /** Stores one more chunk beside those stored since `store`. */
    method KeepChunk(chunk: array<Byte>, nread: nat, metaHashes: seq<Bytes>, ghost store: Store,
            ghost stored: seq<Bytes>)
      returns (extended: seq<Bytes>)
      requires nread <= chunk.Length
      requires blobs == StoreAll(hash, store, stored) && metaHashes == Hashes(hash, stored)
      modifies this
      ensures var stored' := stored + [chunk[..nread]];
        blobs == StoreAll(hash, store, stored') && extended == Hashes(hash, stored')
    {
      StoreAllAppend(hash, store, stored, chunk[..nread]);
      HashesAppend(hash, stored, chunk[..nread]);
      var metaHash := StoreSlice(chunk, nread);
      extended := metaHashes + [metaHash];
    }

    /** Stores each chunk read; false on a read error. */
    method ReadChunks(data: Reader, chunk: array<Byte>) returns (ok: bool, metaHashes: seq<Bytes>)
      requires forall r | r in data.script :: |r.bytes| <= chunk.Length
      modifies this, data, chunk
      ensures ok == !ReadFails(old(data.script))
      ensures blobs == StoreAll(hash, old(blobs), Chunks(old(data.script)))
      ensures ok ==> metaHashes == Hashes(hash, Chunks(old(data.script)))
    {
      ghost var script, store := data.script, blobs;
      ghost var stored: seq<Bytes> := [];
      metaHashes := [];
      while true
        invariant forall r | r in data.script :: |r.bytes| <= chunk.Length
        invariant Chunks(script) == stored + Chunks(data.script) && ReadFails(script) == ReadFails(data.script)
        invariant blobs == StoreAll(hash, store, stored) && metaHashes == Hashes(hash, stored)
        decreases |data.script|
      {
        AfterRead(stored, data.script);
        var nread, error := data.Read(chunk);
        if nread > 0 {
          metaHashes := KeepChunk(chunk, nread, metaHashes, store, stored);
          stored := stored + [chunk[..nread]];
        }
        if error == EndOfFile || nread == 0 {
          break;
        }
        if error != NoError {
          return false, metaHashes;
        }
      }
      ok := true;
    }

    /** Reads to the end, storing each chunk under its hash, and stores the list of hashes. */
    method Upload(data: Reader) returns (metahash: Option<Bytes>)
      requires forall r | r in data.script :: |r.bytes| <= chunkSize
      modifies this, data
      ensures chunkSize == 0 ==> metahash == None && blobs == old(blobs)
      ensures chunkSize > 0 && ReadFails(old(data.script)) ==>
        metahash == None && blobs == StoreAll(hash, old(blobs), Chunks(old(data.script)))
      ensures chunkSize > 0 && !ReadFails(old(data.script)) ==>
        var chunks := Chunks(old(data.script));
        && blobs == Uploaded(hash, old(blobs), chunks)
        && metahash == Some(if chunks == [] then [] else hash(Metafile(hash, chunks)))
    {
      if chunkSize == 0 {
        return None;
      }
      ghost var chunks := Chunks(data.script);
      var chunk := new Byte[chunkSize];
      var ok, metaHashes := ReadChunks(data, chunk);
      if !ok {
        return None;
      }
      if |metaHashes| == 0 {
        return Some([]);
      }
      var text := BuildMetafile(metaHashes);
      StoreAllAppend(hash, old(blobs), chunks, text);
      var buffer := new Byte[|text|](i requires 0 <= i < |text| => text[i]);
      assert buffer[..|text|] == text;
      var key := StoreSlice(buffer, |text|);
      metahash := Some(key);
    }

    /** Stores whatever a peer replied under whatever key it named. */
    method DataReplyMessageCallback(reply: Reply)
      modifies this
      ensures blobs == old(blobs)[reply.key := reply.value]
    {
      blobs := blobs[reply.key := reply.value];
    }

    method GetMetaHashValue(metahash: Bytes, remote: Bytes -> Answer) returns (value: Option<Bytes>)
      modifies this
      ensures Fetched(blobs, value) == Fetch(hash, old(blobs), metahash, remote)
    {
      var local := Get(blobs, metahash);
      if local.Data? {
        return Some(local.bytes);
      }
      var answer := remote(metahash);
      var i := 0;
      while i < |answer.replies|
        invariant 0 <= i <= |answer.replies|
        invariant HandleReplies(blobs, answer.replies[i..]) == HandleReplies(old(blobs), answer.replies)
      {
        assert answer.replies[i..][1..] == answer.replies[i + 1..];
        DataReplyMessageCallback(answer.replies[i]);
        i := i + 1;
      }
      if !answer.answered {
        return None;
      }
      var chunk := Get(blobs, metahash);
      if !Intact(hash, chunk, metahash) {
        blobs := blobs - {metahash};
        return None;
      }
      value := Some(chunk.bytes);
    }

    method Download(metahash: Bytes, remote: Bytes -> Answer) returns (file: Option<Bytes>)
      modifies this
      ensures Fetched(blobs, file) == FileStore.Download(hash, old(blobs), metahash, remote)
    {
      var meta := GetMetaHashValue(metahash, remote);
      if meta.None? {
        return None;
      }
      var metaHashes := Split(meta.value);
      ghost var store := blobs;
      var bytes: Bytes := [];
      assert metaHashes[0..] == metaHashes;
      PrefixedByNothing(FetchAll(hash, blobs, metaHashes, remote));
      for i := 0 to |metaHashes|
        invariant FetchAll(hash, store, metaHashes, remote) ==
                  Prefixed(bytes, FetchAll(hash, blobs, metaHashes[i..], remote))
      {
        assert metaHashes[i..][1..] == metaHashes[i + 1..];
        var chunk := GetMetaHashValue(metaHashes[i], remote);
        if chunk.None? {
          return None;
        }
        PrefixedTwice(bytes, chunk.value, FetchAll(hash, blobs, metaHashes[i + 1..], remote));
        bytes := bytes + chunk.value;
      }
      assert metaHashes[|metaHashes|..] == [] && bytes + [] == bytes;
      file := Some(bytes);
    }
  }
}
