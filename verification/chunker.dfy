/** The streaming chunker: fixed-size pieces, each sealed under its index and length. */
module Chunker {
  import opened Wrappers
  import opened ByteStrings
  import opened MachineIntegers
  import opened Sealed

  const DEFAULT_CHUNK_SIZE: nat := 4 * 1024 * 1024

  /** The cuts a whole plaintext is divided into. */
  function Pieces(data: Bytes): seq<Bytes> {
    if |data| == 0 then []
    else if |data| <= DEFAULT_CHUNK_SIZE then [data]
    else [data[..DEFAULT_CHUNK_SIZE]] + Pieces(data[DEFAULT_CHUNK_SIZE..])
  }

  lemma {:induction false} PiecesConcat(data: Bytes)
    ensures Concat(Pieces(data)) == data
  {
    if |data| > DEFAULT_CHUNK_SIZE {
      var rest := data[DEFAULT_CHUNK_SIZE..];
      PiecesConcat(rest);
      assert Pieces(data)[1..] == Pieces(rest);
      assert data[..DEFAULT_CHUNK_SIZE] + rest == data;
    } else if |data| > 0 {
      assert Pieces(data)[1..] == [];
    }
  }

  /** ceil(n / 4 MiB) pieces, every one full except possibly the last, none empty. */
  lemma {:induction false} PiecesShape(data: Bytes)
    ensures |Pieces(data)| == (|data| + 4_194_304 - 1) / 4_194_304
    ensures forall i :: 0 <= i < |Pieces(data)| - 1 ==> |Pieces(data)[i]| == 4_194_304
    ensures forall i :: 0 <= i < |Pieces(data)| ==> 0 < |Pieces(data)[i]| <= 4_194_304
  {
    if |data| > DEFAULT_CHUNK_SIZE {
      PiecesShape(data[DEFAULT_CHUNK_SIZE..]);
    }
  }

  // ---------- sealing a stream ----------

  datatype StreamError = IoFailed | CryptoFailed | IntegrityFailed

  datatype EncryptedChunk = EncryptedChunk(index: nat, plaintextLength: nat, cid: Cid, envelope: Blob)

  function SealPiece(key: Key, vaultId: string, fileVersionId: string, i: nat, piece: Bytes, nonce: nat): Blob {
    Envelope(key, ChunkAad(vaultId, fileVersionId, i, |piece|), ChunkData(piece), nonce)
  }

  function SealChunk(key: Key, vaultId: string, fileVersionId: string, i: nat, piece: Bytes, nonce: nat): EncryptedChunk {
    var envelope := SealPiece(key, vaultId, fileVersionId, i, piece, nonce);
    EncryptedChunk(i, |piece|, Cid(envelope), envelope)
  }

  /** Every piece sealed under its own index, with a nonce of its own. */
  function SealAll(key: Key, vaultId: string, fileVersionId: string, pieces: seq<Bytes>, nonce: nat): seq<EncryptedChunk> {
    seq(|pieces|, i requires 0 <= i < |pieces| => SealChunk(key, vaultId, fileVersionId, i, pieces[i], nonce + i))
  }

  /** What one read may do: fail, or deliver at most so many bytes and one more. */
  datatype Delivery = Fails | UpTo(more: nat)

  /** A source of bytes that delivers them in pieces of its own choosing. */
  class Reader {
    const data: Bytes
    var position: nat
    var failed: bool
    var script: seq<Delivery>

    ghost predicate Valid()
      reads this
    {
      position <= |data|
    }

    constructor (data: Bytes, script: seq<Delivery>)
      ensures Valid() && this.data == data && position == 0 && !failed && this.script == script
    {
      this.data, this.position, this.failed, this.script := data, 0, false, script;
    }

    /** Reads into the buffer from `start` on; nothing is read only at the end or into no room. */
    method Read(buffer: array<Byte>, start: nat) returns (r: Result<nat, StreamError>)
      requires Valid() && start <= buffer.Length
      modifies this, buffer
      ensures Valid() && buffer[..start] == old(buffer[..start])
      ensures if r.Err? then failed && r.error == IoFailed && position == old(position) else failed == old(failed)
      ensures r.Ok? ==>
                && r.value <= buffer.Length - start && position == old(position) + r.value
                && buffer[start..start + r.value] == data[old(position)..position]
                && (r.value == 0 ==> start == buffer.Length || position == |data|)
    {
      var next := if |script| > 0 then script[0] else UpTo(buffer.Length);
      script := if |script| > 0 then script[1..] else [];
      if next.Fails? {
        failed := true;
        return Err(IoFailed);
      }
      var count := Least(next.more + 1, Least(buffer.Length - start, |data| - position));
      for k := start to start + count
        invariant Valid() && position == old(position) && failed == old(failed)
        invariant forall j :: 0 <= j < start ==> buffer[j] == old(buffer[j])
        invariant forall j :: start <= j < k ==> buffer[j] == data[position + (j - start)]
      {
        buffer[k] := data[position + (k - start)];
      }
      assert buffer[..start] == old(buffer[..start]);
      SameSlices(buffer[..], start, data, position, count);
      position := position + count;
      r := Ok(count);
    }
  }

  lemma {:induction false} SameSlices(a: Bytes, i: nat, b: Bytes, k: nat, n: nat)
    requires i + n <= |a| && k + n <= |b|
    requires forall j :: i <= j < i + n ==> a[j] == b[k + (j - i)]
    ensures a[i..i + n] == b[k..k + n]
  {
  }

  function Least(a: nat, b: nat): nat {
    if a <= b then a else b
  }

  lemma {:induction false} SlicesJoin(a: Bytes, i: nat, j: nat, k: nat)
    requires i <= j <= k <= |a|
    ensures a[i..k] == a[i..j] + a[j..k]
  {
  }

  /** Fills the buffer from short reads: it comes back full, or with everything that was left. */
  method Fill(reader: Reader, buffer: array<Byte>) returns (r: Result<nat, StreamError>)
    requires reader.Valid() && !reader.failed
    modifies reader, buffer
    ensures reader.Valid()
    ensures if r.Err? then reader.failed && r.error == IoFailed else !reader.failed
    ensures r.Ok? ==>
              && r.value == Least(buffer.Length, |reader.data| - old(reader.position))
              && reader.position == old(reader.position) + r.value
              && buffer[..r.value] == reader.data[old(reader.position)..reader.position]
  {
    var length := 0;
    ghost var start := reader.position;
    while length < buffer.Length
      invariant reader.Valid() && !reader.failed && length <= buffer.Length
      invariant reader.position == start + length
      invariant buffer[..length] == reader.data[start..reader.position]
      decreases buffer.Length - length
    {
      ghost var before := reader.position;
      var read :- reader.Read(buffer, length);
      if read == 0 {
        break;
      }
      SlicesJoin(buffer[..], 0, length, length + read);
      SlicesJoin(reader.data, start, before, reader.position);
      length := length + read;
    }
    r := Ok(length);
  }

  /**
    Encrypts a stream, handing each chunk on as soon as it is sealed. What has been handed on
    is always the front of the one list the remaining data determines, whatever the reads were.
    The call succeeds exactly when no read fails, the consumer refuses no chunk, and the index
    does not run out; then the whole list has been handed on.
   */
  method EncryptStream(reader: Reader, key: Key, vaultId: string, fileVersionId: string, nonce: nat, refusal: Option<nat>)
    returns (emitted: seq<EncryptedChunk>, r: Result<nat, StreamError>)
    requires reader.Valid() && !reader.failed
    modifies reader
    ensures var all := SealAll(key, vaultId, fileVersionId, Pieces(reader.data[old(reader.position)..]), nonce);
            && emitted <= all
            && (r.Ok? ==> emitted == all && r.value == |all| && !reader.failed)
            && (r.Err? ==> reader.failed || (|emitted| < |all| && refusal == Some(|emitted|)) || |emitted| == U64_MAX + 1)
            && (refusal.Some? && refusal.value < |all| ==> r.Err?)
            && (|all| > U64_MAX ==> r.Err?)
  {
    hide Pieces, SealAll, SealChunk;
    var buffer := new Byte[DEFAULT_CHUNK_SIZE];
    var index := 0;
    emitted := [];
    ghost var rest := reader.data[reader.position..];
    ghost var pieces := Pieces(rest);
    ghost var all := SealAll(key, vaultId, fileVersionId, pieces, nonce);
    PiecesShape(rest);
    SealedAt(key, vaultId, fileVersionId, pieces, nonce);
    while true
      invariant reader.Valid() && !reader.failed && fresh(buffer)
      invariant index == |emitted| <= U64_MAX && index <= |pieces|
      invariant reader.position == old(reader.position) + index * DEFAULT_CHUNK_SIZE
      invariant emitted == all[..index]
      invariant refusal.Some? ==> index <= refusal.value
      decreases |pieces| - index
    {
      var filled := Fill(reader, buffer);
      if filled.Err? {
        return emitted, Err(filled.error);
      }
      var length := filled.value;
      if length == 0 {
        break;
      }
      ghost var start := index * DEFAULT_CHUNK_SIZE;
      PieceAt(rest, index);
      SliceOfRest(reader.data, old(reader.position), start, length);
      assert buffer[..length] == pieces[index];
      var chunk := SealChunk(key, vaultId, fileVersionId, index, buffer[..length], nonce + index);
      if refusal == Some(index) {
        return emitted, Err(IoFailed);
      }
      assert chunk == all[index];
      emitted := emitted + [chunk];
      if index + 1 > U64_MAX {
        return emitted, Err(IntegrityFailed);
      }
      index := index + 1;
      if length < buffer.Length {
        break;
      }
    }
    assert index == |pieces|;
    assert emitted == all;
    r := Ok(index);
  }

  /** Where the i-th piece lies. */
  lemma {:induction false} PieceAt(data: Bytes, i: nat)
    requires i * DEFAULT_CHUNK_SIZE < |data|
    ensures i < |Pieces(data)|
    ensures var start := i * DEFAULT_CHUNK_SIZE;
            Pieces(data)[i] == data[start..start + Least(DEFAULT_CHUNK_SIZE, |data| - start)]
    ensures i + 1 < |Pieces(data)| <==> (i + 1) * DEFAULT_CHUNK_SIZE < |data|
    decreases i
  {
    hide Pieces;
    PiecesSplit(data);
    if i > 0 {
      var rest := data[DEFAULT_CHUNK_SIZE..];
      var start := (i - 1) * DEFAULT_CHUNK_SIZE;
      PieceAt(rest, i - 1);
      SliceOfRest(data, DEFAULT_CHUNK_SIZE, start, Least(DEFAULT_CHUNK_SIZE, |rest| - start));
    }
  }

  /** The first piece, and the pieces of what is left of a longer plaintext. */
  lemma {:induction false} PiecesSplit(data: Bytes)
    requires |data| > 0
    ensures |Pieces(data)| > 0 && Pieces(data)[0] == data[..Least(DEFAULT_CHUNK_SIZE, |data|)]
    ensures |data| <= DEFAULT_CHUNK_SIZE ==> |Pieces(data)| == 1
    ensures |data| > DEFAULT_CHUNK_SIZE ==>
              && |Pieces(data)| == |Pieces(data[DEFAULT_CHUNK_SIZE..])| + 1 && |Pieces(data)| > 1
              && forall k :: 0 < k < |Pieces(data)| ==> Pieces(data)[k] == Pieces(data[DEFAULT_CHUNK_SIZE..])[k - 1]
  {
  }

  lemma {:induction false} SliceOfRest(data: Bytes, skipped: nat, start: nat, n: nat)
    requires skipped + start + n <= |data|
    ensures data[skipped..][start..start + n] == data[skipped + start..skipped + start + n]
  {
  }

  lemma {:induction false} SealedAt(key: Key, vaultId: string, fileVersionId: string, pieces: seq<Bytes>, nonce: nat)
    ensures var all := SealAll(key, vaultId, fileVersionId, pieces, nonce);
            && |all| == |pieces|
            && forall i :: 0 <= i < |all| ==> all[i] == SealChunk(key, vaultId, fileVersionId, i, pieces[i], nonce + i)
  {
  }

  // ---------- opening a stream ----------

  function OpenChunk(c: EncryptedChunk, i: nat, key: Key, vaultId: string,
          fileVersionId: string): Result<Bytes, StreamError> {
    if c.index != i || Cid(c.envelope) != c.cid then Err(IntegrityFailed)
    else
      match Decrypt(key, c.envelope, ChunkAad(vaultId, fileVersionId, c.index, c.plaintextLength))
      case Some(ChunkData(bytes)) => if |bytes| == c.plaintextLength then Ok(bytes) else Err(IntegrityFailed)
      case Some(_) => Err(IntegrityFailed)
      case None => Err(CryptoFailed)
  }

  predicate OpensTo(chunks: seq<EncryptedChunk>, key: Key, vaultId: string, fileVersionId: string, texts: seq<Bytes>) {
    && |texts| == |chunks|
    && forall i :: 0 <= i < |chunks| ==> OpenChunk(chunks[i], i, key, vaultId, fileVersionId) == Ok(texts[i])
  }

  predicate AllOpen(chunks: seq<EncryptedChunk>, key: Key, vaultId: string, fileVersionId: string) {
    forall i :: 0 <= i < |chunks| ==> OpenChunk(chunks[i], i, key, vaultId, fileVersionId).Ok?
  }

  /** Writes out each chunk that opens in its place, up to the first that does not. */
  method DecryptStream(chunks: seq<EncryptedChunk>, key: Key, vaultId: string, fileVersionId: string)
    returns (written: Bytes, r: Result<(), StreamError>, ghost texts: seq<Bytes>)
    ensures |texts| <= |chunks| && OpensTo(chunks[..|texts|], key, vaultId, fileVersionId, texts)
    ensures written == Concat(texts)
    ensures r.Ok? ==> |texts| == |chunks|
    ensures r.Err? ==> |texts| < |chunks| && OpenChunk(chunks[|texts|], |texts|, key, vaultId, fileVersionId) == Err(r.error)
    ensures r.Ok? <==> AllOpen(chunks, key, vaultId, fileVersionId)
  {
    written, texts := [], [];
    for expectedIndex := 0 to |chunks|
      invariant |texts| == expectedIndex && OpensTo(chunks[..expectedIndex], key, vaultId, fileVersionId, texts)
      invariant written == Concat(texts)
    {
      var opening := OpenChunk(chunks[expectedIndex], expectedIndex, key, vaultId, fileVersionId);
      if opening.Err? {
        return written, Err(opening.error), texts;
      }
      ConcatSplit(texts, [opening.value]);
      texts := texts + [opening.value];
      written := written + opening.value;
    }
    assert chunks[..|chunks|] == chunks;
    r := Ok(());
  }

  lemma {:induction false} OpeningIsUnique(chunks: seq<EncryptedChunk>, key: Key, vaultId: string,
          fileVersionId: string, a: seq<Bytes>, b: seq<Bytes>)
    requires OpensTo(chunks, key, vaultId, fileVersionId, a) && OpensTo(chunks, key, vaultId, fileVersionId, b)
    ensures a == b
  {
    forall i | 0 <= i < |a| ensures a[i] == b[i] {
      assert OpenChunk(chunks[i], i, key, vaultId, fileVersionId) == Ok(a[i]);
      assert OpenChunk(chunks[i], i, key, vaultId, fileVersionId) == Ok(b[i]);
    }
  }

  /** The sealed pieces of any data open, and open to nothing but that data. */
  lemma {:induction false} StreamRoundTrip(key: Key, vaultId: string, fileVersionId: string, data: Bytes,
          nonce: nat, texts: seq<Bytes>)
    ensures var all := SealAll(key, vaultId, fileVersionId, Pieces(data), nonce);
            && AllOpen(all, key, vaultId, fileVersionId)
            && (OpensTo(all, key, vaultId, fileVersionId, texts) ==> Concat(texts) == data)
  {
    var all := SealAll(key, vaultId, fileVersionId, Pieces(data), nonce);
    assert OpensTo(all, key, vaultId, fileVersionId, Pieces(data));
    if OpensTo(all, key, vaultId, fileVersionId, texts) {
      OpeningIsUnique(all, key, vaultId, fileVersionId, texts, Pieces(data));
      PiecesConcat(data);
    }
  }

  /**
    When the only envelopes under the file's key are those of one encryption, a list of chunks
    opens exactly when it is the front of that encryption's list: every swap, repeat, gap,
    altered index, length or CID is refused.
   */
  lemma {:induction false} OnlyPrefixesOpen(chunks: seq<EncryptedChunk>, key: Key, vaultId: string,
          fileVersionId: string, pieces: seq<Bytes>, nonce: nat)
    requires var all := SealAll(key, vaultId, fileVersionId, pieces, nonce);
             forall c :: c in chunks && c.envelope.Envelope? && c.envelope.key == key ==>
                           exists d :: d in all && d.envelope == c.envelope
    ensures AllOpen(chunks, key, vaultId, fileVersionId) <==> chunks <= SealAll(key, vaultId, fileVersionId, pieces, nonce)
  {
    var all := SealAll(key, vaultId, fileVersionId, pieces, nonce);
    if AllOpen(chunks, key, vaultId, fileVersionId) {
      if |chunks| > 0 {
        OpensInPlace(chunks[|chunks| - 1], |chunks| - 1, key, vaultId, fileVersionId, pieces, nonce);
      }
      forall i | 0 <= i < |chunks| ensures i < |all| && chunks[i] == all[i] {
        OpensInPlace(chunks[i], i, key, vaultId, fileVersionId, pieces, nonce);
      }
    }
  }

  lemma {:induction false} OpensInPlace(c: EncryptedChunk, i: nat, key: Key, vaultId: string,
          fileVersionId: string, pieces: seq<Bytes>, nonce: nat)
    requires var all := SealAll(key, vaultId, fileVersionId, pieces, nonce);
             c.envelope.Envelope? && c.envelope.key == key ==> exists d :: d in all && d.envelope == c.envelope
    requires OpenChunk(c, i, key, vaultId, fileVersionId).Ok?
    ensures i < |pieces| && c == SealAll(key, vaultId, fileVersionId, pieces, nonce)[i]
  {
    var all := SealAll(key, vaultId, fileVersionId, pieces, nonce);
    var d :| d in all && d.envelope == c.envelope;
    var j :| 0 <= j < |all| && all[j] == d;
    assert d == SealChunk(key, vaultId, fileVersionId, j, pieces[j], nonce + j);
  }

  /** No other order of a whole encryption's chunks opens. */
  lemma {:induction false} ReorderingRejected(chunks: seq<EncryptedChunk>, key: Key, vaultId: string,
          fileVersionId: string, pieces: seq<Bytes>, nonce: nat)
    requires multiset(chunks) == multiset(SealAll(key, vaultId, fileVersionId, pieces, nonce))
    ensures AllOpen(chunks, key, vaultId, fileVersionId) <==> chunks == SealAll(key, vaultId, fileVersionId, pieces, nonce)
  {
    var all := SealAll(key, vaultId, fileVersionId, pieces, nonce);
    forall c | c in chunks ensures c in all {
      assert c in multiset(chunks);
    }
    OnlyPrefixesOpen(chunks, key, vaultId, fileVersionId, pieces, nonce);
    assert |chunks| == |multiset(chunks)| == |multiset(all)| == |all|;
  }
}
