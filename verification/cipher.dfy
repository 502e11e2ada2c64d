/** The encrypted-blob format of security.py and its streaming encrypt and
    decrypt loops:

      MAGIC "AESGCMv1" (8) || salt (16) || nonce (12) || ciphertext (N) || tag (16)

    AES-256-GCM and PBKDF2-HMAC-SHA256 are library calls. They are kept as
    opaque total functions in `Primitives`: GCM is a keystream byte per
    ciphertext offset (its counter mode) plus a 16-byte tag over the
    ciphertext, both determined by key and nonce. The format, the length
    arithmetic and the chunk loops are modelled around them. */
module CipherEngine {
  import opened Bits
  import opened Results

  /** The bytes of "AESGCMv1". */
  const MAGIC: seq<byte> := [0x41, 0x45, 0x53, 0x47, 0x43, 0x4D, 0x76, 0x31]
  const SALT_SIZE: nat := 16
  const NONCE_SIZE: nat := 12
  const TAG_SIZE: nat := 16
  const KEY_SIZE: nat := 32
  const PBKDF2_ITERS: nat := 100_000
  const CHUNK_SIZE: nat := 64 * 1024
  /** Magic, salt and nonce: 36 bytes. */
  const HEADER_LEN: nat := |MAGIC| + SALT_SIZE + NONCE_SIZE
  /** Nothing shorter than header plus tag (52 bytes) can be a blob. */
  const MIN_BLOB_LEN: nat := HEADER_LEN + TAG_SIZE

  type Salt = s: seq<byte> | |s| == SALT_SIZE witness seq(SALT_SIZE, _ => 0)
  type Nonce = s: seq<byte> | |s| == NONCE_SIZE witness seq(NONCE_SIZE, _ => 0)
  type Key = s: seq<byte> | |s| == KEY_SIZE witness seq(KEY_SIZE, _ => 0)
  type Tag = s: seq<byte> | |s| == TAG_SIZE witness seq(TAG_SIZE, _ => 0)

  datatype Primitives = Primitives(
    /** PBKDF2-HMAC-SHA256(passphrase, salt, iterations) with a KEY_SIZE-byte output. */
    pbkdf2: (seq<byte>, seq<byte>, nat) -> Key,
    /** The GCM keystream byte at a ciphertext offset, for a key and nonce. */
    keystream: (Key, seq<byte>, nat) -> byte,
    /** The GCM tag of a whole ciphertext, for a key and nonce. */
    tag: (Key, seq<byte>, seq<byte>) -> Tag)

  /** `derive_key`: the passphrase's UTF-8 bytes through PBKDF2. */
  function DeriveKey(p: Primitives, passphrase: seq<byte>, salt: seq<byte>): (key: Key)
    ensures key == p.pbkdf2(passphrase, salt, 100_000)
  {
    p.pbkdf2(passphrase, salt, PBKDF2_ITERS)
  }

  /** Counter-mode transformation of `data` placed at ciphertext offset
      `offset`; the same call encrypts and decrypts. */
  function Ctr(p: Primitives, key: Key, nonce: seq<byte>, offset: nat, data: seq<byte>): (out: seq<byte>)
    ensures |out| == |data|
  {
    seq(|data|, i requires 0 <= i < |data| => data[i] ^ p.keystream(key, nonce, offset + i))
  }

  /** Applying the keystream twice at the same offset gives the data back. */
  lemma CtrInvolutive(p: Primitives, key: Key, nonce: seq<byte>, offset: nat, data: seq<byte>)
    ensures Ctr(p, key, nonce, offset, Ctr(p, key, nonce, offset, data)) == data
  {
    var once := Ctr(p, key, nonce, offset, data);
    var twice := Ctr(p, key, nonce, offset, once);
    forall i | 0 <= i < |data|
      ensures twice[i] == data[i]
    {
      var k := p.keystream(key, nonce, offset + i);
      assert twice[i] == (data[i] ^ k) ^ k;
    }
  }

  /** Transforming in pieces at consecutive offsets is transforming in one go. */
  lemma CtrAppend(p: Primitives, key: Key, nonce: seq<byte>, offset: nat, a: seq<byte>, b: seq<byte>)
    ensures Ctr(p, key, nonce, offset, a + b) == Ctr(p, key, nonce, offset, a) + Ctr(p, key, nonce, offset + |a|, b)
  {
    var whole := Ctr(p, key, nonce, offset, a + b);
    var parts := Ctr(p, key, nonce, offset, a) + Ctr(p, key, nonce, offset + |a|, b);
    forall i | 0 <= i < |a + b|
      ensures whole[i] == parts[i]
    {
      if i >= |a| {
        assert offset + |a| + (i - |a|) == offset + i;
      }
    }
  }

  /** The blob `encrypt_file` writes for `plaintext`, given the salt and nonce
      its random source produced. */
  function Encrypt(p: Primitives, plaintext: seq<byte>, passphrase: seq<byte>, salt: Salt, nonce: Nonce): (blob: seq<byte>)
    ensures |blob| == |plaintext| + MIN_BLOB_LEN
    ensures blob[..|MAGIC|] == MAGIC
    ensures blob[|MAGIC|..|MAGIC| + SALT_SIZE] == salt
    ensures blob[|MAGIC| + SALT_SIZE..HEADER_LEN] == nonce
  {
    var key := DeriveKey(p, passphrase, salt);
    var ct := Ctr(p, key, nonce, 0, plaintext);
    MAGIC + salt + nonce + ct + p.tag(key, nonce, ct)
  }

  /** The fields of a blob of at least MIN_BLOB_LEN bytes. */
  function SaltOf(blob: seq<byte>): seq<byte>
    requires |blob| >= MIN_BLOB_LEN
  {
    blob[|MAGIC|..|MAGIC| + SALT_SIZE]
  }

  function NonceOf(blob: seq<byte>): seq<byte>
    requires |blob| >= MIN_BLOB_LEN
  {
    blob[|MAGIC| + SALT_SIZE..HEADER_LEN]
  }

  function CiphertextOf(blob: seq<byte>): seq<byte>
    requires |blob| >= MIN_BLOB_LEN
  {
    blob[HEADER_LEN..|blob| - TAG_SIZE]
  }

  function TagOf(blob: seq<byte>): seq<byte>
    requires |blob| >= MIN_BLOB_LEN
  {
    blob[|blob| - TAG_SIZE..]
  }

  /** What `decrypt_file` returns for a whole blob: the length and magic
      checks, then the plaintext only if the stored tag verifies. */
  function Decrypt(p: Primitives, blob: seq<byte>, passphrase: seq<byte>): (r: Result<seq<byte>>)
    ensures r == Failure(BlobTooSmall) <==> |blob| < MIN_BLOB_LEN
    ensures r == Failure(BadMagic) <==> |blob| >= MIN_BLOB_LEN && blob[..|MAGIC|] != MAGIC
    ensures r.Failure? ==> r.error in {BlobTooSmall, BadMagic, AuthenticationFailed}
    ensures r.Success? ==> |r.value| == |blob| - MIN_BLOB_LEN
    ensures r.Success? ==>
      var key := DeriveKey(p, passphrase, SaltOf(blob));
      && TagOf(blob) == p.tag(key, NonceOf(blob), CiphertextOf(blob))
      && Ctr(p, key, NonceOf(blob), 0, r.value) == CiphertextOf(blob)
  {
    if |blob| < MIN_BLOB_LEN then Failure(BlobTooSmall)
    else if blob[..|MAGIC|] != MAGIC then Failure(BadMagic)
    else
      var key := DeriveKey(p, passphrase, SaltOf(blob));
      var nonce := NonceOf(blob);
      var ct := CiphertextOf(blob);
      if p.tag(key, nonce, ct) != TagOf(blob) then Failure(AuthenticationFailed)
      else
        CtrInvolutive(p, key, nonce, 0, ct);
        Success(Ctr(p, key, nonce, 0, ct))
  }

  /** The salt stored in a blob gives back the key that encrypted it, so
      the passphrase alone is enough to decrypt. */
  lemma StoredSaltGivesKey(p: Primitives, plaintext: seq<byte>, passphrase: seq<byte>, salt: Salt, nonce: Nonce)
    ensures var blob := Encrypt(p, plaintext, passphrase, salt, nonce);
      DeriveKey(p, passphrase, SaltOf(blob)) == DeriveKey(p, passphrase, salt)
  {
  }

  /** Decrypting the blob encrypted under the same passphrase verifies its
      tag and returns the plaintext. */
  lemma DecryptEncrypt(p: Primitives, plaintext: seq<byte>, passphrase: seq<byte>, salt: Salt, nonce: Nonce)
    ensures Decrypt(p, Encrypt(p, plaintext, passphrase, salt, nonce), passphrase) == Success(plaintext)
  {
    var blob := Encrypt(p, plaintext, passphrase, salt, nonce);
    var key := DeriveKey(p, passphrase, salt);
    var ct := Ctr(p, key, nonce, 0, plaintext);
    assert blob == MAGIC + salt + nonce + ct + p.tag(key, nonce, ct);
    assert SaltOf(blob) == salt;
    assert NonceOf(blob) == nonce;
    assert CiphertextOf(blob) == ct;
    assert TagOf(blob) == p.tag(key, nonce, ct);
    CtrInvolutive(p, key, nonce, 0, plaintext);
  }

  /** A blob whose ciphertext was changed, leaving a ciphertext the tag
      function tells apart from the original, is rejected as inauthentic. */
  lemma TamperedCiphertextRejected(p: Primitives, blob: seq<byte>, forged: seq<byte>, passphrase: seq<byte>)
    requires Decrypt(p, blob, passphrase).Success?
    requires |forged| == |blob|
    requires forged[..HEADER_LEN] == blob[..HEADER_LEN] && TagOf(forged) == TagOf(blob)
    requires var key := DeriveKey(p, passphrase, SaltOf(blob));
      p.tag(key, NonceOf(blob), CiphertextOf(forged)) != p.tag(key, NonceOf(blob), CiphertextOf(blob))
    ensures Decrypt(p, forged, passphrase) == Failure(AuthenticationFailed)
  {
    forall i | 0 <= i < HEADER_LEN
      ensures forged[i] == blob[i]
    {
      assert forged[..HEADER_LEN][i] == blob[..HEADER_LEN][i];
    }
    assert forged[..|MAGIC|] == blob[..|MAGIC|];
    assert SaltOf(forged) == SaltOf(blob);
    assert NonceOf(forged) == NonceOf(blob);
  }

  function Min(a: nat, b: nat): nat {
    if a < b then a else b
  }

  /** `fin.read(n)` at position `pos`: at most `n` bytes, fewer at the end. */
  function Read(file: seq<byte>, pos: nat, n: nat): (chunk: seq<byte>)
    requires pos <= |file|
    ensures |chunk| == Min(n, |file| - pos)
    ensures chunk == file[pos..pos + |chunk|]
  {
    file[pos..pos + Min(n, |file| - pos)]
  }

  /** The successive `fin.read(CHUNK_SIZE)` results of the encrypt loop. */
  function Chunks(data: seq<byte>): (chunks: seq<seq<byte>>)
    ensures |chunks| == (|data| + CHUNK_SIZE - 1) / CHUNK_SIZE
    decreases |data|
  {
    if |data| == 0 then []
    else if |data| <= CHUNK_SIZE then [data]
    else [data[..CHUNK_SIZE]] + Chunks(data[CHUNK_SIZE..])
  }

  /** The chunks partition the input, none is empty, none exceeds
      CHUNK_SIZE, and all but the last are full. */
  lemma {:induction false} ChunksPartition(data: seq<byte>)
    ensures Flatten(Chunks(data)) == data
    ensures ChunkSizes(Chunks(data))
    decreases |data|
  {
    if |data| > CHUNK_SIZE {
      var rest := data[CHUNK_SIZE..];
      ChunksPartition(rest);
      var cs := Chunks(data);
      assert cs[1..] == Chunks(rest);
      assert data == data[..CHUNK_SIZE] + rest;
    } else if |data| > 0 {
      assert Chunks(data)[1..] == [];
      assert data + [] == data;
    }
  }

  /** No chunk is empty or above CHUNK_SIZE, and all but the last are full. */
  predicate ChunkSizes(cs: seq<seq<byte>>) {
    && (forall i :: 0 <= i < |cs| ==> 0 < |cs[i]| <= CHUNK_SIZE)
    && (forall i :: 0 <= i < |cs| - 1 ==> |cs[i]| == CHUNK_SIZE)
  }

  function Flatten(cs: seq<seq<byte>>): seq<byte> {
    if |cs| == 0 then [] else cs[0] + Flatten(cs[1..])
  }

  /** One more read at `pos`: a nonempty read is the first chunk of the rest. */
  lemma ChunksStep(data: seq<byte>, pos: nat)
    requires pos < |data|
    ensures var chunk := Read(data, pos, CHUNK_SIZE);
      Chunks(data[pos..]) == [chunk] + Chunks(data[pos + |chunk|..])
  {
    var rest := data[pos..];
    if |rest| <= CHUNK_SIZE {
      assert Read(data, pos, CHUNK_SIZE) == rest;
      assert data[pos + |rest|..] == [];
    } else {
      assert Read(data, pos, CHUNK_SIZE) == rest[..CHUNK_SIZE];
      assert rest[CHUNK_SIZE..] == data[pos + CHUNK_SIZE..];
    }
  }

  /** The loop's account of the chunks read so far, one read later. */
  lemma ChunksAdvance(data: seq<byte>, pos: nat, done: seq<seq<byte>>)
    requires pos < |data|
    requires done + Chunks(data[pos..]) == Chunks(data)
    ensures var chunk := Read(data, pos, CHUNK_SIZE);
      (done + [chunk]) + Chunks(data[pos + |chunk|..]) == Chunks(data)
  {
    var chunk := Read(data, pos, CHUNK_SIZE);
    ChunksStep(data, pos);
    AppendAssoc(done, [chunk], Chunks(data[pos + |chunk|..]));
  }

  lemma AppendAssoc<T>(a: seq<T>, b: seq<T>, c: seq<T>)
    ensures (a + b) + c == a + (b + c)
  {
  }

  lemma ChunksDone(data: seq<byte>, done: seq<seq<byte>>)
    requires done + Chunks(data[|data|..]) == Chunks(data)
    ensures done == Chunks(data)
  {
    assert data[|data|..] == [];
    assert done + [] == done;
  }

  /** Extending the transformed prefix by the next chunk. */
  lemma CtrPrefixStep(p: Primitives, key: Key, nonce: seq<byte>, data: seq<byte>, pos: nat, chunk: seq<byte>)
    requires pos + |chunk| <= |data| && chunk == data[pos..pos + |chunk|]
    ensures Ctr(p, key, nonce, 0, data[..pos]) + Ctr(p, key, nonce, pos, chunk)
         == Ctr(p, key, nonce, 0, data[..pos + |chunk|])
  {
    CtrAppend(p, key, nonce, 0, data[..pos], chunk);
    assert data[..pos] + chunk == data[..pos + |chunk|];
  }

  /** One pass of either chunk loop: a read before the end returns the next
      chunk, whose transformation extends the output written so far (the
      ciphertext when encrypting, the plaintext when decrypting). */
  lemma CtrLoopStep(p: Primitives, key: Key, nonce: seq<byte>, data: seq<byte>, pos: nat,
                        ct: seq<byte>, done: seq<seq<byte>>)
    requires pos < |data|
    requires ct == Ctr(p, key, nonce, 0, data[..pos])
    requires done + Chunks(data[pos..]) == Chunks(data)
    ensures var chunk := Read(data, pos, CHUNK_SIZE);
      && 0 < |chunk|
      && ct + Ctr(p, key, nonce, pos, chunk) == Ctr(p, key, nonce, 0, data[..pos + |chunk|])
      && (done + [chunk]) + Chunks(data[pos + |chunk|..]) == Chunks(data)
  {
    var chunk := Read(data, pos, CHUNK_SIZE);
    ChunksAdvance(data, pos, done);
    CtrPrefixStep(p, key, nonce, data, pos, chunk);
  }

  /** The chunk loop of `encrypt_file`: reads the plaintext a chunk at a
      time until a read comes back empty, transforming each chunk at its
      offset. */
  method EncryptChunks(p: Primitives, key: Key, nonce: Nonce, plaintext: seq<byte>)
    returns (ct: seq<byte>, ghost chunks: seq<seq<byte>>)
    ensures ct == Ctr(p, key, nonce, 0, plaintext)
    ensures chunks == Chunks(plaintext)
  {
    ct := [];
    var pos := 0;
    chunks := [];
    assert plaintext[pos..] == plaintext;
    while true
      invariant 0 <= pos <= |plaintext|
      invariant ct == Ctr(p, key, nonce, 0, plaintext[..pos])
      invariant chunks + Chunks(plaintext[pos..]) == Chunks(plaintext)
      decreases |plaintext| - pos
    {
      var chunk := Read(plaintext, pos, CHUNK_SIZE);
      if |chunk| == 0 {
        break;
      }
      CtrLoopStep(p, key, nonce, plaintext, pos, ct, chunks);
      ct := ct + Ctr(p, key, nonce, pos, chunk);
      chunks := chunks + [chunk];
      pos := pos + |chunk|;
    }
    assert plaintext[..pos] == plaintext;
    ChunksDone(plaintext, chunks);
  }

  /** `encrypt_file`: header, then the plaintext a chunk at a time, then the
      tag over everything written. */
  method EncryptStream(p: Primitives, plaintext: seq<byte>, passphrase: seq<byte>, salt: Salt, nonce: Nonce)
    returns (blob: seq<byte>)
    ensures blob == Encrypt(p, plaintext, passphrase, salt, nonce)
  {
    var key := DeriveKey(p, passphrase, salt);
    blob := MAGIC + salt + nonce;
    var ct, _ := EncryptChunks(p, key, nonce, plaintext);
    blob := blob + ct + p.tag(key, nonce, ct);
  }

  /** A slice at the end of a prefix extends the prefix. */
  lemma PrefixExtend(data: seq<byte>, off: nat, chunk: seq<byte>)
    requires off + |chunk| <= |data| && chunk == data[off..off + |chunk|]
    ensures data[..off] + chunk == data[..off + |chunk|]
  {
  }

  /** The ciphertext bytes `decrypt_file` reads at an offset are those of the
      blob's ciphertext field. */
  lemma CiphertextRead(blob: seq<byte>, off: nat, n: nat)
    requires |blob| >= MIN_BLOB_LEN && off + n <= |CiphertextOf(blob)|
    ensures Read(blob, HEADER_LEN + off, n) == CiphertextOf(blob)[off..off + n]
  {
    var ctext := CiphertextOf(blob);
    var got, want := Read(blob, HEADER_LEN + off, n), ctext[off..off + n];
    forall i | 0 <= i < n
      ensures got[i] == want[i]
    {
      assert ctext[off + i] == blob[HEADER_LEN + off + i];
    }
  }

  /** The state of `out_path` after `decrypt_file`. */
  datatype OutputFile = Untouched | Written(bytes: seq<byte>) | Removed

  /** The chunk loop of `decrypt_file`: reads min(CHUNK_SIZE, bytes left)
      at a time until the ciphertext is used up, transforming each chunk at
      its offset. The reads are the chunks the encrypt loop produced. */
  method DecryptChunks(p: Primitives, key: Key, nonce: seq<byte>, blob: seq<byte>)
    returns (ct: seq<byte>, written: seq<byte>, ghost chunks: seq<seq<byte>>)
    requires |blob| >= MIN_BLOB_LEN
    ensures ct == CiphertextOf(blob)
    ensures written == Ctr(p, key, nonce, 0, ct)
    ensures chunks == Chunks(ct)
  {
    ghost var ctext := CiphertextOf(blob);
    var bytesLeft := |blob| - HEADER_LEN - TAG_SIZE;
    var off := 0;
    ct, written, chunks := [], [], [];
    assert ctext[0..] == ctext && ctext[..0] == [];
    while bytesLeft > 0
      invariant 0 <= off <= |ctext| && off + bytesLeft == |ctext|
      invariant ct == ctext[..off]
      invariant written == Ctr(p, key, nonce, 0, ct)
      invariant chunks + Chunks(ctext[off..]) == Chunks(ctext)
      decreases bytesLeft
    {
      var toRead := Min(CHUNK_SIZE, bytesLeft);
      var chunk := Read(blob, HEADER_LEN + off, toRead);
      // the short-read branch cannot be taken: the blob holds every byte
      CiphertextRead(blob, off, toRead);
      CtrLoopStep(p, key, nonce, ctext, off, written, chunks);
      PrefixExtend(ctext, off, chunk);
      chunks := chunks + [chunk];
      written := written + Ctr(p, key, nonce, off, chunk);
      ct := ct + chunk;
      off := off + |chunk|;
      bytesLeft := bytesLeft - |chunk|;
    }
    assert ct == ctext;
    ChunksDone(ct, chunks);
  }

  /** `decrypt_file`: the length and magic checks, the chunked decrypt loop
      that writes plaintext as it goes, then the tag check that removes the
      output on a mismatch. */
  method DecryptStream(p: Primitives, blob: seq<byte>, passphrase: seq<byte>)
    returns (r: Result<seq<byte>>, out: OutputFile, ghost chunks: seq<seq<byte>>)
    ensures r == Decrypt(p, blob, passphrase)
    ensures out.Written? <==> r.Success?
    ensures out.Written? ==> out.bytes == r.value
    ensures r == Failure(AuthenticationFailed) ==> out == Removed
    ensures r.Failure? && r.error != AuthenticationFailed ==> out == Untouched
    ensures |blob| >= MIN_BLOB_LEN && blob[..|MAGIC|] == MAGIC ==> chunks == Chunks(CiphertextOf(blob))
  {
    chunks := [];
    var filesize := |blob|;
    var headerLen := |MAGIC| + SALT_SIZE + NONCE_SIZE;
    if filesize < headerLen + TAG_SIZE {
      return Failure(BlobTooSmall), Untouched, chunks;
    }
    var magic := Read(blob, 0, |MAGIC|);
    if magic != MAGIC {
      return Failure(BadMagic), Untouched, chunks;
    }
    var salt := Read(blob, |MAGIC|, SALT_SIZE);
    var nonce := Read(blob, |MAGIC| + SALT_SIZE, NONCE_SIZE);
    var key := DeriveKey(p, passphrase, salt);
    var ct, written;
    ct, written, chunks := DecryptChunks(p, key, nonce, blob);
    var tag := Read(blob, filesize - TAG_SIZE, TAG_SIZE);
    // the missing-tag branch cannot be taken: exactly TAG_SIZE bytes remain
    assert |tag| == TAG_SIZE && tag == TagOf(blob);
    if p.tag(key, nonce, ct) != tag {
      return Failure(AuthenticationFailed), Removed, chunks;
    }
    CtrInvolutive(p, key, nonce, 0, ct);
    return Success(written), Written(written), chunks;
  }
}
