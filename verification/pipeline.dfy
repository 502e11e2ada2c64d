/** `hide_data` and `extract_data` of logic.py without their file plumbing:
    the cover and stego audio are the in-memory PCM frame bytes, zlib is an
    opaque pair of functions, and the salt and nonce that encryption draws
    from the random source are parameters. */
module Pipeline {
  import opened Bits
  import opened Results
  import opened LsbCodec
  import opened HeaderCodec
  import opened CipherEngine
  import Utf8

  /** `zlib.compress(data, level=9)` and `zlib.decompress`, which may reject
      its input. */
  datatype Zlib = Zlib(compress: seq<byte> -> seq<byte>, decompress: seq<byte> -> Option<seq<byte>>)

  /** The randomness and algorithms one call relies on. */
  datatype Environment = Environment(zlib: Zlib, crypto: Primitives, salt: Salt, nonce: Nonce)

  /** The flag byte built up by `flags |= 1` and `flags |= 2`. */
  function Flags(compress: bool, useEncryption: bool): (flags: byte)
    ensures (flags & FLAG_COMPRESSED == FLAG_COMPRESSED) == compress
    ensures (flags & FLAG_ENCRYPTED == FLAG_ENCRYPTED) == useEncryption
    ensures flags & 0xFC == 0
  {
    (if compress then FLAG_COMPRESSED else 0) | (if useEncryption then FLAG_ENCRYPTED else 0)
  }

  /** The bytes that follow the header: the secret, compressed if asked,
      then encrypted if asked. */
  function Payload(env: Environment, secret: seq<byte>, passphrase: seq<byte>, compress: bool, useEncryption: bool): (p: seq<byte>)
    ensures !compress && !useEncryption ==> p == secret
    ensures useEncryption ==> |p| >= MIN_BLOB_LEN && p[..|MAGIC|] == MAGIC
    ensures !compress && useEncryption ==> |p| == |secret| + MIN_BLOB_LEN
  {
    var packed := if compress then env.zlib.compress(secret) else secret;
    if useEncryption then Encrypt(env.crypto, packed, passphrase, env.salt, env.nonce) else packed
  }

  /** `hide_data`: the stego frames, or the first error it raises. */
  function Hide(env: Environment, cover: seq<byte>, secret: seq<byte>, name: seq<byte>, passphrase: seq<byte>,
                compress: bool, useEncryption: bool): (r: Result<seq<byte>>)
    ensures r.Failure? ==> r.error in {FilenameTooLong, FieldOverflow, CoverTooSmall}
    ensures var payload := Payload(env, secret, passphrase, compress, useEncryption);
      var header := CreateHeader(name, |secret|, |payload|, ByteValue(Flags(compress, useEncryption)));
      r.Success? <==> header.Success? && (HEADER_SIZE + |payload|) * 8 <= |cover|
    ensures var payload := Payload(env, secret, passphrase, compress, useEncryption);
      var header := CreateHeader(name, |secret|, |payload|, ByteValue(Flags(compress, useEncryption)));
      header.Failure? ==> r == Failure(header.error)
    ensures var payload := Payload(env, secret, passphrase, compress, useEncryption);
      r == Failure(CoverTooSmall) <==>
        && CreateHeader(name, |secret|, |payload|, ByteValue(Flags(compress, useEncryption))).Success?
        && (HEADER_SIZE + |payload|) * 8 > |cover|
    ensures r.Success? ==> var payload := Payload(env, secret, passphrase, compress, useEncryption);
      && |r.value| == |cover|
      && (forall i :: 0 <= i < |cover| ==> r.value[i] & 0xFE == cover[i] & 0xFE)
      && (forall i :: (HEADER_SIZE + |payload|) * 8 <= i < |cover| ==> r.value[i] == cover[i])
  {
    var originalSize := |secret|;
    var flags := Flags(compress, useEncryption);
    var payload := Payload(env, secret, passphrase, compress, useEncryption);
    var header := CreateHeader(name, originalSize, |payload|, ByteValue(flags));
    if header.Failure? then Failure(header.error)
    else Embed(cover, header.value + payload)
  }

  /** The frames `Hide` produces carry the header from frame 0 and the
      payload right after the header's 2112 frames. */
  lemma HideCarries(env: Environment, cover: seq<byte>, secret: seq<byte>, name: seq<byte>, passphrase: seq<byte>,
                    compress: bool, useEncryption: bool)
    requires Hide(env, cover, secret, name, passphrase, compress, useEncryption).Success?
    ensures var stego := Hide(env, cover, secret, name, passphrase, compress, useEncryption).value;
      var payload := Payload(env, secret, passphrase, compress, useEncryption);
      var header := CreateHeader(name, |secret|, |payload|, ByteValue(Flags(compress, useEncryption)));
      && header.Success?
      && Carries(stego, 0, header.value)
      && Carries(stego, HEADER_BITS, payload)
  {
    var payload := Payload(env, secret, passphrase, compress, useEncryption);
    var header := CreateHeader(name, |secret|, |payload|, ByteValue(Flags(compress, useEncryption))).value;
    var stego := Hide(env, cover, secret, name, passphrase, compress, useEncryption).value;
    assert stego == Embed(cover, header + payload).value;
    EmbedCarriesBoth(cover, header, payload);
  }

  /** `zlib.decompress` with its failure as an error value. */
  function Decompress(z: Zlib, data: seq<byte>): (r: Result<seq<byte>>)
    ensures r.Failure? <==> z.decompress(data).None?
    ensures r.Success? ==> z.decompress(data) == Some(r.value)
  {
    match z.decompress(data)
    case Some(d) => Success(d)
    case None => Failure(DecompressFailed)
  }

  /** `data[:n]`: the first `n` bytes, or all of them when there are fewer. */
  function Truncate(data: seq<byte>, n: nat): (t: seq<byte>)
    ensures |t| == if |data| < n then |data| else n
    ensures t == data[..|t|]
  {
    if |data| <= n then data else data[..n]
  }

  /** The payload undone as the header's flags say: decrypted if encrypted,
      then decompressed if compressed. */
  function Unpack(env: Environment, h: Header, payload: seq<byte>, passphrase: seq<byte>): (r: Result<seq<byte>>)
    ensures r.Failure? ==> r.error in {BlobTooSmall, BadMagic, AuthenticationFailed, DecompressFailed}
    ensures r.Failure? && r.error == DecompressFailed ==> h.compressed
    ensures r.Failure? && r.error != DecompressFailed ==> h.encrypted
    ensures !h.encrypted && !h.compressed ==> r == Success(payload)
    ensures h.encrypted && Decrypt(env.crypto, payload, passphrase).Failure? ==>
      r == Failure(Decrypt(env.crypto, payload, passphrase).error)
    ensures h.encrypted && Decrypt(env.crypto, payload, passphrase).Success? ==>
      var plain := Decrypt(env.crypto, payload, passphrase).value;
      r == if h.compressed then Decompress(env.zlib, plain) else Success(plain)
    ensures h.compressed && !h.encrypted ==> r == Decompress(env.zlib, payload)
  {
    var plain :- if h.encrypted then Decrypt(env.crypto, payload, passphrase) else Success(payload);
    if h.compressed then Decompress(env.zlib, plain) else Success(plain)
  }

  /** Unpacking what `Payload` packed under the same switches returns the
      secret, provided zlib inverts its own compression of it. */
  lemma UnpackPayload(env: Environment, secret: seq<byte>, passphrase: seq<byte>, h: Header)
    requires h.compressed ==> env.zlib.decompress(env.zlib.compress(secret)) == Some(secret)
    ensures Unpack(env, h, Payload(env, secret, passphrase, h.compressed, h.encrypted), passphrase) == Success(secret)
  {
    var packed := if h.compressed then env.zlib.compress(secret) else secret;
    if h.encrypted {
      DecryptEncrypt(env.crypto, packed, passphrase, env.salt, env.nonce);
    }
  }

  /** `extract_data`: the secret and its filename, or the first error. */
  function Extract(env: Environment, stego: seq<byte>, passphrase: seq<byte>): (r: Result<(seq<byte>, seq<byte>)>)
    ensures ParseHeader(stego).Failure? ==> r == Failure(ParseHeader(stego).error)
    ensures ParseHeader(stego).Success? && HEADER_BITS + 8 * ParseHeader(stego).value.payloadSize > |stego|
      ==> r == Failure(FileCorrupted)
    ensures r.Success? ==> ParseHeader(stego).Success?
    ensures r.Success? ==> |r.value.0| <= ParseHeader(stego).value.originalSize
    ensures r.Success? ==> r.value.1 == ParseHeader(stego).value.filename
    ensures ParseHeader(stego).Success? && HEADER_BITS + 8 * ParseHeader(stego).value.payloadSize <= |stego| ==>
      var h := ParseHeader(stego).value;
      var u := Unpack(env, h, ExtractBytes(stego, HEADER_BITS, h.payloadSize).value, passphrase);
      && (u.Failure? ==> r == Failure(u.error))
      && (u.Success? ==> r == Success((Truncate(u.value, h.originalSize), h.filename)))
  {
    var h :- ParseHeader(stego);
    var payload :- ExtractBytes(stego, HEADER_BITS, h.payloadSize);
    var data :- Unpack(env, h, payload, passphrase);
    Success((Truncate(data, h.originalSize), h.filename))
  }

  /** Extracting from what `Hide` produced returns the secret and its name,
      for every combination of the compress and encrypt switches. The name
      must be valid UTF-8 (it is the encoding of a string) without a trailing
      NUL, and zlib must invert its own compression of the secret. */
  lemma HideExtractRoundTrip(env: Environment, cover: seq<byte>, secret: seq<byte>, name: seq<byte>,
                             passphrase: seq<byte>, compress: bool, useEncryption: bool)
    requires Hide(env, cover, secret, name, passphrase, compress, useEncryption).Success?
    requires Utf8.WellFormed(name) && NoTrailingNul(name)
    requires compress ==> env.zlib.decompress(env.zlib.compress(secret)) == Some(secret)
    ensures Extract(env, Hide(env, cover, secret, name, passphrase, compress, useEncryption).value, passphrase)
         == Success((secret, name))
  {
    var stego := Hide(env, cover, secret, name, passphrase, compress, useEncryption).value;
    var flags := Flags(compress, useEncryption);
    var payload := Payload(env, secret, passphrase, compress, useEncryption);
    HideCarries(env, cover, secret, name, passphrase, compress, useEncryption);
    ParseCarriedHeader(stego, name, |secret|, |payload|, ByteValue(flags));
    ByteOfValue(flags);
    var h := Header(name, |secret|, |payload|, compress, useEncryption);
    assert ParseHeader(stego) == Success(h);
    ExtractCarried(stego, HEADER_BITS, payload);
    UnpackPayload(env, secret, passphrase, h);
  }

  /** Without compression or encryption, hiding succeeds exactly when header
      and secret need no more bits than the cover has frames (so a secret that
      fills the cover exactly fits), and fails for lack of room otherwise. */
  lemma CapacityBoundary(env: Environment, cover: seq<byte>, secret: seq<byte>, name: seq<byte>)
    requires |name| <= NAME_FIELD_SIZE && |secret| < UINT32_LIMIT
    ensures Hide(env, cover, secret, name, [], false, false).Success? <==> (HEADER_SIZE + |secret|) * 8 <= |cover|
    ensures Hide(env, cover, secret, name, [], false, false).Failure? ==>
      Hide(env, cover, secret, name, [], false, false).error == CoverTooSmall
  {
    assert Payload(env, secret, [], false, false) == secret;
  }

  /** Ten thousand frames hold a header and a five-byte payload: 2152 bits. */
  lemma TenThousandFramesHoldFiveBytes(env: Environment, cover: seq<byte>, secret: seq<byte>, name: seq<byte>)
    requires |cover| == 10_000 && |secret| == 5 && |name| <= NAME_FIELD_SIZE
    ensures Hide(env, cover, secret, name, [], false, false).Success?
  {
    CapacityBoundary(env, cover, secret, name);
    assert Payload(env, secret, [], false, false) == secret;
  }
}
