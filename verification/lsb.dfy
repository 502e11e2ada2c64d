/** The LSB codec of logic.py: one payload bit per PCM sample byte ("frame"),
    written into and read from the frame's least significant bit. */
module LsbCodec {
  import opened Bits
  import opened Results

  /** Bit 0 of a frame, `frame & 1`. */
  function Lsb(f: byte): bool {
    f & 1 == 1
  }

  /** `(frame & 0b11111110) | bit`: the frame with its LSB replaced. */
  function SetLsb(f: byte, bit: bool): (g: byte)
    ensures Lsb(g) == bit
    ensures g & 0xFE == f & 0xFE
  {
    (f & 0xFE) | (if bit then 1 else 0)
  }

  /** The LSBs of `count` frames starting at frame `start`. */
  function ReadLsbs(frames: seq<byte>, start: nat, count: nat): (bits: seq<bool>)
    requires start + count <= |frames|
    ensures |bits| == count
    ensures forall i :: 0 <= i < count ==> bits[i] == Lsb(frames[start + i])
  {
    seq(count, i requires 0 <= i < count => Lsb(frames[start + i]))
  }

  /** The frames from `start` on carry the bits of `data`, MSB-first. */
  predicate Carries(frames: seq<byte>, start: nat, data: seq<byte>) {
    start + 8 * |data| <= |frames| && ReadLsbs(frames, start, 8 * |data|) == Expand(data)
  }

  /** Writes `bits` into the LSBs of the first `|bits|` frames. */
  function EmbedBits(cover: seq<byte>, bits: seq<bool>): (stego: seq<byte>)
    requires |bits| <= |cover|
    ensures |stego| == |cover|
    ensures forall i :: 0 <= i < |bits| ==> Lsb(stego[i]) == bits[i]
    ensures forall i :: 0 <= i < |cover| ==> stego[i] & 0xFE == cover[i] & 0xFE
    ensures forall i :: |bits| <= i < |cover| ==> stego[i] == cover[i]
  {
    seq(|cover|, i requires 0 <= i < |cover| => if i < |bits| then SetLsb(cover[i], bits[i]) else cover[i])
  }

  /** Embedding with the capacity check that precedes it: fails, producing no
      frames, exactly when the data needs more bits than there are frames. */
  function Embed(cover: seq<byte>, data: seq<byte>): (r: Result<seq<byte>>)
    ensures r.Failure? <==> |data| * 8 > |cover|
    ensures r.Failure? ==> r.error == CoverTooSmall
    ensures r.Success? ==> |r.value| == |cover|
    ensures r.Success? ==> forall j, k :: 0 <= j < |data| && 0 <= k < 8 ==>
      Lsb(r.value[8 * j + k]) == BitOf(data[j], k)
    ensures r.Success? ==> forall i :: 0 <= i < |cover| ==> r.value[i] & 0xFE == cover[i] & 0xFE
    ensures r.Success? ==> forall i :: |data| * 8 <= i < |cover| ==> r.value[i] == cover[i]
  {
    if |data| * 8 > |cover| then Failure(CoverTooSmall)
    else
      ExpandBits(data);
      Success(EmbedBits(cover, Expand(data)))
  }

  /** The in-place loop over a mutable copy of the frames. */
  method EmbedInPlace(cover: seq<byte>, data: seq<byte>) returns (r: Result<seq<byte>>)
    ensures r == Embed(cover, data)
  {
    if |data| * 8 > |cover| {
      return Failure(CoverTooSmall);
    }
    var bits := Expand(data);
    var frames := new byte[|cover|](i requires 0 <= i < |cover| => cover[i]);
    var i := 0;
    while i < |bits|
      invariant 0 <= i <= |bits|
      invariant forall j :: 0 <= j < i ==> frames[j] == SetLsb(cover[j], bits[j])
      invariant forall j :: i <= j < |cover| ==> frames[j] == cover[j]
    {
      frames[i] := (frames[i] & 0xFE) | (if bits[i] then 1 else 0);
      i := i + 1;
    }
    assert frames[..] == EmbedBits(cover, bits);
    return Success(frames[..]);
  }

  /** Reads `count` bytes from the LSBs of the frames at `start`, failing
      when the frames end first. */
  function ExtractBytes(frames: seq<byte>, start: nat, count: nat): (r: Result<seq<byte>>)
    ensures r.Failure? <==> start + 8 * count > |frames|
    ensures r.Failure? ==> r.error == FileCorrupted
    ensures r.Success? ==> |r.value| == count
    ensures r.Success? ==> forall j, k :: 0 <= j < count && 0 <= k < 8 ==>
      BitOf(r.value[j], k) == Lsb(frames[start + 8 * j + k])
  {
    if start + 8 * count > |frames| then Failure(FileCorrupted)
    else
      PackBits(ReadLsbs(frames, start, 8 * count));
      Success(Pack(ReadLsbs(frames, start, 8 * count)))
  }

  /** Embedding succeeds iff the data fits, and the result carries the data
      from frame 0. */
  lemma EmbedCarries(cover: seq<byte>, data: seq<byte>)
    requires |data| * 8 <= |cover|
    ensures Embed(cover, data).Success?
    ensures Carries(Embed(cover, data).value, 0, data)
  {
    var bits := Expand(data);
    var stego := Embed(cover, data).value;
    assert ReadLsbs(stego, 0, |bits|) == bits;
  }

  /** Frames carrying `a + b` carry `a` at `start` and `b` right after it. */
  lemma CarriesSplit(frames: seq<byte>, start: nat, a: seq<byte>, b: seq<byte>)
    requires Carries(frames, start, a + b)
    ensures Carries(frames, start, a)
    ensures Carries(frames, start + 8 * |a|, b)
  {
    ExpandAppend(a, b);
    var ea, eb := Expand(a), Expand(b);
    var all := ReadLsbs(frames, start, |ea| + |eb|);
    assert all == ea + eb;
    var front, back := ReadLsbs(frames, start, |ea|), ReadLsbs(frames, start + |ea|, |eb|);
    forall i | 0 <= i < |ea|
      ensures front[i] == ea[i]
    {
      assert front[i] == all[i];
    }
    forall i | 0 <= i < |eb|
      ensures back[i] == eb[i]
    {
      assert back[i] == all[|ea| + i];
    }
  }

  /** Embedding two pieces back to back leaves each readable at its offset. */
  lemma EmbedCarriesBoth(cover: seq<byte>, a: seq<byte>, b: seq<byte>)
    requires |a + b| * 8 <= |cover|
    ensures Embed(cover, a + b).Success?
    ensures Carries(Embed(cover, a + b).value, 0, a)
    ensures Carries(Embed(cover, a + b).value, 8 * |a|, b)
  {
    EmbedCarries(cover, a + b);
    CarriesSplit(Embed(cover, a + b).value, 0, a, b);
  }

  /** Extracting from frames that carry `data` returns `data`. */
  lemma ExtractCarried(frames: seq<byte>, start: nat, data: seq<byte>)
    requires Carries(frames, start, data)
    ensures ExtractBytes(frames, start, |data|) == Success(data)
  {
    PackExpand(data);
  }

  /** Extraction looks at nothing but the LSBs of the frames it reads. */
  lemma ExtractReadsOnlyLsbs(f: seq<byte>, g: seq<byte>, start: nat, count: nat)
    requires start + 8 * count <= |f| && start + 8 * count <= |g|
    requires forall i :: start <= i < start + 8 * count ==> Lsb(f[i]) == Lsb(g[i])
    ensures ExtractBytes(f, start, count) == ExtractBytes(g, start, count)
  {
    assert ReadLsbs(f, start, 8 * count) == ReadLsbs(g, start, 8 * count);
  }
}
