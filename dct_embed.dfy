/**
 * Preparation of the cosine-transform path before and after the (unseen)
 * coefficient embedder: padding the image to whole 8x8 blocks, counting the
 * capacity as the nonzero quantized coefficients, cutting the secret to that
 * capacity, packing it into bits, embedding in channel 0 only, and clipping the
 * output samples.
 */
module DctEmbed {
  import opened Bits

  const BLOCK_SIZE: nat := 8
  const NUM_CHANNELS: nat := 3

  /** p is the least multiple of the block size that is at least n. */
  predicate IsBlockPadding(n: nat, p: nat)
  {
    p % BLOCK_SIZE == 0 && n <= p && forall m :: n <= m < p ==> m % BLOCK_SIZE != 0
  }

  /** The least multiple of the block size that is at least n. */
  function RoundUp(n: nat): (r: nat)
    ensures r % BLOCK_SIZE == 0 && n <= r < n + BLOCK_SIZE
  {
    n + (BLOCK_SIZE - n % BLOCK_SIZE) % BLOCK_SIZE
  }

  /** The two `while` loops that grow the dimensions to multiples of eight. */
  method PadDimensions(height: nat, width: nat) returns (padHeight: nat, padWidth: nat)
    ensures IsBlockPadding(height, padHeight)
    ensures IsBlockPadding(width, padWidth)
  {
    padHeight, padWidth := height, width;
    while padHeight % BLOCK_SIZE != 0
      invariant height <= padHeight <= RoundUp(height)
      invariant forall m :: height <= m < padHeight ==> m % BLOCK_SIZE != 0
      decreases RoundUp(height) - padHeight
    {
      padHeight := padHeight + 1;
    }
    while padWidth % BLOCK_SIZE != 0
      invariant width <= padWidth <= RoundUp(width)
      invariant forall m :: width <= m < padWidth ==> m % BLOCK_SIZE != 0
      decreases RoundUp(width) - padWidth
    {
      padWidth := padWidth + 1;
    }
  }

  /** The padding is less than one block, and none at all when n is already a multiple of eight. */
  lemma BlockPaddingBounds(n: nat, p: nat)
    requires IsBlockPadding(n, p)
    ensures p < n + BLOCK_SIZE
    ensures n % BLOCK_SIZE == 0 ==> p == n
  {
    assert RoundUp(n) % BLOCK_SIZE == 0;
  }

  /** `np.array(blocks)` read in row-major order. */
  function Flatten(blocks: seq<seq<int>>): seq<int>
  {
    if blocks == [] then [] else blocks[0] + Flatten(blocks[1..])
  }

  /** Every block has n coefficients. */
  predicate Uniform(blocks: seq<seq<int>>, n: nat)
  {
    forall i :: 0 <= i < |blocks| ==> |blocks[i]| == n
  }

  /** Flattening blocks of n coefficients gives n coefficients per block. */
  lemma {:induction false} FlattenLength(blocks: seq<seq<int>>, n: nat)
    requires Uniform(blocks, n)
    ensures |Flatten(blocks)| == n * |blocks|
  {
    if blocks != [] {
      FlattenLength(blocks[1..], n);
      assert n * |blocks| == n + n * |blocks[1..]|;
    }
  }

  /** Flattening distributes over concatenation of the block lists. */
  lemma {:induction false} FlattenAppend(a: seq<seq<int>>, b: seq<seq<int>>)
    ensures Flatten(a + b) == Flatten(a) + Flatten(b)
  {
    if a != [] {
      assert (a + b)[1..] == a[1..] + b;
      FlattenAppend(a[1..], b);
    } else {
      assert a + b == b;
    }
  }

  /** Row-major order: block i comes after the blocks before it and before the blocks after it. */
  lemma FlattenRowMajor(blocks: seq<seq<int>>, i: nat)
    requires i < |blocks|
    ensures Flatten(blocks) == Flatten(blocks[..i]) + blocks[i] + Flatten(blocks[i + 1..])
  {
    var before, after := blocks[..i], blocks[i..];
    assert blocks == before + after;
    FlattenAppend(before, after);
    assert after[0] == blocks[i] && after[1..] == blocks[i + 1..];
  }

  /** `coefficients[coefficients != 0]`: the nonzero entries, in order. */
  function NonzeroCoefficients(s: seq<int>): (r: seq<int>)
    ensures |r| == |s| - multiset(s)[0]
    ensures forall i :: 0 <= i < |r| ==> r[i] != 0
    ensures forall x :: x != 0 ==> multiset(r)[x] == multiset(s)[x]
  {
    if s == [] then [] else
      var tail := NonzeroCoefficients(s[1..]);
      assert s == [s[0]] + s[1..];
      if s[0] != 0 then [s[0]] + tail else tail
  }

  /** `max_capacity_bits`: one payload bit per nonzero quantized coefficient of the channel. */
  function MaxCapacityBits(blocks: seq<seq<int>>): (r: nat)
    ensures r == |Flatten(blocks)| - multiset(Flatten(blocks))[0]
    ensures r <= |Flatten(blocks)|
  {
    |NonzeroCoefficients(Flatten(blocks))|
  }

  /** A channel of zigzagged 8x8 blocks holds at most 64 payload bits per block. */
  lemma CapacityPerBlock(blocks: seq<seq<int>>)
    requires Uniform(blocks, BLOCK_SIZE * BLOCK_SIZE)
    ensures MaxCapacityBits(blocks) <= BLOCK_SIZE * BLOCK_SIZE * |blocks|
  {
    FlattenLength(blocks, BLOCK_SIZE * BLOCK_SIZE);
  }

  /** `max_capacity_chars`: whole bytes of capacity. */
  function MaxCapacityChars(blocks: seq<seq<int>>): (r: nat)
    ensures 8 * r <= MaxCapacityBits(blocks) < 8 * (r + 1)
  {
    MaxCapacityBits(blocks) / 8
  }

  /**
   * `embedded_message`: the longest prefix of the secret whose bytes fit the
   * capacity, i.e. `secret[:min(len(secret), capacity_bits // 8)]`.
   */
  function EmbeddedMessage(secret: string, capacityBits: nat): (r: string)
    ensures r <= secret
    ensures 8 * |r| <= capacityBits
    ensures r == secret || 8 * (|r| + 1) > capacityBits
  {
    secret[..Min(|secret|, capacityBits / 8)]
  }

  /** `message.encode('ascii')`: the byte string, or None where the codec raises. */
  function AsciiEncode(message: string): (r: Option<seq<Byte>>)
    ensures r.Some? <==> IsAscii(message)
    ensures r.Some? ==>
      && |r.value| == |message|
      && forall i :: 0 <= i < |message| ==> r.value[i] == message[i] as int
  {
    if IsAscii(message) then Some(Codes(message)) else None
  }

  /** The `secret_data += bitstring.pack('uint:8', byte)` loop. */
  method PackSecretData(message: seq<Byte>) returns (secretData: seq<Bit>)
    ensures secretData == Octets(message)
  {
    secretData := [];
    for i := 0 to |message|
      invariant secretData == Octets(message[..i])
    {
      ByteFormat(message[i]);
      OctetsAppend(message[..i], message[i]);
      assert message[..i + 1] == message[..i] + [message[i]];
      secretData := secretData + Format(message[i], 8);
    }
    assert message[..|message|] == message;
  }

  /**
   * What the channel-0 branch produces: the secret cut to the channel's
   * capacity, which must be ASCII, and the embedder's blocks for its packed
   * bytes.
   */
  predicate EmbeddedChannel(blocks: seq<seq<int>>, secret: string,
                            embedder: (seq<Bit>, seq<seq<int>>) -> seq<seq<int>>,
                            out: seq<seq<int>>, message: string)
  {
    && message == EmbeddedMessage(secret, MaxCapacityBits(blocks))
    && IsAscii(message)
    && out == embedder(Octets(Codes(message)), blocks)
  }

  /**
   * The channel-0 branch: cut the secret to the channel's capacity, encode it
   * as ASCII, pack it into bits and hand the bits to the embedder (a parameter
   * standing for `embed_encoded_data_into_DCT`, which is not part of this
   * model). Returns the embedded blocks and the embedded message, or None
   * where the ASCII encoding raises.
   */
  method EmbedSecret(blocks: seq<seq<int>>, secret: string,
                     embedder: (seq<Bit>, seq<seq<int>>) -> seq<seq<int>>)
    returns (r: Option<(seq<seq<int>>, string)>)
    ensures r.None? <==> !IsAscii(EmbeddedMessage(secret, MaxCapacityBits(blocks)))
    ensures r.Some? ==> EmbeddedChannel(blocks, secret, embedder, r.value.0, r.value.1)
  {
    var maxCapacityChars := MaxCapacityBits(blocks) / 8;
    var embeddedMessage := secret[..Min(|secret|, maxCapacityChars)];
    var encoded := AsciiEncode(embeddedMessage);
    if encoded.None? {
      return None;
    }
    var secretData := PackSecretData(encoded.value);
    return Some((embedder(secretData, blocks), embeddedMessage));
  }

  /**
   * The per-channel loop of one image: only channel 0 goes through the
   * embedder; the blocks of channels 1 and 2 go on unchanged. Returns the
   * blocks handed to the inverse zigzag and the embedded message, or None
   * where the ASCII encoding raises.
   */
  method EmbedChannels(channels: seq<seq<seq<int>>>, secret: string,
                       embedder: (seq<Bit>, seq<seq<int>>) -> seq<seq<int>>)
    returns (r: Option<(seq<seq<seq<int>>>, string)>)
    requires |channels| == NUM_CHANNELS
    ensures r.None? <==> !IsAscii(EmbeddedMessage(secret, MaxCapacityBits(channels[0])))
    ensures r.Some? ==>
      && |r.value.0| == NUM_CHANNELS
      && EmbeddedChannel(channels[0], secret, embedder, r.value.0[0], r.value.1)
      && r.value.0[1] == channels[1] && r.value.0[2] == channels[2]
  {
    var desorted: seq<seq<seq<int>>> := [];
    var embeddedBlocks: seq<seq<int>> := [];
    var embeddedMessage := "";
    for chanIndex := 0 to NUM_CHANNELS
      invariant chanIndex == 0 ==> desorted == []
      invariant chanIndex > 0 ==>
        && EmbeddedChannel(channels[0], secret, embedder, embeddedBlocks, embeddedMessage)
        && desorted == [embeddedBlocks] + channels[1..chanIndex]
    {
      if chanIndex == 0 {
        var embedded := EmbedSecret(channels[0], secret, embedder);
        if embedded.None? {
          return None;
        }
        embeddedBlocks, embeddedMessage := embedded.value.0, embedded.value.1;
        desorted := [embeddedBlocks];
      } else {
        assert channels[1..chanIndex + 1] == channels[1..chanIndex] + [channels[chanIndex]];
        desorted := desorted + [channels[chanIndex]];
      }
    }
    return Some((desorted, embeddedMessage));
  }

  /** `np.clip(x, 0, 255)` on an integer sample. */
  function Clip(x: int): (r: Byte)
    ensures 0 <= x <= 255 ==> r == x
    ensures x < 0 ==> r == 0
    ensures x > 255 ==> r == 255
  {
    if x < 0 then 0 else if x > 255 then 255 else x
  }

  /** The final clip of the stego samples: every sample in range, in-range samples unchanged. */
  function ClipSamples(samples: seq<int>): (r: seq<Byte>)
    ensures |r| == |samples|
    ensures forall i :: 0 <= i < |samples| && 0 <= samples[i] <= 255 ==> r[i] == samples[i]
    ensures forall i :: 0 <= i < |samples| && samples[i] < 0 ==> r[i] == 0
    ensures forall i :: 0 <= i < |samples| && samples[i] > 255 ==> r[i] == 255
  {
    seq(|samples|, i requires 0 <= i < |samples| => Clip(samples[i]))
  }

  /** Clipping keeps the order of samples and clipping twice is clipping once. */
  lemma ClipMonotoneIdempotent(x: int, y: int)
    ensures x <= y ==> Clip(x) <= Clip(y)
    ensures Clip(Clip(x)) == Clip(x)
  {
  }
}
