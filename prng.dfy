/**
 * The OpenSSL uniform pseudorandom generator: AES-256 in counter mode
 * (section 6.5 and Appendix B.1 of NIST SP 800-38A) used as a keystream.
 * Every call hands out the next bytes of one fixed stream; the part of a
 * keystream block a call leaves unused is kept for the next call.
 */
module UniformPseudorandomGenerator {
  import opened Wrappers
  import opened Bytes
  import opened Decimal

  const BytesPerAes256Key: nat := 32
  const BytesPerAes256Iv: nat := 16
  const BlockSize: nat := 16

  type Block = s: seq<byte> | |s| == 16
    witness [0, 0, 0, 0, 0, 0, 0, 0, 0, 0, 0, 0, 0, 0, 0, 0]

  /** The AES-256 forward cipher E(key, input block), supplied by OpenSSL. */
  type BlockCipher = (seq<byte>, Block) -> Block

  /** Text of a key length error before its first count. */
  const KeyLead: string := "The uniform pseudorandom generator key has length of "
  /** Text of an IV length error before its first count. */
  const IvLead: string := "The uniform pseudorandom generator IV has length of "
  /** Text of the error for a request of no bytes or a negative number of bytes. */
  const NonPositiveText: string := "Number of pseudorandom bytes must be a positive value."
  /** Text between the two counts of a length error. */
  const Between: string := " bytes but "
  /** Text after the second count of a length error. */
  const Trailer: string := " bytes are required."

  /** The failures the generator reports; each carries absl's InvalidArgument code. */
  datatype InvalidArgument =
    | KeyLength(actual: nat, required: nat)
    | IvLength(actual: nat, required: nat)
    | NonPositiveCount
  {
    /** The text of a length error before its first count. */
    function Lead(): string
      requires KeyLength? || IvLength?
    {
      if KeyLength? then KeyLead else IvLead
    }

    /**
     * The absl message text: a length error opens with the text naming the
     * key or the IV and closes with the trailer, its two counts in between.
     */
    function Message(): (text: string)
      ensures NonPositiveCount? ==> text == NonPositiveText
      ensures !NonPositiveCount? ==>
                && |Lead()| + |Trailer| < |text|
                && text[..|Lead()|] == Lead()
                && text[|text| - |Trailer|..] == Trailer
    {
      if NonPositiveCount? then NonPositiveText
      else
        var first, second := NatToString(actual), NatToString(required);
        Framed(Lead(), first, Between, second, Trailer);
        Lead() + (first + (Between + (second + Trailer)))
    }
  }

  /** Text made of a lead, two non-empty counts around a separator, and a trailer starts with the lead and ends with the trailer. */
  lemma Framed(lead: string, first: string, separator: string, second: string, trailer: string)
    requires |first| >= 1
    ensures var text := lead + (first + (separator + (second + trailer)));
            && |lead| + |trailer| < |text|
            && text[..|lead|] == lead
            && text[|text| - |trailer|..] == trailer
  {
    var text := lead + (first + (separator + (second + trailer)));
    assert text == (lead + first + separator + second) + trailer;
  }

  /**
   * A length error's message reports both counts: the numeral right after
   * the lead text is the actual length, and the numeral after the text that
   * follows it is the required length.
   */
  lemma MessageReportsLengths(e: InvalidArgument)
    requires e.KeyLength? || e.IvLength?
    ensures var (actual, next) := ReadNumeral(e.Message(), |e.Lead()|);
            && actual == e.actual
            && next + |Between| <= |e.Message()|
            && ReadNumeral(e.Message(), next + |Between|).0 == e.required
  {
    assert Between[0] == ' ' && Trailer[0] == ' ';
    ReadsTwoRenderedNumerals(e.Lead(), e.actual, Between, e.required, Trailer);
  }

  /** The cipher, key and initial counter block that fix a keystream. */
  datatype CtrParams = CtrParams(cipher: BlockCipher, key: seq<byte>, iv: Block)

  /** Counter block T_i: the IV incremented i times. */
  function CounterBlock(iv: Block, i: nat): Block
  {
    Advance(iv, i)
  }

  /** T_i is iv + i modulo 2^128, the counter blocks of Appendix B.1 of NIST SP 800-38A. */
  lemma CounterBlockIsIvPlusIndex(iv: Block, i: nat)
    ensures BigEndian(CounterBlock(iv, i)) == (BigEndian(iv) + i) % Pow256(BlockSize)
  {
    AdvanceAdds(iv, i);
  }

  /** Output block O_i = E(key, T_i). */
  function KeystreamBlock(p: CtrParams, i: nat): Block
  {
    p.cipher(p.key, CounterBlock(p.iv, i))
  }

  /** Byte k of the keystream: byte k mod 16 of output block k div 16. */
  function KeystreamByte(p: CtrParams, k: nat): byte
  {
    KeystreamBlock(p, k / BlockSize)[k % BlockSize]
  }

  /** The `n` keystream bytes that start at offset `start`. */
  function Keystream(p: CtrParams, start: nat, n: nat): seq<byte>
  {
    seq(n, k requires 0 <= k < n => KeystreamByte(p, start + k))
  }

  /** Chunk invariance: reading a + b bytes is reading a bytes, then the next b. */
  lemma KeystreamSplit(p: CtrParams, start: nat, a: nat, b: nat)
    ensures Keystream(p, start, a + b) == Keystream(p, start, a) + Keystream(p, start + a, b)
  {
    var whole, left, right := Keystream(p, start, a + b), Keystream(p, start, a), Keystream(p, start + a, b);
    forall k | 0 <= k < a + b
      ensures whole[k] == (left + right)[k]
    {
      if k >= a {
        assert right[k - a] == KeystreamByte(p, start + a + (k - a));
      }
    }
  }

  /** What follows a keystream prefix within the keystream is the keystream from there on. */
  lemma KeystreamSuffix(p: CtrParams, prefix: seq<byte>, rest: seq<byte>)
    requires prefix + rest == Keystream(p, 0, |prefix| + |rest|)
    ensures rest == Keystream(p, |prefix|, |rest|)
  {
    KeystreamSplit(p, 0, |prefix|, |rest|);
    assert rest == (prefix + rest)[|prefix|..];
  }

  /** Keystream byte 16·block + used is byte `used` of output block `block`. */
  lemma KeystreamExtends(p: CtrParams, m: nat, block: nat, used: nat)
    requires m == BlockSize * block + used && used < BlockSize
    ensures Keystream(p, 0, m + 1) == Keystream(p, 0, m) + [KeystreamBlock(p, block)[used]]
  {
    DivModUnique(m, BlockSize, block, used);
    KeystreamSplit(p, 0, m, 1);
  }

  /** The first 16·k keystream bytes, block by block. */
  function OutputBlocks(p: CtrParams, k: nat): seq<byte>
  {
    if k == 0 then [] else OutputBlocks(p, k - 1) + KeystreamBlock(p, k - 1)
  }

  /** A block-aligned read of 16 bytes is one whole output block. */
  lemma KeystreamAlignedBlock(p: CtrParams, i: nat)
    ensures Keystream(p, BlockSize * i, BlockSize) == KeystreamBlock(p, i)
  {
    forall k | 0 <= k < BlockSize
      ensures Keystream(p, BlockSize * i, BlockSize)[k] == KeystreamBlock(p, i)[k]
    {
      DivModUnique(BlockSize * i + k, BlockSize, i, k);
      assert Keystream(p, BlockSize * i, BlockSize)[k] == KeystreamByte(p, BlockSize * i + k);
    }
  }

  /** The keystream is the concatenation of the output blocks O_0, O_1, ... */
  lemma {:induction false} KeystreamIsOutputBlocks(p: CtrParams, k: nat)
    ensures Keystream(p, 0, BlockSize * k) == OutputBlocks(p, k)
  {
    if k > 0 {
      KeystreamIsOutputBlocks(p, k - 1);
      KeystreamSplit(p, 0, BlockSize * (k - 1), BlockSize);
      KeystreamAlignedBlock(p, k - 1);
    }
  }

  /** The generator: a keystream position kept as a counter block, a leftover block and a count of used bytes. */
  class Generator {
    const key: seq<byte>
    const iv: Block
    const cipher: BlockCipher
    /** The counter block the next refill encrypts. */
    var counter: Block
    /** The output block being handed out. */
    const buffer: array<byte>
    /** Bytes of `buffer` already handed out; BlockSize means a refill is due. */
    var used: nat
    /** Output blocks computed so far. */
    ghost var blocks: nat
    /** Every byte handed out so far, in order. */
    ghost var emitted: seq<byte>

    ghost function Params(): CtrParams
      reads this
    {
      CtrParams(cipher, key, iv)
    }

    ghost predicate Valid()
      reads this, buffer
    {
      && |key| == BytesPerAes256Key
      && buffer.Length == BlockSize
      && used <= BlockSize
      && counter == CounterBlock(iv, blocks)
      && (blocks == 0 ==> used == BlockSize)
      && (blocks > 0 ==> buffer[..] == KeystreamBlock(Params(), blocks - 1))
      && |emitted| + BlockSize == BlockSize * blocks + used
      && emitted == Keystream(Params(), 0, |emitted|)
    }

    constructor (key: seq<byte>, iv: Block, cipher: BlockCipher)
      requires |key| == BytesPerAes256Key
      ensures Valid() && fresh(buffer)
      ensures this.key == key && this.iv == iv && this.cipher == cipher
      ensures emitted == []
    {
      this.key, this.iv, this.cipher := key, iv, cipher;
      counter := iv;
      buffer := new byte[BlockSize];
      used := BlockSize;
      blocks := 0;
      emitted := [];
    }

    /** Encrypts the counter block into the buffer and advances the counter. */
    method Refill()
      requires Valid() && used == BlockSize
      modifies this, buffer
      ensures Valid() && used == 0
      ensures emitted == old(emitted) && blocks == old(blocks) + 1
    {
      var block := cipher(key, counter);
      forall k | 0 <= k < BlockSize {
        buffer[k] := block[k];
      }
      counter := Increment(counter);
      blocks := blocks + 1;
      used := 0;
    }

    /** Hands out the next keystream byte, refilling the buffer first when it is used up. */
    method NextByte() returns (b: byte)
      requires Valid()
      modifies this, buffer
      ensures Valid()
      ensures emitted == old(emitted) + [b]
    {
      if used == BlockSize {
        Refill();
      }
      b := buffer[used];
      assert emitted + [b] == Keystream(Params(), 0, |emitted| + 1) by {
        KeystreamExtends(Params(), |emitted|, blocks - 1, used);
      }
      emitted := emitted + [b];
      used := used + 1;
    }

    /**
     * Hands out the next `n` keystream bytes; a request for no bytes or a
     * negative number of bytes fails and leaves the position where it was.
     */
    method GetPseudorandomBytes(n: int) returns (r: Result<seq<byte>, InvalidArgument>)
      requires Valid()
      modifies this, buffer
      ensures Valid()
      ensures n <= 0 ==> r == Failure(NonPositiveCount) && emitted == old(emitted)
      ensures n > 0 ==> r == Success(Keystream(Params(), |old(emitted)|, n))
      ensures r.Success? ==> emitted == old(emitted) + r.value
    {
      if n <= 0 {
        return Failure(NonPositiveCount);
      }
      var out: seq<byte> := [];
      while |out| < n
        invariant |out| <= n
        invariant Valid()
        invariant emitted == old(emitted) + out
      {
        var b := NextByte();
        out := out + [b];
      }
      KeystreamSuffix(Params(), old(emitted), out);
      r := Success(out);
    }
  }

  /**
   * Builds a generator, refusing a key that is not an AES-256 key and an IV
   * that is not one block; the key is checked first.
   */
  method Create(key: seq<byte>, iv: seq<byte>, cipher: BlockCipher)
    returns (r: Result<Generator, InvalidArgument>)
    ensures |key| != BytesPerAes256Key ==> r == Failure(KeyLength(|key|, BytesPerAes256Key))
    ensures |key| == BytesPerAes256Key && |iv| != BytesPerAes256Iv ==>
              r == Failure(IvLength(|iv|, BytesPerAes256Iv))
    ensures r.Success? <==> |key| == BytesPerAes256Key && |iv| == BytesPerAes256Iv
    ensures r.Success? ==> && fresh(r.value) && fresh(r.value.buffer) && r.value.Valid()
                           && r.value.Params() == CtrParams(cipher, key, iv)
                           && r.value.emitted == []
  {
    if |key| != BytesPerAes256Key {
      return Failure(KeyLength(|key|, BytesPerAes256Key));
    }
    if |iv| != BytesPerAes256Iv {
      return Failure(IvLength(|iv|, BytesPerAes256Iv));
    }
    var g := new Generator(key, iv, cipher);
    r := Success(g);
  }

  /** Bytes served by a sequence of requests; a non-positive request serves none. */
  function Served(ns: seq<int>): nat
  {
    if ns == [] then 0
    else Served(ns[..|ns| - 1]) + (if ns[|ns| - 1] > 0 then ns[|ns| - 1] else 0)
  }

  /** The answers a generator that has handed out `start` bytes gives to the requests `ns`, in order. */
  function Responses(p: CtrParams, start: nat, ns: seq<int>): seq<Result<seq<byte>, InvalidArgument>>
  {
    if ns == [] then []
    else
      var before, n := ns[..|ns| - 1], ns[|ns| - 1];
      Responses(p, start, before)
      + [if n <= 0 then Failure(NonPositiveCount) else Success(Keystream(p, start + Served(before), n))]
  }

  /** The bytes of the successful answers, concatenated. */
  function Joined(rs: seq<Result<seq<byte>, InvalidArgument>>): seq<byte>
  {
    if rs == [] then []
    else Joined(rs[..|rs| - 1]) + (if rs[|rs| - 1].Success? then rs[|rs| - 1].value else [])
  }

  /** However the requests are chunked, their answers spell out the keystream without gaps or repeats. */
  lemma {:induction false} ResponsesAreOneStream(p: CtrParams, start: nat, ns: seq<int>)
    ensures |Responses(p, start, ns)| == |ns|
    ensures Joined(Responses(p, start, ns)) == Keystream(p, start, Served(ns))
  {
    if ns != [] {
      var before, n := ns[..|ns| - 1], ns[|ns| - 1];
      var rs := Responses(p, start, ns);
      ResponsesAreOneStream(p, start, before);
      assert rs[..|rs| - 1] == Responses(p, start, before);
      if n > 0 {
        KeystreamSplit(p, start, Served(before), n);
      }
    }
  }

  /**
   * Request i is answered on its own: a non-positive count fails, and a
   * positive one gets exactly that many keystream bytes, read after the
   * bytes served to the requests before it.
   */
  lemma {:induction false} ResponseAt(p: CtrParams, start: nat, ns: seq<int>, i: nat)
    requires i < |ns|
    ensures |Responses(p, start, ns)| == |ns|
    ensures Responses(p, start, ns)[i]
         == if ns[i] <= 0 then Failure(NonPositiveCount) else Success(Keystream(p, start + Served(ns[..i]), ns[i]))
  {
    var m := |ns| - 1;
    ResponsesAreOneStream(p, start, ns);
    if i < m {
      ResponseAt(p, start, ns[..m], i);
      assert ns[..m][..i] == ns[..i];
    }
  }

  /** Issues the requests `ns` to `g` one after another. */
  method Replay(g: Generator, ns: seq<int>) returns (rs: seq<Result<seq<byte>, InvalidArgument>>)
    requires g.Valid()
    modifies g, g.buffer
    ensures g.Valid() && g.Params() == old(g.Params())
    ensures rs == Responses(g.Params(), |old(g.emitted)|, ns)
    ensures |g.emitted| == |old(g.emitted)| + Served(ns)
  {
    rs := [];
    var i := 0;
    while i < |ns|
      invariant 0 <= i <= |ns|
      invariant g.Valid() && g.Params() == old(g.Params())
      invariant rs == Responses(g.Params(), |old(g.emitted)|, ns[..i])
      invariant |g.emitted| == |old(g.emitted)| + Served(ns[..i])
    {
      var r := g.GetPseudorandomBytes(ns[i]);
      assert ns[..i + 1][..i] == ns[..i];
      rs := rs + [r];
      i := i + 1;
    }
    assert ns[..i] == ns;
  }

  /**
   * Two generators built from the same key and IV give the same answers to
   * the same requests, and those answers read the keystream from its start.
   */
  method SameKeyAndIvSameResponses(key: seq<byte>, iv: seq<byte>, cipher: BlockCipher, ns: seq<int>)
    returns (rs1: seq<Result<seq<byte>, InvalidArgument>>, rs2: seq<Result<seq<byte>, InvalidArgument>>)
    requires |key| == BytesPerAes256Key && |iv| == BytesPerAes256Iv
    ensures rs1 == rs2
    ensures |rs1| == |ns|
    ensures forall i :: 0 <= i < |ns| && ns[i] > 0 ==> rs1[i].Success? && |rs1[i].value| == ns[i]
    ensures forall i :: 0 <= i < |ns| && ns[i] <= 0 ==> rs1[i] == Failure(NonPositiveCount)
    ensures Joined(rs1) == Keystream(CtrParams(cipher, key, iv), 0, Served(ns))
  {
    var r1 := Create(key, iv, cipher);
    var r2 := Create(key, iv, cipher);
    var g1, g2 := r1.value, r2.value;
    rs1 := Replay(g1, ns);
    rs2 := Replay(g2, ns);
    ResponsesAreOneStream(CtrParams(cipher, key, iv), 0, ns);
    forall i | 0 <= i < |ns|
      ensures ns[i] > 0 ==> rs1[i].Success? && |rs1[i].value| == ns[i]
      ensures ns[i] <= 0 ==> rs1[i] == Failure(NonPositiveCount)
    {
      ResponseAt(CtrParams(cipher, key, iv), 0, ns, i);
    }
  }

  /** A fresh generator asked for `a` then `b` bytes hands out the first a + b keystream bytes. */
  method TwoRequests(g: Generator, a: int, b: int) returns (first: seq<byte>, second: seq<byte>)
    requires g.Valid() && g.emitted == []
    requires a > 0 && b > 0
    modifies g, g.buffer
    ensures |first| == a && |second| == b
    ensures first + second == Keystream(g.Params(), 0, a + b)
  {
    ghost var p := g.Params();
    var r1 := g.GetPseudorandomBytes(a);
    first := r1.value;
    var r2 := g.GetPseudorandomBytes(b);
    second := r2.value;
    assert first + second == Keystream(p, 0, a + b) by {
      KeystreamSplit(p, 0, a, b);
    }
  }

  /**
   * One generator asked for `a` then `b` bytes and another asked for `b` then
   * `a` bytes hand out the same a + b bytes in total.
   */
  method InterleavedRequests(key: seq<byte>, iv: seq<byte>, cipher: BlockCipher, a: int, b: int)
    returns (s10: seq<byte>, s11: seq<byte>, s20: seq<byte>, s21: seq<byte>)
    requires |key| == BytesPerAes256Key && |iv| == BytesPerAes256Iv
    requires a > 0 && b > 0
    ensures |s10| == a && |s11| == b && |s20| == b && |s21| == a
    ensures s10 + s11 == s20 + s21
    ensures s10 + s11 == Keystream(CtrParams(cipher, key, iv), 0, a + b)
  {
    var r1 := Create(key, iv, cipher);
    var r2 := Create(key, iv, cipher);
    s10, s11 := TwoRequests(r1.value, a, b);
    s20, s21 := TwoRequests(r2.value, b, a);
    assert a + b == b + a;
  }

  // The CTR-AES256 example of section F.5.5 of NIST SP 800-38A.

  const NistKey: seq<byte> := [
    0x60, 0x3d, 0xeb, 0x10, 0x15, 0xca, 0x71, 0xbe, 0x2b, 0x73, 0xae, 0xf0, 0x85, 0x7d, 0x77, 0x81,
    0x1f, 0x35, 0x2c, 0x07, 0x3b, 0x61, 0x08, 0xd7, 0x2d, 0x98, 0x10, 0xa3, 0x09, 0x14, 0xdf, 0xf4]
  const NistInput1: Block := [
    0xf0, 0xf1, 0xf2, 0xf3, 0xf4, 0xf5, 0xf6, 0xf7, 0xf8, 0xf9, 0xfa, 0xfb, 0xfc, 0xfd, 0xfe, 0xff]
  const NistInput2: Block := [
    0xf0, 0xf1, 0xf2, 0xf3, 0xf4, 0xf5, 0xf6, 0xf7, 0xf8, 0xf9, 0xfa, 0xfb, 0xfc, 0xfd, 0xff, 0x00]
  const NistInput3: Block := [
    0xf0, 0xf1, 0xf2, 0xf3, 0xf4, 0xf5, 0xf6, 0xf7, 0xf8, 0xf9, 0xfa, 0xfb, 0xfc, 0xfd, 0xff, 0x01]
  const NistInput4: Block := [
    0xf0, 0xf1, 0xf2, 0xf3, 0xf4, 0xf5, 0xf6, 0xf7, 0xf8, 0xf9, 0xfa, 0xfb, 0xfc, 0xfd, 0xff, 0x02]
  const NistOutput1: Block := [
    0x0b, 0xdf, 0x7d, 0xf1, 0x59, 0x17, 0x16, 0x33, 0x5e, 0x9a, 0x8b, 0x15, 0xc8, 0x60, 0xc5, 0x02]
  const NistOutput2: Block := [
    0x5a, 0x6e, 0x69, 0x9d, 0x53, 0x61, 0x19, 0x06, 0x54, 0x33, 0x86, 0x3c, 0x8f, 0x65, 0x7b, 0x94]
  const NistOutput3: Block := [
    0x1b, 0xc1, 0x2c, 0x9c, 0x01, 0x61, 0x0d, 0x5d, 0x0d, 0x8b, 0xd6, 0xa3, 0x37, 0x8e, 0xca, 0x62]
  const NistOutput4: Block := [
    0x29, 0x56, 0xe1, 0xc8, 0x69, 0x35, 0x36, 0xb1, 0xbe, 0xe9, 0x9c, 0x73, 0xa3, 0x15, 0x76, 0xb6]

  /** The published AES-256 values for the four input blocks of the example. */
  ghost predicate MatchesNistAes256(cipher: BlockCipher) {
    && cipher(NistKey, NistInput1) == NistOutput1
    && cipher(NistKey, NistInput2) == NistOutput2
    && cipher(NistKey, NistInput3) == NistOutput3
    && cipher(NistKey, NistInput4) == NistOutput4
  }

  /** Incrementing the example's initial counter block gives its next three input blocks. */
  lemma NistCounterBlocks()
    ensures CounterBlock(NistInput1, 0) == NistInput1
    ensures CounterBlock(NistInput1, 1) == NistInput2
    ensures CounterBlock(NistInput1, 2) == NistInput3
    ensures CounterBlock(NistInput1, 3) == NistInput4
  {
    var front := NistInput1[..14];
    assert NistInput1 == front + [0xfe, 0xff];
    assert NistInput1[..15] == front + [0xfe];
    assert Increment(NistInput1[..15]) == front + [0xff];
    assert NistInput2 == front + [0xff, 0x00];
    assert NistInput3 == front + [0xff, 0x01];
    assert NistInput4 == front + [0xff, 0x02];
    assert Advance(NistInput1, 1) == Increment(NistInput1);
    assert Advance(NistInput1, 2) == Increment(NistInput2);
    assert Advance(NistInput1, 3) == Increment(NistInput3);
  }

  /** Under the published cipher values, the first 64 keystream bytes are the example's four output blocks. */
  lemma NistKeystream(cipher: BlockCipher)
    requires MatchesNistAes256(cipher)
    ensures var p := CtrParams(cipher, NistKey, NistInput1);
            && Keystream(p, 0, BlockSize) == NistOutput1
            && Keystream(p, BlockSize, BlockSize) == NistOutput2
            && Keystream(p, 2 * BlockSize, BlockSize) == NistOutput3
            && Keystream(p, 3 * BlockSize, BlockSize) == NistOutput4
  {
    var p := CtrParams(cipher, NistKey, NistInput1);
    NistCounterBlocks();
    KeystreamAlignedBlock(p, 0);
    KeystreamAlignedBlock(p, 1);
    KeystreamAlignedBlock(p, 2);
    KeystreamAlignedBlock(p, 3);
  }

  /** A generator built from the example's key and counter hands out its four output blocks in four 16-byte requests. */
  method NistVector(cipher: BlockCipher) returns (s1: seq<byte>, s2: seq<byte>, s3: seq<byte>, s4: seq<byte>)
    requires MatchesNistAes256(cipher)
    ensures s1 == NistOutput1 && s2 == NistOutput2 && s3 == NistOutput3 && s4 == NistOutput4
  {
    var created := Create(NistKey, NistInput1, cipher);
    var g := created.value;
    var r1 := g.GetPseudorandomBytes(BlockSize);
    var r2 := g.GetPseudorandomBytes(BlockSize);
    var r3 := g.GetPseudorandomBytes(BlockSize);
    var r4 := g.GetPseudorandomBytes(BlockSize);
    s1, s2, s3, s4 := r1.value, r2.value, r3.value, r4.value;
    NistKeystream(cipher);
  }
}
