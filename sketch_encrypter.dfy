/**
 * The sketch encrypter: every scalar of a sketch (each register's index,
 * then its values in slot order) is ElGamal-encrypted with its own
 * randomness, and the ciphertexts are laid out as one flat byte stream of
 * 33-byte compressed points, u then e for each scalar.
 */
module SketchEncrypter {
  import opened Wrappers
  import opened Bytes
  import opened Sketches

  /** A compressed point on a 256-bit curve. */
  const BytesPerPoint: nat := 33
  /** One ciphertext: two compressed points. */
  const BytesPerCiphertext: nat := 66

  type Word = s: seq<byte> | |s| == 33
    witness [0, 0, 0, 0, 0, 0, 0, 0, 0, 0, 0, 0, 0, 0, 0, 0, 0, 0, 0, 0, 0, 0, 0, 0, 0, 0, 0, 0, 0, 0, 0, 0, 0]

  /** An ElGamal ciphertext (u, e) as two serialized points; also the form of a public key. */
  datatype Ciphertext = Ciphertext(u: Word, e: Word)

  function Serialize(c: Ciphertext): seq<byte>
  {
    c.u + c.e
  }

  /**
   * ElGamal encryption, under a public key, of the point scalar·G with a
   * given blinding factor; supplied by the curve library.
   */
  type ElGamal = (Ciphertext, int, nat) -> Ciphertext

  /** The secure randomness source: the blinding factor of the k-th draw. */
  type Randomness = nat -> nat

  datatype Error = InvalidPublicKey

  /**
   * A value scalar after the counter ceiling is applied (std::min): never
   * above the ceiling, unchanged at or below it, the ceiling above it.
   */
  function Clamp(value: int, maxCounterValue: int): (clamped: int)
    ensures clamped <= maxCounterValue
    ensures value <= maxCounterValue ==> clamped == value
    ensures value >= maxCounterValue ==> clamped == maxCounterValue
  {
    if value < maxCounterValue then value else maxCounterValue
  }

  function ClampedValues(values: seq<uint64>, maxCounterValue: int): (clamped: seq<int>)
    ensures |clamped| == |values|
  {
    if values == [] then []
    else ClampedValues(values[..|values| - 1], maxCounterValue) + [Clamp(values[|values| - 1] as int, maxCounterValue)]
  }

  /** The scalars of one register: its index, unclamped, then its clamped values. */
  function RegisterScalars(reg: Register, maxCounterValue: int): seq<int>
  {
    [reg.index as int] + ClampedValues(reg.values, maxCounterValue)
  }

  /** Scalar j of a register: 0 is its index, unclamped; j > 0 is value j - 1, clamped. */
  function ScalarOf(reg: Register, j: nat, maxCounterValue: int): int
    requires j <= |reg.values|
  {
    if j == 0 then reg.index as int else Clamp(reg.values[j - 1] as int, maxCounterValue)
  }

  /** The scalars of a list of registers, register by register. */
  function Scalars(registers: seq<Register>, maxCounterValue: int): seq<int>
  {
    if registers == [] then []
    else Scalars(registers[..|registers| - 1], maxCounterValue)
         + RegisterScalars(registers[|registers| - 1], maxCounterValue)
  }

  /**
   * The stream for `scalars` when the randomness source has already been
   * drawn `first` times: scalar p is encrypted with draw first + p.
   */
  function CipherStream(elgamal: ElGamal, publicKey: Ciphertext, random: Randomness, first: nat, scalars: seq<int>)
    : (stream: seq<byte>)
    ensures |stream| == BytesPerCiphertext * |scalars|
  {
    if scalars == [] then []
    else
      var p := |scalars| - 1;
      CipherStream(elgamal, publicKey, random, first, scalars[..p])
      + Serialize(elgamal(publicKey, scalars[p], random(first + p)))
  }

  lemma CipherStreamSnoc(elgamal: ElGamal, publicKey: Ciphertext, random: Randomness, first: nat,
                         scalars: seq<int>, x: int)
    ensures CipherStream(elgamal, publicKey, random, first, scalars + [x])
         == CipherStream(elgamal, publicKey, random, first, scalars)
            + Serialize(elgamal(publicKey, x, random(first + |scalars|)))
  {
    assert (scalars + [x])[..|scalars|] == scalars;
  }

  lemma ScalarsSnoc(registers: seq<Register>, i: nat, maxCounterValue: int)
    requires i < |registers|
    ensures Scalars(registers[..i + 1], maxCounterValue)
         == Scalars(registers[..i], maxCounterValue) + RegisterScalars(registers[i], maxCounterValue)
  {
    assert registers[..i + 1][..i] == registers[..i];
  }

  lemma AppendAssociates(a: seq<int>, b: seq<int>, c: seq<int>)
    ensures a + (b + c) == (a + b) + c
  {
  }

  lemma ClampedValuesSnoc(values: seq<uint64>, j: nat, maxCounterValue: int)
    requires j < |values|
    ensures ClampedValues(values[..j + 1], maxCounterValue)
         == ClampedValues(values[..j], maxCounterValue) + [Clamp(values[j] as int, maxCounterValue)]
  {
    assert values[..j + 1][..j] == values[..j];
  }

  /** The ciphertext held by bytes 66p to 66p + 66 of a stream. */
  function PairAt(stream: seq<byte>, p: nat): Ciphertext
    requires BytesPerCiphertext * (p + 1) <= |stream|
  {
    var at := BytesPerCiphertext * p;
    Ciphertext(stream[at .. at + BytesPerPoint], stream[at + BytesPerPoint .. at + BytesPerCiphertext])
  }

  /** Ciphertext p occupies word 2p (its u) and word 2p + 1 (its e). */
  lemma PairWords(stream: seq<byte>, p: nat)
    requires BytesPerCiphertext * (p + 1) <= |stream|
    ensures BytesPerPoint * (2 * p + 2) <= |stream|
    ensures stream[BytesPerPoint * (2 * p) .. BytesPerPoint * (2 * p + 1)] == PairAt(stream, p).u
    ensures stream[BytesPerPoint * (2 * p + 1) .. BytesPerPoint * (2 * p + 2)] == PairAt(stream, p).e
  {
  }

  class Encrypter {
    const curveId: int
    const maxCounterValue: int
    const publicKey: Ciphertext
    const elgamal: ElGamal
    const random: Randomness
    /** How many blinding factors have been drawn so far. */
    var draws: nat

    constructor (curveId: int, maxCounterValue: int, publicKey: Ciphertext, elgamal: ElGamal, random: Randomness)
      ensures this.curveId == curveId && this.maxCounterValue == maxCounterValue
      ensures this.publicKey == publicKey && this.elgamal == elgamal && this.random == random
      ensures draws == 0
    {
      this.curveId, this.maxCounterValue, this.publicKey := curveId, maxCounterValue, publicKey;
      this.elgamal, this.random := elgamal, random;
      draws := 0;
    }

    /** Encrypts one scalar with a fresh draw and appends its (u, e) bytes to `out`. */
    method EncryptIntegerAndAppend(scalar: int, out: seq<byte>) returns (out': seq<byte>)
      modifies this
      ensures draws == old(draws) + 1
      ensures out' == out + Serialize(elgamal(publicKey, scalar, random(old(draws))))
    {
      out' := out + Serialize(elgamal(publicKey, scalar, random(draws)));
      draws := draws + 1;
    }

    /**
     * Encrypts each value, clamped to the ceiling, appending to a stream that
     * already holds the scalars `done`.
     */
    method EncryptValuesAndAppend(values: seq<uint64>, out: seq<byte>, ghost first: nat, ghost done: seq<int>)
      returns (out': seq<byte>)
      requires draws == first + |done|
      requires out == CipherStream(elgamal, publicKey, random, first, done)
      modifies this
      ensures draws == first + |done + ClampedValues(values, maxCounterValue)|
      ensures out' == CipherStream(elgamal, publicKey, random, first, done + ClampedValues(values, maxCounterValue))
    {
      out' := out;
      ghost var sofar := done;
      assert values[..0] == [];
      var j := 0;
      while j < |values|
        invariant 0 <= j <= |values|
        invariant sofar == done + ClampedValues(values[..j], maxCounterValue)
        invariant draws == first + |sofar|
        invariant out' == CipherStream(elgamal, publicKey, random, first, sofar)
      {
        var scalar := Clamp(values[j] as int, maxCounterValue);
        ghost var next := sofar + [scalar];
        assert next == done + ClampedValues(values[..j + 1], maxCounterValue) by {
          ClampedValuesSnoc(values, j, maxCounterValue);
          AppendAssociates(done, ClampedValues(values[..j], maxCounterValue), [scalar]);
        }
        assert CipherStream(elgamal, publicKey, random, first, next)
            == out' + Serialize(elgamal(publicKey, scalar, random(draws))) by {
          CipherStreamSnoc(elgamal, publicKey, random, first, sofar, scalar);
        }
        out' := EncryptIntegerAndAppend(scalar, out');
        sofar := next;
        j := j + 1;
      }
      assert values[..j] == values;
    }

    /**
     * Encrypts one register, its index and then its values, appending to a
     * stream that already holds the scalars `done`.
     */
    method EncryptRegisterAndAppend(reg: Register, out: seq<byte>, ghost first: nat, ghost done: seq<int>)
      returns (out': seq<byte>)
      requires draws == first + |done|
      requires out == CipherStream(elgamal, publicKey, random, first, done)
      modifies this
      ensures draws == first + |done + RegisterScalars(reg, maxCounterValue)|
      ensures out' == CipherStream(elgamal, publicKey, random, first, done + RegisterScalars(reg, maxCounterValue))
    {
      CipherStreamSnoc(elgamal, publicKey, random, first, done, reg.index as int);
      out' := EncryptIntegerAndAppend(reg.index as int, out);
      out' := EncryptValuesAndAppend(reg.values, out', first, done + [reg.index as int]);
      AppendAssociates(done, [reg.index as int], ClampedValues(reg.values, maxCounterValue));
    }

    /** Encrypts every register of `sketch` in order, each with fresh draws. */
    method Encrypt(sketch: Sketch) returns (out: seq<byte>)
      modifies this
      ensures draws == old(draws) + |Scalars(sketch.registers, maxCounterValue)|
      ensures out == CipherStream(elgamal, publicKey, random, old(draws), Scalars(sketch.registers, maxCounterValue))
    {
      var registers := sketch.registers;
      ghost var first := draws;
      out := [];
      var i := 0;
      while i < |registers|
        invariant 0 <= i <= |registers|
        invariant draws == first + |Scalars(registers[..i], maxCounterValue)|
        invariant out == CipherStream(elgamal, publicKey, random, first, Scalars(registers[..i], maxCounterValue))
      {
        out := EncryptRegisterAndAppend(registers[i], out, first, Scalars(registers[..i], maxCounterValue));
        ScalarsSnoc(registers, i, maxCounterValue);
        i := i + 1;
      }
      assert registers[..i] == registers;
    }
  }

  /**
   * Builds an encrypter for a public key; fails when either point of the key
   * is not a valid point encoding on the curve.
   */
  method CreateWithPublicKey(curveId: int, maxCounterValue: int, publicKey: Ciphertext,
                             isPoint: (int, Word) -> bool, elgamal: ElGamal, random: Randomness)
    returns (r: Result<Encrypter, Error>)
    requires maxCounterValue >= 0
    ensures r.Failure? <==> !isPoint(curveId, publicKey.u) || !isPoint(curveId, publicKey.e)
    ensures r.Failure? ==> r.error == InvalidPublicKey
    ensures r.Success? ==> && fresh(r.value) && r.value.draws == 0
                           && r.value.maxCounterValue == maxCounterValue && r.value.publicKey == publicKey
                           && r.value.elgamal == elgamal && r.value.random == random
  {
    if !isPoint(curveId, publicKey.u) || !isPoint(curveId, publicKey.e) {
      return Failure(InvalidPublicKey);
    }
    var encrypter := new Encrypter(curveId, maxCounterValue, publicKey, elgamal, random);
    r := Success(encrypter);
  }

  // The layout of the stream.

  lemma {:induction false} ClampedValueAt(values: seq<uint64>, maxCounterValue: int, j: nat)
    requires j < |values|
    ensures ClampedValues(values, maxCounterValue)[j] == Clamp(values[j] as int, maxCounterValue)
  {
    if j < |values| - 1 {
      ClampedValueAt(values[..|values| - 1], maxCounterValue, j);
    }
  }

  /** With K values per register, a sketch of R registers has R·(1+K) scalars. */
  lemma {:induction false} ScalarCount(registers: seq<Register>, k: nat, maxCounterValue: int)
    requires forall r :: 0 <= r < |registers| ==> |registers[r].values| == k
    ensures |Scalars(registers, maxCounterValue)| == |registers| * (1 + k)
  {
    if registers != [] {
      var n := |registers|;
      ScalarCount(registers[..n - 1], k, maxCounterValue);
      assert |RegisterScalars(registers[n - 1], maxCounterValue)| == 1 + k;
      assert (n - 1) * (1 + k) + (1 + k) == n * (1 + k);
    }
  }

  lemma MulMonotone(a: nat, b: nat, c: nat)
    requires a <= b
    ensures a * c <= b * c
  {
    assert b * c == a * c + (b - a) * c;
  }

  /**
   * Register-major order: scalar j of register r (j = 0 is the index, then
   * the values in slot order) is scalar number r·(1+K) + j; values are
   * clamped to the ceiling and the index is not.
   */
  lemma {:induction false} ScalarAt(registers: seq<Register>, k: nat, maxCounterValue: int, r: nat, j: nat)
    requires forall i :: 0 <= i < |registers| ==> |registers[i].values| == k
    requires r < |registers| && j <= k
    ensures r * (1 + k) + j < |Scalars(registers, maxCounterValue)|
    ensures Scalars(registers, maxCounterValue)[r * (1 + k) + j] == ScalarOf(registers[r], j, maxCounterValue)
  {
    var n := |registers|;
    var front := registers[..n - 1];
    var last := RegisterScalars(registers[n - 1], maxCounterValue);
    assert Scalars(registers, maxCounterValue) == Scalars(front, maxCounterValue) + last;
    if r < n - 1 {
      ScalarAt(front, k, maxCounterValue, r, j);
    } else {
      assert r * (1 + k) == |Scalars(front, maxCounterValue)| by {
        ScalarCount(front, k, maxCounterValue);
      }
      if j > 0 {
        ClampedValueAt(registers[r].values, maxCounterValue, j - 1);
      }
    }
  }

  /** Ciphertext number p of the stream encrypts scalar p with draw first + p. */
  lemma {:induction false} CipherStreamAt(elgamal: ElGamal, publicKey: Ciphertext, random: Randomness, first: nat,
                                          scalars: seq<int>, p: nat)
    requires p < |scalars|
    ensures PairAt(CipherStream(elgamal, publicKey, random, first, scalars), p)
         == elgamal(publicKey, scalars[p], random(first + p))
  {
    var n := |scalars| - 1;
    var front := CipherStream(elgamal, publicKey, random, first, scalars[..n]);
    var stream := CipherStream(elgamal, publicKey, random, first, scalars);
    var at := BytesPerCiphertext * p;
    assert stream == front + Serialize(elgamal(publicKey, scalars[n], random(first + n)));
    if p < n {
      CipherStreamAt(elgamal, publicKey, random, first, scalars[..n], p);
      assert stream[at .. at + BytesPerCiphertext] == front[at .. at + BytesPerCiphertext];
    } else {
      assert stream[at ..] == Serialize(elgamal(publicKey, scalars[n], random(first + n)));
    }
  }

  /** An encrypted sketch of R registers and K value specs is R·(1+K)·66 bytes long. */
  lemma EncryptedSize(sketch: Sketch, elgamal: ElGamal, publicKey: Ciphertext, random: Randomness, first: nat,
                      maxCounterValue: int)
    requires sketch.WellFormed()
    ensures |CipherStream(elgamal, publicKey, random, first, Scalars(sketch.registers, maxCounterValue))|
         == |sketch.registers| * (1 + |sketch.config.values|) * BytesPerCiphertext
  {
    ScalarCount(sketch.registers, |sketch.config.values|, maxCounterValue);
  }

  /**
   * The u word of scalar j of register r, the scalar at position
   * p = r·(1+K) + j, is word 2p of the stream and its e word is word 2p + 1;
   * the scalar is encrypted with its own draw.
   */
  lemma EncryptedLayout(sketch: Sketch, elgamal: ElGamal, publicKey: Ciphertext, random: Randomness, first: nat,
                        maxCounterValue: int, r: nat, j: nat, p: nat)
    requires sketch.WellFormed()
    requires r < |sketch.registers| && j <= |sketch.config.values|
    requires p == r * (1 + |sketch.config.values|) + j
    ensures var stream := CipherStream(elgamal, publicKey, random, first, Scalars(sketch.registers, maxCounterValue));
            var c := elgamal(publicKey, ScalarOf(sketch.registers[r], j, maxCounterValue), random(first + p));
            && BytesPerPoint * (2 * p + 2) <= |stream|
            && stream[BytesPerPoint * (2 * p) .. BytesPerPoint * (2 * p + 1)] == c.u
            && stream[BytesPerPoint * (2 * p + 1) .. BytesPerPoint * (2 * p + 2)] == c.e
  {
    var scalars := Scalars(sketch.registers, maxCounterValue);
    var stream := CipherStream(elgamal, publicKey, random, first, scalars);
    ScalarAt(sketch.registers, |sketch.config.values|, maxCounterValue, r, j);
    CipherStreamAt(elgamal, publicKey, random, first, scalars, p);
    PairWords(stream, p);
  }

  // What the decrypting party sees.

  /**
   * Decryption gives back the plaintext point m·G. Points are identified by
   * their scalar modulo the order of the group, so that is what `decrypt`
   * returns.
   */
  ghost predicate DecryptionInverts(decrypt: Ciphertext -> int, elgamal: ElGamal, publicKey: Ciphertext, order: nat) {
    && order > 0
    && forall m: int, blinding: nat :: decrypt(elgamal(publicKey, m, blinding)) == m % order
  }

  /**
   * Blinding factors are scalars too: two that differ modulo the order give
   * different u = b·G and, for the same plaintext, different e = m·G + b·Y.
   */
  ghost predicate Separates(elgamal: ElGamal, publicKey: Ciphertext, order: nat) {
    && order > 0
    && forall m: int, b1: nat, b2: nat :: b1 % order != b2 % order ==>
         elgamal(publicKey, m, b1).u != elgamal(publicKey, m, b2).u
         && elgamal(publicKey, m, b1).e != elgamal(publicKey, m, b2).e
  }

  /** The draws first to first + count − 1 give blinding factors distinct modulo the order. */
  ghost predicate DistinctDraws(random: Randomness, order: nat, first: nat, count: nat) {
    && order > 0
    && forall a: nat, b: nat :: first <= a < b < first + count ==> random(a) % order != random(b) % order
  }

  /** Adding two ciphertexts gives a ciphertext of the sum of their plaintexts. */
  ghost predicate AddsPlaintexts(decrypt: Ciphertext -> int, add: (Ciphertext, Ciphertext) -> Ciphertext, order: nat) {
    && order > 0
    && forall c1, c2 :: decrypt(add(c1, c2)) == (decrypt(c1) + decrypt(c2)) % order
  }

  /** Every ciphertext of the stream decrypts to the scalar at its position. */
  lemma PairDecrypts(decrypt: Ciphertext -> int, elgamal: ElGamal, publicKey: Ciphertext, order: nat,
                     random: Randomness, first: nat, scalars: seq<int>, p: nat)
    requires DecryptionInverts(decrypt, elgamal, publicKey, order)
    requires p < |scalars|
    ensures decrypt(PairAt(CipherStream(elgamal, publicKey, random, first, scalars), p)) == scalars[p] % order
  {
    CipherStreamAt(elgamal, publicKey, random, first, scalars, p);
  }

  /**
   * Every scalar gets its own draw: two positions holding the same scalar
   * get different u and different e words, yet decrypt alike.
   */
  lemma SameScalarEncryptedApart(decrypt: Ciphertext -> int, elgamal: ElGamal, publicKey: Ciphertext, order: nat,
                                 random: Randomness, first: nat, scalars: seq<int>, p: nat, q: nat)
    requires DistinctDraws(random, order, first, |scalars|)
    requires Separates(elgamal, publicKey, order)
    requires DecryptionInverts(decrypt, elgamal, publicKey, order)
    requires p < q < |scalars| && scalars[p] == scalars[q]
    ensures var stream := CipherStream(elgamal, publicKey, random, first, scalars);
            && PairAt(stream, p).u != PairAt(stream, q).u
            && PairAt(stream, p).e != PairAt(stream, q).e
            && decrypt(PairAt(stream, p)) == decrypt(PairAt(stream, q))
  {
    CipherStreamAt(elgamal, publicKey, random, first, scalars, p);
    CipherStreamAt(elgamal, publicKey, random, first, scalars, q);
    assert random(first + p) % order != random(first + q) % order;
  }

  // The scenarios of the encrypter's tests, stated over the stream.

  /** Two registers both with index 1 and no value specs: four words, the two pairs differ and decrypt alike. */
  lemma IndexEncryptedTwice(decrypt: Ciphertext -> int, elgamal: ElGamal, publicKey: Ciphertext, order: nat,
                            random: Randomness, first: nat, maxCounterValue: int)
    requires order > 1
    requires DistinctDraws(random, order, first, 2)
    requires Separates(elgamal, publicKey, order)
    requires DecryptionInverts(decrypt, elgamal, publicKey, order)
    ensures var sketch := Sketch(SketchConfig([]), [Register(1, []), Register(1, [])]);
            var stream := CipherStream(elgamal, publicKey, random, first, Scalars(sketch.registers, maxCounterValue));
            && |stream| == 4 * BytesPerPoint
            && PairAt(stream, 0).u != PairAt(stream, 1).u
            && PairAt(stream, 0).e != PairAt(stream, 1).e
            && decrypt(PairAt(stream, 0)) == decrypt(PairAt(stream, 1)) == 1
  {
    var registers := [Register(1, []), Register(1, [])];
    var scalars := Scalars(registers, maxCounterValue);
    ScalarCount(registers, 0, maxCounterValue);
    ScalarAt(registers, 0, maxCounterValue, 0, 0);
    ScalarAt(registers, 0, maxCounterValue, 1, 0);
    SameScalarEncryptedApart(decrypt, elgamal, publicKey, order, random, first, scalars, 0, 1);
    PairDecrypts(decrypt, elgamal, publicKey, order, random, first, scalars, 0);
    DivModUnique(1, order, 0, 1);
  }

  /**
   * One SUM spec and five registers holding 1 to 5 under a ceiling of 100:
   * the values go in unclamped, so if adding ciphertexts adds plaintexts,
   * the sums of the 1 and 4 ciphertexts and of the 2 and 3 ciphertexts
   * decrypt like the 5 ciphertext.
   */
  lemma CountValuesAddUp(decrypt: Ciphertext -> int, add: (Ciphertext, Ciphertext) -> Ciphertext,
                         elgamal: ElGamal, publicKey: Ciphertext, order: nat, random: Randomness, first: nat)
    requires DecryptionInverts(decrypt, elgamal, publicKey, order)
    requires AddsPlaintexts(decrypt, add, order)
    ensures var registers := [Register(0, [1]), Register(0, [2]), Register(0, [3]), Register(0, [4]), Register(0, [5])];
            var stream := CipherStream(elgamal, publicKey, random, first, Scalars(registers, 100));
            && |stream| == 20 * BytesPerPoint
            && decrypt(add(PairAt(stream, 1), PairAt(stream, 7))) == decrypt(PairAt(stream, 9))
            && decrypt(add(PairAt(stream, 3), PairAt(stream, 5))) == decrypt(PairAt(stream, 9))
  {
    var registers := [Register(0, [1]), Register(0, [2]), Register(0, [3]), Register(0, [4]), Register(0, [5])];
    var scalars := Scalars(registers, 100);
    ScalarCount(registers, 1, 100);
    ScalarAt(registers, 1, 100, 0, 1);
    ScalarAt(registers, 1, 100, 1, 1);
    ScalarAt(registers, 1, 100, 2, 1);
    ScalarAt(registers, 1, 100, 3, 1);
    ScalarAt(registers, 1, 100, 4, 1);
    PairDecrypts(decrypt, elgamal, publicKey, order, random, first, scalars, 1);
    PairDecrypts(decrypt, elgamal, publicKey, order, random, first, scalars, 3);
    PairDecrypts(decrypt, elgamal, publicKey, order, random, first, scalars, 5);
    PairDecrypts(decrypt, elgamal, publicKey, order, random, first, scalars, 7);
    PairDecrypts(decrypt, elgamal, publicKey, order, random, first, scalars, 9);
    ModOfSum(1, 4, order);
    ModOfSum(2, 3, order);
  }

  /**
   * A value ten above the ceiling and a value at the ceiling decrypt alike,
   * to the ceiling modulo the group order, which is the ceiling itself for
   * any ceiling below the order.
   */
  lemma ValuesAboveCeilingDecryptAsCeiling(decrypt: Ciphertext -> int, elgamal: ElGamal, publicKey: Ciphertext,
                                           order: nat, random: Randomness, first: nat, maxCounterValue: nat)
    requires maxCounterValue + 10 < 0x1_0000_0000_0000_0000
    requires DecryptionInverts(decrypt, elgamal, publicKey, order)
    ensures var registers := [Register(0, [(maxCounterValue + 10) as uint64]), Register(0, [maxCounterValue as uint64])];
            var stream := CipherStream(elgamal, publicKey, random, first, Scalars(registers, maxCounterValue));
            && |stream| == 8 * BytesPerPoint
            && decrypt(PairAt(stream, 1)) == decrypt(PairAt(stream, 3)) == maxCounterValue % order
            && (maxCounterValue < order ==> decrypt(PairAt(stream, 1)) == maxCounterValue)
  {
    var registers := [Register(0, [(maxCounterValue + 10) as uint64]), Register(0, [maxCounterValue as uint64])];
    var scalars := Scalars(registers, maxCounterValue);
    ScalarCount(registers, 1, maxCounterValue);
    ScalarAt(registers, 1, maxCounterValue, 0, 1);
    ScalarAt(registers, 1, maxCounterValue, 1, 1);
    PairDecrypts(decrypt, elgamal, publicKey, order, random, first, scalars, 1);
    PairDecrypts(decrypt, elgamal, publicKey, order, random, first, scalars, 3);
    if maxCounterValue < order {
      DivModUnique(maxCounterValue, order, 0, maxCounterValue);
    }
  }

  lemma ModOfSum(x: int, y: int, n: int)
    requires n > 0
    ensures (x % n + y % n) % n == (x + y) % n
  {
    var q := (x + y) / n;
    DivModUnique(x % n + y % n, n, q - x / n - y / n, (x + y) % n);
  }

  lemma ModOfDifference(x: int, y: int, n: int)
    requires n > 0
    ensures (x % n - y % n) % n == (x - y) % n
  {
    var q := (x - y) / n;
    DivModUnique(x % n - y % n, n, q - x / n + y / n, (x - y) % n);
  }

  // The assumptions above can all be met: ElGamal over the additive group
  // of the integers modulo 256, with generator 1 and secret key 1.

  const ToyOrder: nat := 256

  const ZeroTail: seq<byte> := [0, 0, 0, 0, 0, 0, 0, 0, 0, 0, 0, 0, 0, 0, 0, 0, 0, 0, 0, 0, 0, 0, 0, 0, 0, 0, 0, 0, 0, 0, 0, 0]

  /** The group element x mod 256 written as a 33-byte word. */
  function ToyPoint(x: int): Word
  {
    [(x % 256) as byte] + ZeroTail
  }

  /** u = b·G = b and e = m·G + b·Y = m + b, since Y = 1·G. */
  function ToyEncrypt(publicKey: Ciphertext, m: int, blinding: nat): Ciphertext
  {
    Ciphertext(ToyPoint(blinding), ToyPoint(m + blinding))
  }

  /** m·G = e − x·u with the secret key x = 1. */
  function ToyDecrypt(c: Ciphertext): int
  {
    (c.e[0] as int - c.u[0] as int) % 256
  }

  /** The componentwise group sum of two ciphertexts. */
  function ToyAdd(c1: Ciphertext, c2: Ciphertext): Ciphertext
  {
    Ciphertext(ToyPoint(c1.u[0] as int + c2.u[0] as int), ToyPoint(c1.e[0] as int + c2.e[0] as int))
  }

  lemma NonZeroResidue(z: int, n: int)
    requires -n < z < n && z != 0
    ensures z % n != 0
  {
    if z > 0 {
      DivModUnique(z, n, 0, z);
    } else {
      DivModUnique(z, n, -1, z + n);
    }
  }

  lemma ToyDecryptsOne(publicKey: Ciphertext, m: int, blinding: nat)
    ensures ToyDecrypt(ToyEncrypt(publicKey, m, blinding)) == m % ToyOrder
  {
    var c := ToyEncrypt(publicKey, m, blinding);
    assert c.e[0] as int == (m + blinding) % 256 && c.u[0] as int == blinding % 256;
    ModOfDifference(m + blinding, blinding, 256);
  }

  lemma ToySeparatesOne(publicKey: Ciphertext, m: int, b1: nat, b2: nat)
    requires b1 % ToyOrder != b2 % ToyOrder
    ensures ToyEncrypt(publicKey, m, b1).u != ToyEncrypt(publicKey, m, b2).u
    ensures ToyEncrypt(publicKey, m, b1).e != ToyEncrypt(publicKey, m, b2).e
  {
    var c1, c2 := ToyEncrypt(publicKey, m, b1), ToyEncrypt(publicKey, m, b2);
    assert c1.u[0] as int == b1 % 256 && c2.u[0] as int == b2 % 256;
    assert c1.e[0] as int == (m + b1) % 256 && c2.e[0] as int == (m + b2) % 256;
    NonZeroResidue(b1 % 256 - b2 % 256, 256);
    ModOfDifference(b1, b2, 256);
    ModOfDifference(m + b1, m + b2, 256);
    assert (m + b1) - (m + b2) == b1 - b2;
  }

  lemma ToyAddsOne(c1: Ciphertext, c2: Ciphertext)
    ensures ToyDecrypt(ToyAdd(c1, c2)) == (ToyDecrypt(c1) + ToyDecrypt(c2)) % ToyOrder
  {
    var u1, u2, e1, e2 := c1.u[0] as int, c2.u[0] as int, c1.e[0] as int, c2.e[0] as int;
    var sum := ToyAdd(c1, c2);
    assert sum.e[0] as int == (e1 + e2) % 256 && sum.u[0] as int == (u1 + u2) % 256;
    ModOfDifference(e1 + e2, u1 + u2, 256);
    ModOfSum(e1 - u1, e2 - u2, 256);
    assert (e1 + e2) - (u1 + u2) == (e1 - u1) + (e2 - u2);
  }

  /** Decryption in the toy group inverts encryption. */
  lemma ToyDecryptionInverts(publicKey: Ciphertext)
    ensures DecryptionInverts(ToyDecrypt, ToyEncrypt, publicKey, ToyOrder)
  {
    forall m: int, blinding: nat
      ensures ToyDecrypt(ToyEncrypt(publicKey, m, blinding)) == m % ToyOrder
    {
      ToyDecryptsOne(publicKey, m, blinding);
    }
  }

  /** Encryption in the toy group separates distinct blinding factors. */
  lemma ToySeparates(publicKey: Ciphertext)
    ensures Separates(ToyEncrypt, publicKey, ToyOrder)
  {
    forall m: int, b1: nat, b2: nat | b1 % ToyOrder != b2 % ToyOrder
      ensures ToyEncrypt(publicKey, m, b1).u != ToyEncrypt(publicKey, m, b2).u
      ensures ToyEncrypt(publicKey, m, b1).e != ToyEncrypt(publicKey, m, b2).e
    {
      ToySeparatesOne(publicKey, m, b1, b2);
    }
  }

  /** Adding toy ciphertexts adds their plaintexts. */
  lemma ToyAddsPlaintexts()
    ensures AddsPlaintexts(ToyDecrypt, ToyAdd, ToyOrder)
  {
    forall c1: Ciphertext, c2: Ciphertext
      ensures ToyDecrypt(ToyAdd(c1, c2)) == (ToyDecrypt(c1) + ToyDecrypt(c2)) % ToyOrder
    {
      ToyAddsOne(c1, c2);
    }
  }

  /** Counting draws meets the distinct-draws assumption for up to 256 draws. */
  lemma CountingDrawsDistinct(first: nat, count: nat)
    requires first + count <= ToyOrder
    ensures DistinctDraws(k => k, ToyOrder, first, count)
  {
    forall a: nat, b: nat | first <= a < b < first + count
      ensures a % ToyOrder != b % ToyOrder
    {
      DivModUnique(a, 256, 0, a);
      DivModUnique(b, 256, 0, b);
    }
  }

  /**
   * The repeated-index scenario in the toy group, with draws numbered from
   * zero: the two ciphertexts of index 1 differ in u and in e and both
   * decrypt to 1.
   */
  lemma ToyIndexEncryptedTwice(publicKey: Ciphertext, maxCounterValue: int)
    ensures var registers := [Register(1, []), Register(1, [])];
            var stream := CipherStream(ToyEncrypt, publicKey, k => k, 0, Scalars(registers, maxCounterValue));
            && |stream| == 4 * BytesPerPoint
            && PairAt(stream, 0).u != PairAt(stream, 1).u
            && PairAt(stream, 0).e != PairAt(stream, 1).e
            && ToyDecrypt(PairAt(stream, 0)) == ToyDecrypt(PairAt(stream, 1)) == 1
  {
    ToyDecryptionInverts(publicKey);
    ToySeparates(publicKey);
    CountingDrawsDistinct(0, 2);
    IndexEncryptedTwice(ToyDecrypt, ToyEncrypt, publicKey, ToyOrder, k => k, 0, maxCounterValue);
  }

  /** A zero value still gets a full ciphertext: one register with value 0 gives four words, the last two encrypting 0. */
  lemma ZeroValueEncrypted(elgamal: ElGamal, publicKey: Ciphertext, random: Randomness, first: nat,
                           maxCounterValue: nat)
    ensures var stream := CipherStream(elgamal, publicKey, random, first, Scalars([Register(0, [0])], maxCounterValue));
            && |stream| == 4 * BytesPerPoint
            && PairAt(stream, 1) == elgamal(publicKey, 0, random(first + 1))
  {
    var registers := [Register(0, [0])];
    var scalars := Scalars(registers, maxCounterValue);
    ScalarCount(registers, 1, maxCounterValue);
    ScalarAt(registers, 1, maxCounterValue, 0, 1);
    CipherStreamAt(elgamal, publicKey, random, first, scalars, 1);
  }

  // Reading the stream back as words.

  /** Splits `bytes` into consecutive 33-byte words; a trailing partial word is dropped. */
  method GetCipherStrings(bytes: seq<byte>) returns (words: seq<Word>)
    ensures |words| == |bytes| / BytesPerPoint
    ensures forall i :: 0 <= i < |words| ==> words[i] == bytes[BytesPerPoint * i .. BytesPerPoint * (i + 1)]
  {
    var count := |bytes| / BytesPerPoint;
    words := [];
    var i := 0;
    while i < count
      invariant 0 <= i <= count
      invariant |words| == i
      invariant forall w :: 0 <= w < i ==> words[w] == bytes[BytesPerPoint * w .. BytesPerPoint * (w + 1)]
    {
      MulMonotone(i + 1, count, BytesPerPoint);
      words := words + [bytes[BytesPerPoint * i .. BytesPerPoint * (i + 1)]];
      i := i + 1;
    }
  }

  function Join(words: seq<Word>): seq<byte>
  {
    if words == [] then [] else Join(words[..|words| - 1]) + words[|words| - 1]
  }

  /** When the length is a multiple of 33, the words put back together are the stream. */
  lemma {:induction false} WordsRejoin(bytes: seq<byte>, words: seq<Word>)
    requires |bytes| % BytesPerPoint == 0
    requires |words| == |bytes| / BytesPerPoint
    requires forall i :: 0 <= i < |words| ==> words[i] == bytes[BytesPerPoint * i .. BytesPerPoint * (i + 1)]
    ensures Join(words) == bytes
  {
    if words != [] {
      var n := |words| - 1;
      var front := bytes[..BytesPerPoint * n];
      DivModUnique(|bytes|, BytesPerPoint, n + 1, 0);
      DivModUnique(|front|, BytesPerPoint, n, 0);
      forall i | 0 <= i < n
        ensures words[..n][i] == front[BytesPerPoint * i .. BytesPerPoint * (i + 1)]
      {
        MulMonotone(i + 1, n, BytesPerPoint);
      }
      WordsRejoin(front, words[..n]);
      assert bytes == front + bytes[BytesPerPoint * n ..];
    }
  }
}
