/** Bytes and the big-endian counter arithmetic of counter mode. */
module Bytes {

  /** An `unsigned char`. */
  newtype byte = x: int | 0 <= x < 256

  /** 256^n: the number of distinct n-byte strings. */
  function Pow256(n: nat): (r: nat)
    ensures r > 0
  {
    if n == 0 then 1 else 256 * Pow256(n - 1)
  }

  /** The unsigned integer a byte string denotes, most significant byte first. */
  function BigEndian(s: seq<byte>): (v: nat)
    ensures v < Pow256(|s|)
  {
    if s == [] then 0 else BigEndian(s[..|s| - 1]) * 256 + s[|s| - 1] as int
  }

  /**
   * The standard incrementing function over a whole block: add one to the
   * last byte and carry towards the first, dropping the final carry.
   */
  function Increment(s: seq<byte>): (r: seq<byte>)
    ensures |r| == |s|
  {
    if s == [] then []
    else if s[|s| - 1] == 255 then Increment(s[..|s| - 1]) + [0]
    else s[..|s| - 1] + [s[|s| - 1] + 1]
  }

  lemma {:induction false} MulAtLeast(k: nat, d: nat)
    requires k >= 1
    ensures k * d >= d
  {
    if k > 1 {
      MulAtLeast(k - 1, d);
      assert k * d == (k - 1) * d + d;
    }
  }

  /** Division with remainder is unique: it pins down `a % d` and `a / d`. */
  lemma DivModUnique(a: int, d: int, q: int, r: int)
    requires d > 0 && a == q * d + r && 0 <= r < d
    ensures a % d == r && a / d == q
  {
    var q', r' := a / d, a % d;
    assert (q - q') * d == r' - r;
    if q > q' {
      MulAtLeast(q - q', d);
    } else if q < q' {
      assert (q' - q) * d == r - r';
      MulAtLeast(q' - q, d);
    }
  }

  lemma ModScale(x: nat, m: nat, k: nat)
    requires m > 0 && k > 0
    ensures (x % m) * k == (x * k) % (m * k)
  {
    var q, r := x / m, x % m;
    assert x * k == q * (m * k) + r * k;
    assert r * k < m * k;
    DivModUnique(x * k, m * k, q, r * k);
  }

  lemma ModSucc(x: nat, m: nat)
    requires m > 0
    ensures (x % m + 1) % m == (x + 1) % m
  {
    var q, r := x / m, x % m;
    if r + 1 < m {
      DivModUnique(x + 1, m, q, r + 1);
      DivModUnique(r + 1, m, 0, r + 1);
    } else {
      DivModUnique(x + 1, m, q + 1, 0);
      DivModUnique(r + 1, m, 1, 0);
    }
  }

  /** Incrementing adds one to the big-endian value, modulo 256^|s|. */
  lemma {:induction false} IncrementAddsOne(s: seq<byte>)
    ensures BigEndian(Increment(s)) == (BigEndian(s) + 1) % Pow256(|s|)
  {
    if s == [] {
      DivModUnique(1, 1, 1, 0);
    } else {
      var pre, last := s[..|s| - 1], s[|s| - 1];
      var r := Increment(s);
      var p := Pow256(|pre|);
      assert Pow256(|s|) == p * 256;
      if last == 255 {
        assert r[..|r| - 1] == Increment(pre) && r[|r| - 1] == 0;
        IncrementAddsOne(pre);
        assert BigEndian(s) + 1 == (BigEndian(pre) + 1) * 256;
        ModScale(BigEndian(pre) + 1, p, 256);
      } else {
        assert r[..|r| - 1] == pre && r[|r| - 1] == last + 1;
        assert BigEndian(pre) * 256 + 256 <= p * 256;
        DivModUnique(BigEndian(s) + 1, Pow256(|s|), 0, BigEndian(s) + 1);
      }
    }
  }

  /** `s` incremented `i` times. */
  function Advance(s: seq<byte>, i: nat): (r: seq<byte>)
    ensures |r| == |s|
  {
    if i == 0 then s else Increment(Advance(s, i - 1))
  }

  /** Incrementing `i` times adds `i` to the big-endian value, modulo 256^|s|. */
  lemma {:induction false} AdvanceAdds(s: seq<byte>, i: nat)
    ensures BigEndian(Advance(s, i)) == (BigEndian(s) + i) % Pow256(|s|)
  {
    var m := Pow256(|s|);
    if i == 0 {
      DivModUnique(BigEndian(s), m, 0, BigEndian(s));
    } else {
      AdvanceAdds(s, i - 1);
      IncrementAddsOne(Advance(s, i - 1));
      ModSucc(BigEndian(s) + i - 1, m);
    }
  }
}
