/** Bytes, in-place byte writes and the integer encodings used by the packet headers. */
module Bytes {

  type Byte = b: int | 0 <= b < 256

  function Zeros(n: nat): (z: seq<Byte>)
    ensures |z| == n && forall k :: 0 <= k < n ==> z[k] == 0
  {
    seq(n, _ => 0)
  }

  /** The contents `s` after `b` has been copied over the bytes that start at `off`. */
  function Patch(s: seq<Byte>, off: nat, b: seq<Byte>): (r: seq<Byte>)
    requires off + |b| <= |s|
    ensures |r| == |s|
    ensures r[off..off + |b|] == b
    ensures forall k :: 0 <= k < |s| && !(off <= k < off + |b|) ==> r[k] == s[k]
  {
    s[..off] + b + s[off + |b|..]
  }

  /** memcpy / std::copy of `b` to `&a[off]`. */
  method Store(a: array<Byte>, off: nat, b: seq<Byte>)
    requires off + |b| <= a.Length
    modifies a
    ensures a[..] == Patch(old(a[..]), off, b)
  {
    forall k | off <= k < off + |b| {
      a[k] := b[k - off];
    }
  }

  function BigEndian16(x: nat): (r: seq<Byte>)
    ensures |r| == 2
  {
    [x / 256 % 256, x % 256]
  }

  function LittleEndian(width: nat, x: nat): (r: seq<Byte>)
    ensures |r| == width
  {
    if width == 0 then [] else [x % 256] + LittleEndian(width - 1, x / 256)
  }

  function BigEndian32(x: nat): (r: seq<Byte>)
    ensures |r| == 4
  {
    [x / 16777216 % 256, x / 65536 % 256, x / 256 % 256, x % 256]
  }

  function FromBigEndian16(s: seq<Byte>): nat
    requires |s| == 2
  {
    s[0] as int * 256 + s[1] as int
  }

  function FromBigEndian32(s: seq<Byte>): nat
    requires |s| == 4
  {
    s[0] as int * 16777216 + s[1] as int * 65536 + s[2] as int * 256 + s[3] as int
  }

  lemma BigEndian32RoundTrip(x: nat)
    ensures FromBigEndian32(BigEndian32(x)) == x % 0x1_0000_0000
  {
    var q, r := x / 0x1_0000_0000, x % 0x1_0000_0000;
    var a, b := r / 16777216, r % 16777216;
    var c, d := b / 65536, b % 65536;
    DivModUnique(x, 16777216, q * 256 + a, b);
    DivModUnique(q * 256 + a, 256, q, a);
    DivModUnique(x, 65536, (q * 256 + a) * 256 + c, d);
    DivModUnique((q * 256 + a) * 256 + c, 256, q * 256 + a, c);
    DivModUnique(x, 256, ((q * 256 + a) * 256 + c) * 256 + d / 256, d % 256);
    DivModUnique(((q * 256 + a) * 256 + c) * 256 + d / 256, 256, (q * 256 + a) * 256 + c, d / 256);
  }

  function FromLittleEndian(s: seq<Byte>): nat {
    if s == [] then 0 else s[0] + 256 * FromLittleEndian(s[1..])
  }

  function Pow256(n: nat): (p: nat)
    ensures p > 0
  {
    if n == 0 then 1 else 256 * Pow256(n - 1)
  }

  /** Copying the low `width` bytes of a counter keeps exactly its residue modulo 256^width. */
  lemma {:induction false} LittleEndianRoundTrip(width: nat, x: nat)
    ensures FromLittleEndian(LittleEndian(width, x)) == x % Pow256(width)
  {
    if width > 0 {
      LittleEndianRoundTrip(width - 1, x / 256);
      var p := Pow256(width - 1);
      ModSplit(x, p);
    }
  }

  /** Two counters leave the same bytes exactly when they agree modulo 256^width. */
  lemma {:induction false} LittleEndianInjective(width: nat, x: nat, y: nat)
    ensures LittleEndian(width, x) == LittleEndian(width, y) <==> x % Pow256(width) == y % Pow256(width)
  {
    LittleEndianRoundTrip(width, x);
    LittleEndianRoundTrip(width, y);
    if x % Pow256(width) == y % Pow256(width) { LittleEndianOfResidue(width, x, y); }
  }

  lemma {:induction false} LittleEndianOfResidue(width: nat, x: nat, y: nat)
    requires x % Pow256(width) == y % Pow256(width)
    ensures LittleEndian(width, x) == LittleEndian(width, y)
  {
    if width > 0 {
      ModSplit(x, Pow256(width - 1));
      ModSplit(y, Pow256(width - 1));
      LittleEndianOfResidue(width - 1, x / 256, y / 256);
    }
  }

  lemma ModSplit(x: nat, p: nat)
    requires p > 0
    ensures x % 256 + 256 * (x / 256 % p) == x % (256 * p)
  {
    var q := x / 256;
    var r := x % 256 + 256 * (q % p);
    assert q == q / p * p + q % p;
    assert x == q / p * (256 * p) + r by {
      assert 256 * (q / p * p) == q / p * (256 * p);
    }
    assert 0 <= r < 256 * p;
    DivModUnique(x, 256 * p, q / p, r);
  }

  lemma DivModUnique(x: int, m: int, q: int, r: int)
    requires m > 0 && 0 <= r < m && x == q * m + r
    ensures x / m == q && x % m == r
  {
    var q', r' := x / m, x % m;
    EuclidUnique(m, q, r, q', r');
  }

  lemma DivParts(a: int, m: int)
    requires m > 0
    ensures a == a / m * m + a % m
  {
  }

  lemma QuotientNonNegative(a: nat, m: nat)
    requires m > 0
    ensures a / m >= 0
  {
  }

  lemma EuclidUnique(m: int, q: int, r: int, q': int, r': int)
    requires 0 <= r < m && 0 <= r' < m
    requires q * m + r == q' * m + r'
    ensures q == q' && r == r'
  {
    if q > q' {
      StrideStep(m, q', q);
    } else if q < q' {
      StrideStep(m, q, q');
    }
  }

  /** Consecutive multiples of `m` are at least `m` apart. */
  lemma {:induction false} StrideStep(m: nat, i: int, j: int)
    requires i < j
    ensures i * m + m <= j * m
    decreases j - i
  {
    NextMultiple(j - 1, m);
    if i < j - 1 { StrideStep(m, i, j - 1); }
  }

  lemma NextMultiple(k: int, m: int)
    ensures (k + 1) * m == k * m + m
  {
  }

  lemma {:induction false} NonNegative(a: nat, b: nat)
    ensures a * b >= 0
  {
    if a > 0 {
      NonNegative(a - 1, b);
      NextMultiple(a - 1, b);
    }
  }

  lemma ProductAtMost(a: int, a': int, b: nat, b': nat)
    requires a <= a' && b <= b' && a' >= 0
    ensures a * b <= a' * b'
  {
    if a < a' { StrideStep(b, a, a'); }
    if b < b' { StrideStep(a', b, b'); }
  }

  lemma Distribute(x: int, a: int, b: int)
    ensures x * (a + b) == x * a + x * b
  {
  }

  lemma Distribute2(i: int, j: int, b: int)
    ensures i * b - j * b == (i - j) * b
  {
  }
}
