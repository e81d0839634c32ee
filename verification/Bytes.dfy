/** Byte strings, Python slicing, `struct` integers and hexadecimal text. */
module Bytes {
  import opened Results

  type Byte = b: int | 0 <= b < 256
  type Bytes = seq<Byte>

  // ----- Python slices -----

  function Min(a: nat, b: nat): nat {
    if a < b then a else b
  }

  /** `s[lo:hi]` in Python: bounds past the end are clamped and never an error. */
  function Slice<T>(s: seq<T>, lo: nat, hi: nat): seq<T> {
    s[Min(lo, Min(hi, |s|))..Min(hi, |s|)]
  }

  /** `s[lo:]` in Python. */
  function From<T>(s: seq<T>, lo: nat): seq<T> {
    s[Min(lo, |s|)..]
  }

  /** `s[lo:-n]` in Python; for `n` zero the upper bound is the start. */
  function SliceEnd<T>(s: seq<T>, lo: nat, n: nat): seq<T> {
    Slice(s, lo, if n == 0 || n > |s| then 0 else |s| - n)
  }

  /** A slice holds the elements whose position is within its bounds, in order. */
  lemma SliceHolds<T>(s: seq<T>, lo: nat, hi: nat)
    ensures lo < hi <= |s| ==> |Slice(s, lo, hi)| == hi - lo
    ensures hi > |s| ==> Slice(s, lo, hi) == From(s, lo)
    ensures hi <= lo ==> Slice(s, lo, hi) == []
    ensures forall k :: 0 <= k < |Slice(s, lo, hi)| ==> Slice(s, lo, hi)[k] == s[lo + k]
  {
  }

  lemma FromHolds<T>(s: seq<T>, lo: nat)
    ensures if lo <= |s| then s == s[..lo] + From(s, lo) else From(s, lo) == []
  {
  }

  lemma SliceEndHolds<T>(s: seq<T>, lo: nat, n: nat)
    ensures if 0 < n <= |s| - lo then SliceEnd(s, lo, n) + s[|s| - n..] == s[lo..] else SliceEnd(s, lo, n) == []
  {
    if 0 < n <= |s| - lo {
      assert SliceEnd(s, lo, n) == s[lo..|s| - n];
      hide *;
      assert s[lo..|s| - n] + s[|s| - n..] == s[lo..];
    }
  }

  /** `s[-n:]` in Python, for a positive `n`. */
  function Suffix<T>(s: seq<T>, n: nat): seq<T> {
    if n >= |s| then s else s[|s| - n..]
  }

  /** `part` stands in `s` at position `i`. */
  predicate At<T(==)>(s: seq<T>, i: nat, part: seq<T>) {
    i + |part| <= |s| && s[i..i + |part|] == part
  }

  lemma AtSplit<T>(s: seq<T>, i: nat, p: seq<T>, q: seq<T>)
    requires At(s, i, p + q)
    ensures At(s, i, p) && At(s, i + |p|, q)
  {
    var w := s[i..i + |p| + |q|];
    assert w == p + q;
    assert s[i..i + |p|] == w[..|p|];
    assert s[i + |p|..i + |p| + |q|] == w[|p|..];
  }

  /** `n` copies of a byte; Python's `b"x" * n` is empty for a negative `n`. */
  function Repeat(b: Byte, n: int): (r: Bytes)
    ensures |r| == if n < 0 then 0 else n
    ensures forall i :: 0 <= i < |r| ==> r[i] == b
  {
    seq(if n < 0 then 0 else n, _ => b)
  }

  // ----- Digits -----

  function Pow(base: nat, n: nat): nat {
    if n == 0 then 1 else base * Pow(base, n - 1)
  }

  /** Value of a digit sequence, most significant digit first. */
  function Value(base: nat, s: seq<int>): int {
    if |s| == 0 then 0 else base * Value(base, s[..|s| - 1]) + s[|s| - 1]
  }

  ghost predicate Digits(base: nat, s: seq<int>) {
    forall i :: 0 <= i < |s| ==> 0 <= s[i] < base
  }

  lemma {:induction false} ValueRange(base: nat, s: seq<int>)
    requires Digits(base, s)
    ensures 0 <= Value(base, s) < Pow(base, |s|)
  {
    if |s| > 0 {
      var init := s[..|s| - 1];
      ValueRange(base, init);
      AppendDigit(base, Value(base, init), s[|s| - 1], Pow(base, |init|));
    }
  }

  lemma AppendDigit(base: nat, v: int, digit: int, bound: int)
    requires 0 <= v < bound && 0 <= digit < base
    ensures 0 <= base * v + digit < base * bound
  {
    calc {
      base * v + digit;
    <
      base * v + base;
    ==
      base * (v + 1);
    <= { MulAtMost(base, v + 1, bound); }
      base * bound;
    }
    MulAtMost(base, 0, v);
  }

  lemma MulAtMost(base: nat, x: int, y: int)
    requires x <= y
    ensures base * x <= base * y
  {
  }

  // ----- Fixed-width integers, as `struct` packs them -----

  /** Big-endian bytes of `n`, `w` of them. */
  function BE(n: nat, w: nat): (r: Bytes)
    ensures |r| == w
  {
    if w == 0 then [] else BE(n / 256, w - 1) + [n % 256]
  }

  /** Little-endian bytes of `n`, `w` of them. */
  function LE(n: nat, w: nat): (r: Bytes)
    ensures |r| == w
  {
    if w == 0 then [] else [n % 256] + LE(n / 256, w - 1)
  }

  function FromBE(s: Bytes): (n: nat)
  {
    ValueRange(256, s);
    Value(256, s)
  }

  function FromLE(s: Bytes): nat {
    if |s| == 0 then 0 else s[0] + 256 * FromLE(s[1..])
  }

  /** `struct.pack` of an unsigned field: an integer too large is an error. */
  function PackBE(n: nat, w: nat): Result<Bytes> {
    if n < Pow(256, w) then Ok(BE(n, w)) else Err(StructError)
  }

  function PackLE(n: nat, w: nat): Result<Bytes> {
    if n < Pow(256, w) then Ok(LE(n, w)) else Err(StructError)
  }

  /** `struct.unpack` of one unsigned field: the slice must have exactly `w` bytes. */
  function UnpackBE(s: Bytes, w: nat): Result<nat> {
    if |s| == w then Ok(FromBE(s)) else Err(StructError)
  }

  function UnpackLE(s: Bytes, w: nat): Result<nat> {
    if |s| == w then Ok(FromLE(s)) else Err(StructError)
  }

  lemma Widths()
    ensures Pow(256, 1) == 0x100
    ensures Pow(256, 2) == 0x1_0000
    ensures Pow(256, 4) == 0x1_0000_0000
  {
    assert Pow(256, 3) == 0x100_0000;
  }

  /** The first of two bytes is the high one, or the low one. */
  lemma TwoBytes(a: Byte, b: Byte)
    ensures UnpackBE([a, b], 2) == Ok(256 * a + b)
    ensures UnpackLE([a, b], 2) == Ok(a + 256 * b)
    ensures UnpackBE([a], 2) == UnpackLE([a], 2) == UnpackBE([], 2) == UnpackLE([], 2) == Err(StructError)
  {
    assert [a, b][..1] == [a] && [a][..0] == [];
    assert [a, b][1..] == [b] && [b][1..] == [];
    assert Value(256, [a]) == 256 * Value(256, []) + a;
    assert FromLE([b]) == b;
  }

  /** A field is packed when its bytes can hold it, and read back then. */
  lemma PackedIff(n: nat, w: nat)
    ensures (exists b: Bytes :: |b| == w && FromBE(b) == n) <==> PackBE(n, w).Ok?
    ensures (exists b: Bytes :: |b| == w && FromLE(b) == n) <==> PackLE(n, w).Ok?
    ensures PackBE(n, w).Err? ==> PackBE(n, w) == PackLE(n, w) == Err(StructError)
    ensures PackBE(n, w).Ok? ==> UnpackBE(PackBE(n, w).value, w) == Ok(n)
    ensures PackLE(n, w).Ok? ==> UnpackLE(PackLE(n, w).value, w) == Ok(n)
  {
    if n < Pow(256, w) {
      BERoundTrip(n, w);
      LERoundTrip(n, w);
    }
    forall b: Bytes | |b| == w ensures FromBE(b) < Pow(256, w) && FromLE(b) < Pow(256, w) {
      BEUnique(b);
      LEUnique(b);
    }
  }

  lemma {:induction false} BERoundTrip(n: nat, w: nat)
    requires n < Pow(256, w)
    ensures FromBE(BE(n, w)) == n
  {
    if w > 0 {
      BERoundTrip(n / 256, w - 1);
      var r := BE(n, w);
      assert r[..|r| - 1] == BE(n / 256, w - 1);
    }
  }

  lemma {:induction false} BEUnique(s: Bytes)
    ensures FromBE(s) < Pow(256, |s|)
    ensures BE(FromBE(s), |s|) == s
  {
    ValueRange(256, s);
    if |s| > 0 {
      BEUnique(s[..|s| - 1]);
      assert s == s[..|s| - 1] + [s[|s| - 1]];
    }
  }

  lemma {:induction false} LERoundTrip(n: nat, w: nat)
    requires n < Pow(256, w)
    ensures FromLE(LE(n, w)) == n
  {
    if w > 0 {
      LERoundTrip(n / 256, w - 1);
      assert LE(n, w)[1..] == LE(n / 256, w - 1);
    }
  }

  lemma {:induction false} LEUnique(s: Bytes)
    ensures FromLE(s) < Pow(256, |s|)
    ensures LE(FromLE(s), |s|) == s
  {
    if |s| > 0 {
      LEUnique(s[1..]);
      LowDigit(s[0], FromLE(s[1..]), Pow(256, |s| - 1));
      assert s == [s[0]] + s[1..];
    }
  }

  lemma LowDigit(digit: Byte, v: nat, bound: nat)
    requires v < bound
    ensures (digit + 256 * v) % 256 == digit && (digit + 256 * v) / 256 == v
    ensures digit + 256 * v < 256 * bound
  {
  }

  /** Reading little-endian is reading the reversed bytes big-endian. */
  lemma {:induction false} LittleIsReversedBig(s: Bytes)
    ensures FromLE(s) == FromBE(Reverse(s))
  {
    if |s| > 0 {
      LittleIsReversedBig(s[1..]);
      var r := Reverse(s);
      assert r[..|r| - 1] == Reverse(s[1..]);
    }
  }

  function Reverse<T>(s: seq<T>): (r: seq<T>)
    ensures |r| == |s|
    ensures forall i :: 0 <= i < |s| ==> r[i] == s[|s| - 1 - i]
  {
    seq(|s|, i requires 0 <= i < |s| => s[|s| - 1 - i])
  }
}
