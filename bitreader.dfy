/** The bit reader of UniGifExtension.cs: `GetNumeral` reads `bitLength`
    bits of a `BitArray`, least significant bit first, from any bit offset,
    reading bits past the end as 0; `ToNumeral` turns at most 32 bits into
    a (signed) C# `int`. */
module BitReader {
  import opened Common

  /** `new BitArray(bytes)`: bit k is bit (k % 8) of byte k / 8. */
  function BitsOf(bytes: seq<byte>): seq<bool>
  {
    seq(8 * |bytes|, k requires 0 <= k < 8 * |bytes| => (bytes[k / 8] / Pow2(k % 8)) % 2 == 1)
  }

  /** Bit k as a number, 0 past the end of the array. */
  function BitAt(bits: seq<bool>, k: nat): nat
  {
    if k < |bits| && bits[k] then 1 else 0
  }

  /** Sum of BitAt(bits, s + i) * 2^i for i < n. */
  function BitsValue(bits: seq<bool>, s: nat, n: nat): nat
  {
    if n == 0 then 0 else BitsValue(bits, s, n - 1) + BitAt(bits, s + n - 1) * Pow2(n - 1)
  }

  /** The C# `int` whose 32-bit two's complement pattern is v. */
  function Int32Of(v: nat): int
  {
    if v >= 0x8000_0000 then v - 0x1_0000_0000 else v
  }

  /** What `GetNumeral(bits, s, n)` returns. */
  function Numeral(bits: seq<bool>, s: nat, n: nat): int
  {
    if n > 32 then 0 else Int32Of(BitsValue(bits, s, n))
  }

  /** `ToNumeral`: 0 for a null array or one longer than 32 bits; otherwise
      `CopyTo(int[])`, which puts bit i of the array in bit i of the int. */
  method ToNumeral(bitArray: Option<seq<bool>>) returns (r: int)
    ensures bitArray.None? ==> r == 0
    ensures bitArray.Some? && |bitArray.value| > 32 ==> r == 0
    ensures bitArray.Some? && |bitArray.value| <= 32 ==> r == Int32Of(BitsValue(bitArray.value, 0, |bitArray.value|))
  {
    if bitArray.None? {
      return 0;
    }
    var a := bitArray.value;
    if |a| > 32 {
      return 0;
    }
    var acc := 0;
    var weight := 1;
    var i := 0;
    while i < |a|
      invariant 0 <= i <= |a|
      invariant weight == Pow2(i)
      invariant acc == BitsValue(a, 0, i)
    {
      if a[i] {
        acc := acc + weight;
      }
      weight := weight * 2;
      i := i + 1;
    }
    r := if acc >= 0x8000_0000 then acc - 0x1_0000_0000 else acc;
  }

  /** `GetNumeral`: copies the window into a fresh bit array of length
      `bitLength`, zero past the end of `bitArray`, and converts it. */
  method GetNumeral(bitArray: seq<bool>, startIndex: nat, bitLength: nat) returns (r: int)
    ensures r == Numeral(bitArray, startIndex, bitLength)
    ensures bitLength > 32 ==> r == 0
    ensures 1 <= bitLength <= 31 ==> 0 <= r < Pow2(bitLength)
  {
    var newArray := new bool[bitLength];
    for i := 0 to bitLength
      invariant forall j :: 0 <= j < i ==> newArray[j] == (startIndex + j < |bitArray| && bitArray[startIndex + j])
    {
      if |bitArray| <= startIndex + i {
        newArray[i] := false;
      } else {
        var bit := bitArray[startIndex + i];
        newArray[i] := bit;
      }
    }
    WindowValue(bitArray, startIndex, newArray[..], bitLength);
    r := ToNumeral(Some(newArray[..]));
    if 1 <= bitLength <= 31 {
      NumeralBound(bitArray, startIndex, bitLength);
    }
  }

  /** Copying the window to offset 0 keeps its value. */
  lemma {:induction false} WindowValue(bits: seq<bool>, s: nat, w: seq<bool>, n: nat)
    requires |w| == n
    requires forall j :: 0 <= j < n ==> w[j] == (s + j < |bits| && bits[s + j])
    ensures BitsValue(w, 0, n) == BitsValue(bits, s, n)
  {
    forall j: nat | j < n
      ensures WindowBit(bits, s, j) == WindowBit(w, 0, j)
    {
      assert w[j] == (s + j < |bits| && bits[s + j]);
    }
    ReadsOnlyWindow(bits, s, w, 0, n);
  }

  /** Bit j of the window that starts at s. */
  function WindowBit(bits: seq<bool>, s: nat, j: nat): nat
  {
    BitAt(bits, s + j)
  }

  /** The value depends only on the n bits at offsets s .. s + n - 1:
      two arrays that agree there (past-the-end bits counting as 0) give
      the same value. */
  lemma {:induction false} ReadsOnlyWindow(a: seq<bool>, s: nat, b: seq<bool>, t: nat, n: nat)
    requires forall j: nat :: j < n ==> WindowBit(a, s, j) == WindowBit(b, t, j)
    ensures BitsValue(a, s, n) == BitsValue(b, t, n)
  {
    if n > 0 {
      ReadsOnlyWindow(a, s, b, t, n - 1);
      assert WindowBit(a, s, n - 1) == WindowBit(b, t, n - 1);
    }
  }

  /** Same array, same window: the result of GetNumeral is determined by
      the bits inside the window alone. */
  lemma NumeralReadsOnlyWindow(a: seq<bool>, b: seq<bool>, s: nat, n: nat)
    requires forall k :: s <= k < s + n ==> BitAt(a, k) == BitAt(b, k)
    ensures Numeral(a, s, n) == Numeral(b, s, n)
  {
    forall j: nat | j < n
      ensures WindowBit(a, s, j) == WindowBit(b, s, j)
    {
      assert s <= s + j < s + n;
    }
    ReadsOnlyWindow(a, s, b, s, n);
  }

  lemma {:induction false} BitsValueBound(bits: seq<bool>, s: nat, n: nat)
    ensures BitsValue(bits, s, n) < Pow2(n)
  {
    if n > 0 {
      BitsValueBound(bits, s, n - 1);
    }
  }

  /** For 1 <= n <= 31 the result is an n-bit unsigned number. */
  lemma NumeralBound(bits: seq<bool>, s: nat, n: nat)
    requires 1 <= n <= 31
    ensures 0 <= Numeral(bits, s, n) < Pow2(n)
  {
    BitsValueBound(bits, s, n);
    Pow2Monotone(n, 31);
    Pow2Of31();
  }

  lemma {:induction false} ValuePastEnd(bits: seq<bool>, s: nat, n: nat)
    requires s >= |bits|
    ensures BitsValue(bits, s, n) == 0
  {
    if n > 0 {
      ValuePastEnd(bits, s, n - 1);
    }
  }

  /** A read that starts at or past the end of the array returns 0. */
  lemma NumeralPastEnd(bits: seq<bool>, s: nat, n: nat)
    requires s >= |bits|
    ensures Numeral(bits, s, n) == 0
  {
    ValuePastEnd(bits, s, n);
  }

  lemma {:induction false} ValuePadded(bits: seq<bool>, s: nat, n: nat, m: nat)
    requires s + m == |bits| && m <= n
    ensures BitsValue(bits, s, n) == BitsValue(bits, s, m)
  {
    if n > m {
      ValuePadded(bits, s, n - 1, m);
    }
  }

  /** A read that runs past the end is zero-padded: it equals the read of
      only the bits that exist. */
  lemma NumeralPadded(bits: seq<bool>, s: nat, n: nat)
    requires s <= |bits| < s + n <= 32 + s
    ensures Numeral(bits, s, n) == Numeral(bits, s, |bits| - s)
  {
    ValuePadded(bits, s, n, |bits| - s);
  }

  /** The n bits at offset s replaced by v, least significant bit first. */
  function WriteBits(bits: seq<bool>, s: nat, n: nat, v: nat): (w: seq<bool>)
    ensures |w| == |bits|
  {
    seq(|bits|, k requires 0 <= k < |bits| => if s <= k < s + n then (v / Pow2(k - s)) % 2 == 1 else bits[k])
  }

  /** Division by d > 0 has a unique quotient and remainder. */
  lemma DivModUnique(v: int, d: int, q: int, r: int)
    requires d > 0 && v == d * q + r && 0 <= r < d
    ensures v / d == q && v % d == r
  {
    var q', r' := v / d, v % d;
    assert d * (q - q') == r' - r;
    if q > q' {
      MulAtLeast(d, q - q');
    } else if q < q' {
      MulAtLeast(d, q' - q);
    }
  }

  lemma SmallMod(v: nat, d: nat)
    requires v < d
    ensures v % d == v
  {
    DivModUnique(v, d, 0, v);
  }

  lemma MulAtLeast(d: int, k: int)
    requires d > 0 && k >= 1
    ensures d * k >= d
  {
  }

  /** v % 2^(m+1) splits into v % 2^m and bit m of v. */
  lemma ModSplit(v: nat, m: nat)
    ensures v % Pow2(m + 1) == v % Pow2(m) + ((v / Pow2(m)) % 2) * Pow2(m)
  {
    var p := Pow2(m);
    var a := v / p;
    var b := a % 2;
    var t := v % p;
    assert v == p * a + t;
    assert a == 2 * (a / 2) + b;
    assert p * a == (2 * p) * (a / 2) + b * p;
    DivModUnique(v, 2 * p, a / 2, b * p + t);
  }

  lemma {:induction false} WrittenValue(bits: seq<bool>, s: nat, n: nat, v: nat, m: nat)
    requires s + n <= |bits| && m <= n
    ensures BitsValue(WriteBits(bits, s, n, v), s, m) == v % Pow2(m)
  {
    if m > 0 {
      WrittenValue(bits, s, n, v, m - 1);
      var w := WriteBits(bits, s, n, v);
      assert w[s + m - 1] == ((v / Pow2(m - 1)) % 2 == 1);
      ModSplit(v, m - 1);
    }
  }

  /** Round trip: v < 2^n written LSB-first at any bit offset s (aligned or
      not) reads back as v. */
  lemma NumeralRoundTrip(bits: seq<bool>, s: nat, n: nat, v: nat)
    requires 1 <= n <= 31 && s + n <= |bits| && v < Pow2(n)
    ensures Numeral(WriteBits(bits, s, n, v), s, n) == v
  {
    var w := WriteBits(bits, s, n, v);
    assert BitsValue(w, s, n) == v by {
      WrittenValue(bits, s, n, v, n);
      SmallMod(v, Pow2(n));
    }
    assert v < 0x8000_0000 by {
      Pow2Monotone(n, 31);
      Pow2Of31();
    }
  }
}
