/** Definitions shared by every part of the UniGif model: bytes, optional
    values (the C# `null`), the run-time exceptions that escape the decoder,
    and the little-endian integer reads of `BitConverter`. */
module Common {

  /** A C# `byte`. */
  type byte = x: int | 0 <= x < 256

  /** A C# reference that may be `null`, or a `T?` nullable struct. */
  datatype Option<T> = None | Some(value: T)

  /** The run-time exceptions that the decoder can raise and does not catch. */
  datatype Fault =
    | IndexOutOfRange   // array or list index past the end
    | NullReference     // member access on a null list
    | Overflow          // `new byte[n]` with a negative n

  /** 2^n. */
  function Pow2(n: nat): (p: nat)
    ensures p >= 1
  {
    if n == 0 then 1 else 2 * Pow2(n - 1)
  }

  lemma {:induction false} Pow2Add(a: nat, b: nat)
    ensures Pow2(a + b) == Pow2(a) * Pow2(b)
  {
    if a > 0 {
      Pow2Add(a - 1, b);
    }
  }

  lemma {:induction false} Pow2Monotone(a: nat, b: nat)
    requires a <= b
    ensures Pow2(a) <= Pow2(b)
  {
    if a < b {
      Pow2Monotone(a, b - 1);
    }
  }

  lemma Pow2Of31()
    ensures Pow2(8) == 256 && Pow2(16) == 65536 && Pow2(31) == 0x8000_0000
  {
    assert Pow2(4) == 16;
    assert Pow2(8) == 256 by { Pow2Add(4, 4); }
    assert Pow2(16) == 65536 by { Pow2Add(8, 8); }
    assert Pow2(12) == 4096 by { Pow2Add(8, 4); }
    assert Pow2(15) == 32768 by { Pow2Add(12, 3); }
    assert Pow2(31) == 0x8000_0000 by { Pow2Add(16, 15); }
  }

  /** `BitConverter.ToUInt16(b, i)`: two bytes, little-endian. It throws
      unless both bytes exist, so callers check `i + 1 < |b|` first. */
  function ToUInt16(b: seq<byte>, i: nat): (v: nat)
    requires i + 1 < |b|
    ensures v < 65536
    ensures v % 256 == b[i] && v / 256 == b[i + 1]
  {
    (b[i] as int) + 256 * (b[i + 1] as int)
  }
}
