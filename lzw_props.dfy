/** Properties of the LZW decompressor model: the dictionary's shape, the
    clear and end codes, the handling of codes at or past Count, the code
    width, the output framing and the overrun of the output array. */
module LzwProps {
  import opened Common
  import opened BitReader
  import opened Lzw

  /** The start of decoding: 2^m + 2 one-symbol strings, codes 0 .. 2^m - 1
      standing for themselves, read at width m + 1, nothing written. */
  lemma InitialDictionary(m: nat)
    requires m <= 8
    ensures |Initial(m).dic| == ClearCode(m) + 2
    ensures forall k :: 0 <= k < ClearCode(m) ==> k in Initial(m).dic && |Initial(m).dic[k]| == 1 && Initial(m).dic[k][0] as int == k
    ensures Initial(m).codeSize == m + 1 && Initial(m).prev.None? && Initial(m).out == []
  {
    var dic := Initial(m).dic;
    Pow2Monotone(m, 8);
    Pow2Of31();
    forall k | 0 <= k < ClearCode(m)
      ensures k in dic && |dic[k]| == 1 && dic[k][0] as int == k
    {
      assert dic[k] == [k % 256];
      SmallMod(k, 256);
    }
  }

  /** The key read at the top of a pass. */
  function KeyAt(bits: seq<bool>, m: nat, s: LzwState): int
  {
    Numeral(bits, Reset(m, s).bitIndex, Reset(m, s).codeSize)
  }

  /** A clear code forgets the previous string and schedules a
      re-initialisation, which on the next pass restores the initial
      dictionary and width. */
  lemma ClearCodeResets(bits: seq<bool>, m: nat, need: int, s: LzwState)
    requires Valid(m, need, s) && s.bitIndex < |bits| && KeyAt(bits, m, s) == ClearCode(m)
    ensures var r := LzwStep(bits, m, need, s);
      && r.Continue? && r.next.prev.None? && r.next.out == s.out
      && Reset(m, r.next).dic == Initial(m).dic && Reset(m, r.next).codeSize == m + 1
  {
    var r := LzwStep(bits, m, need, s);
    assert r == Continue(Reset(m, s).(initFlag := true, bitIndex := s.bitIndex + Reset(m, s).codeSize, prev := None));
  }

  /** The end code stops decoding with the bytes written so far. */
  lemma EndCodeStops(bits: seq<bool>, m: nat, need: int, s: LzwState)
    requires Valid(m, need, s) && s.bitIndex < |bits| && KeyAt(bits, m, s) == EndCode(m)
    ensures LzwRun(bits, m, need, s) == Written(s.out)
  {
    assert ClearCode(m) != EndCode(m);
    RunOnEnd(bits, m, need, s);
  }

  /** Any code at or past Count, not only Count itself, stands for the
      previous string plus its first symbol. */
  lemma CodePastCount(m: nat, need: int, t: LzwState, key: int)
    requires Valid(m, need, t) && key >= |t.dic| && t.prev.Some?
    ensures EntryFor(t, key) == Some(t.prev.value + [t.prev.value[0]])
  {
    assert key !in t.dic;
  }

  /** Because the keys are always exactly 0 .. Count - 1, a non-negative
      code is skipped only when it is at or past Count with no previous
      string: the last skip branch of the source is never taken. */
  lemma SkipOnlyWithoutPrevious(m: nat, need: int, t: LzwState, key: int)
    requires Valid(m, need, t) && key >= 0
    ensures EntryFor(t, key).None? <==> key >= |t.dic| && t.prev.None?
  {
    if key < |t.dic| {
      assert key in t.dic;
    }
  }

  /** A code read at widths up to 31 is never negative. */
  lemma KeyNonNegative(bits: seq<bool>, m: nat, need: int, s: LzwState)
    requires Valid(m, need, s) && m <= 30
    ensures KeyAt(bits, m, s) >= 0
  {
    ResetValid(m, need, s);
    NumeralBound(bits, Reset(m, s).bitIndex, Reset(m, s).codeSize);
  }

  /** Each pass keeps the width or widens it by one, the latter only when
      the dictionary has reached 2^width entries; the width never exceeds
      12 for m <= 11. */
  lemma WidthGrowth(bits: seq<bool>, m: nat, need: int, s: LzwState)
    requires Valid(m, need, s) && s.bitIndex < |bits|
    requires LzwStep(bits, m, need, s).Continue?
    ensures var t := Reset(m, s); var u := LzwStep(bits, m, need, s).next;
      && (u.codeSize == t.codeSize || (u.codeSize == t.codeSize + 1 && |u.dic| >= Pow2(t.codeSize)))
      && (m <= 11 ==> u.codeSize <= 12)
  {
    var t := Reset(m, s);
    ResetValid(m, need, s);
    var key := Numeral(bits, t.bitIndex, t.codeSize);
    if key != ClearCode(m) && key != EndCode(m) && EntryFor(t, key).Some? {
      var entry := EntryFor(t, key).value;
      EntryNonEmpty(m, need, t, key);
      assert LzwStep(bits, m, need, s).next == AfterEntry(bits, m, t, entry);
    }
  }

  /** At width 12 with a full dictionary the decoder resets unless the
      next code is a clear code; unlike a clear code, this forced reset
      keeps the previous string. */
  lemma ForcedResetKeepsPrevious(bits: seq<bool>, m: nat, t: LzwState, entry: seq<byte>)
    requires |entry| >= 1 && t.codeSize == 12
    requires var dic := if t.prev.Some? then t.dic[|t.dic| := t.prev.value + [entry[0]]] else t.dic;
      |dic| >= 4096
    ensures var u := AfterEntry(bits, m, t, entry);
      u.initFlag <==> Numeral(bits, t.bitIndex + 12, 12) != ClearCode(m)
    ensures AfterEntry(bits, m, t, entry).prev == Some(entry)
  {
  }

  /** Every pass that goes on moves the cursor by the current width, so
      decoding ends. */
  lemma PassAdvances(bits: seq<bool>, m: nat, need: int, s: LzwState)
    requires Valid(m, need, s) && s.bitIndex < |bits|
    requires LzwStep(bits, m, need, s).Continue?
    ensures LzwStep(bits, m, need, s).next.bitIndex >= s.bitIndex + m + 1
  {
    ResetValid(m, need, s);
  }

  /** A negative size (a width times height past 2^31 - 1) fails to
      allocate the output, whatever the data. */
  lemma NegativeSizeFails(compData: seq<byte>, m: nat, need: int)
    ensures need < 0 <==> Decompress(compData, m, need) == LzwFault(Overflow)
  {
    if need >= 0 {
      InitialValid(m, need);
    }
  }

  /** The decoded data has exactly `need` bytes: first the bytes the run
      wrote, then zeros. */
  lemma OutputFraming(compData: seq<byte>, m: nat, need: nat)
    ensures var r := LzwRun(BitsOf(compData), m, need, Initial(m));
      && (r.Overran? <==> Decompress(compData, m, need) == LzwFault(IndexOutOfRange))
      && (r.Written? ==>
            && Decompress(compData, m, need).Output?
            && |Decompress(compData, m, need).data| == need
            && Decompress(compData, m, need).data[..|r.out|] == r.out
            && forall k :: |r.out| <= k < need ==> Decompress(compData, m, need).data[k] == 0)
  {
    InitialValid(m, need);
    var r := LzwRun(BitsOf(compData), m, need, Initial(m));
    if r.Written? {
      var d := r.out + Zeros(need - |r.out|);
      assert Decompress(compData, m, need) == Output(d);
      assert d[..|r.out|] == r.out;
    }
  }

  /** An entry that overshoots the output is still written, past the end
      of the array: with m = 2 and room for 2 bytes, the byte 0x30 holds
      the 3-bit codes 0 and 6; code 6 (Count) stands for [0, 0], and
      writing its second byte overruns. (The inputs are parameters pinned
      by the precondition, so that the verifier does not evaluate the
      definitions on literals.) */
  lemma OvershootThrows(data: seq<byte>, m: nat, need: nat)
    requires data == [0x30] && m == 2 && need == 2
    ensures Decompress(data, m, need) == LzwFault(IndexOutOfRange)
  {
    var bits := BitsOf(data);
    CodesOf0x30(data, bits);
    var s1 := LzwState(Initial(m).dic, m + 1, Some([0]), false, m + 1, [0]);
    FirstCodeOf0x30(bits, m, need, s1);
    SecondCodeOf0x30(bits, m, need, s1);
  }

  /** The byte 0x30 read LSB-first as 3-bit codes: 0, then 6. */
  lemma CodesOf0x30(data: seq<byte>, bits: seq<bool>)
    requires data == [0x30] && bits == BitsOf(data)
    ensures |bits| == 8 && Numeral(bits, 0, 3) == 0 && Numeral(bits, 3, 3) == 6
  {
    assert Pow2(1) == 2 && Pow2(2) == 4 && Pow2(3) == 8 && Pow2(4) == 16 && Pow2(5) == 32;
    assert !bits[0] && !bits[1] && !bits[2] && !bits[3] && bits[4] && bits[5];
    assert BitsValue(bits, 0, 1) == 0 && BitsValue(bits, 0, 2) == 0 && BitsValue(bits, 0, 3) == 0;
    assert BitsValue(bits, 3, 1) == 0 && BitsValue(bits, 3, 2) == 2 && BitsValue(bits, 3, 3) == 6;
  }

  /** Code 0 writes [0]; with no previous string nothing is added. */
  lemma FirstCodeOf0x30(bits: seq<bool>, m: nat, need: nat, s1: LzwState)
    requires m == 2 && need == 2 && |bits| == 8 && Numeral(bits, 0, 3) == 0
    requires s1 == LzwState(Initial(m).dic, m + 1, Some([0]), false, m + 1, [0])
    ensures Valid(m, need, Initial(m)) && Valid(m, need, s1)
    ensures LzwRun(bits, m, need, Initial(m)) == LzwRun(bits, m, need, s1)
  {
    var s0 := Initial(m);
    InitialValid(m, need);
    assert Pow2(m) == 4;
    assert |s0.dic| == 6 && s0.codeSize == 3 && s0.bitIndex == 0;
    assert Reset(m, s0) == s0;
    assert EntryFor(s0, 0) == Some([0]) by {
      assert 0 in s0.dic && s0.dic[0] == [0];
    }
    RunOnEntry(bits, m, need, s0, [0]);
    assert AfterEntry(bits, m, s0, [0]) == s1 by {
      assert Pow2(3) == 8;
    }
  }

  /** Code 6 = Count stands for the previous string plus its first symbol,
      [0, 0], which does not fit in the one byte left. */
  lemma SecondCodeOf0x30(bits: seq<bool>, m: nat, need: nat, s1: LzwState)
    requires m == 2 && need == 2 && |bits| == 8 && Numeral(bits, 3, 3) == 6
    requires s1 == LzwState(Initial(m).dic, m + 1, Some([0]), false, m + 1, [0])
    ensures Valid(m, need, s1) && LzwRun(bits, m, need, s1) == Overran
  {
    assert Pow2(m) == 4;
    assert Valid(m, need, s1) by {
      InitialValid(m, need);
    }
    assert Reset(m, s1) == s1;
    assert EntryFor(s1, 6) == Some([0, 0]) by {
      assert 6 !in s1.dic && |s1.dic| == 6;
      assert s1.prev.value + [s1.prev.value[0]] == [0, 0];
    }
    RunOnEntry(bits, m, need, s1, [0, 0]);
  }
}
