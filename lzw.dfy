/** The LZW decompressor of UniGifDecoder.cs (`DecodeGifLZW` and
    `InitDictionary`): variable-length codes read LSB-first from the
    concatenated image data, a dictionary from code to symbol string with
    a clear code 2^m and an end code 2^m + 1, and code widths growing from
    m + 1 up to 12 bits (Appendix F of the GIF89a specification).

    The source keeps dictionary strings as C# strings whose characters are
    the codes 0 .. 2^m + 1 and writes the low byte of each UTF-16 code
    unit; a string here is directly the sequence of those low bytes, so the
    entry for code i is [i % 256]. The decoding loop is `LzwStep`/`LzwRun`
    as functions, and `DecodeGifLzw` is proved to compute `Decompress`. */
module Lzw {
  import opened Common
  import opened BitReader

  /** The dictionary of codes 0 .. n - 1, each the one-symbol string of
      its own character. */
  function InitDict(n: nat): (dic: map<int, seq<byte>>)
    ensures |dic| == n
    ensures forall k :: k in dic <==> 0 <= k < n
    ensures forall k :: k in dic ==> dic[k] == [k % 256]
  {
    DictSize(n);
    Singletons(n)
  }

  function Singletons(n: nat): map<int, seq<byte>>
  {
    map k: int | 0 <= k < n :: [k % 256]
  }

  /** Adding the codes one at a time, a fresh key each time. */
  lemma {:induction false} DictSize(n: nat)
    ensures |Singletons(n)| == n
  {
    if n > 0 {
      DictSize(n - 1);
      var smaller := Singletons(n - 1);
      assert n - 1 !in smaller;
      assert Singletons(n) == smaller[n - 1 := [(n - 1) % 256]];
    }
  }

  /** The decoder's variables between two passes of its loop. */
  datatype LzwState = LzwState(
    dic: map<int, seq<byte>>,
    codeSize: nat,
    prev: Option<seq<byte>>,
    initFlag: bool,
    bitIndex: nat,
    out: seq<byte>)

  function Max(a: int, b: int): int
  {
    if a >= b then a else b
  }

  /** What the decoder keeps true: the dictionary's keys are exactly
      0 .. Count - 1, no string is empty, the width lies between m + 1 and
      12 (or m + 1 when that is larger), and the output fits. */
  ghost predicate Valid(m: nat, need: int, s: LzwState)
  {
    && (forall k :: k in s.dic <==> 0 <= k < |s.dic|)
    && (forall k :: k in s.dic ==> |s.dic[k]| >= 1)
    && (s.prev.Some? ==> |s.prev.value| >= 1)
    && m + 1 <= s.codeSize <= Max(m + 1, 12)
    && |s.out| <= need
  }

  function ClearCode(m: nat): nat
  {
    Pow2(m)
  }

  function EndCode(m: nat): nat
  {
    Pow2(m) + 1
  }

  /** The state at the start of decoding. */
  function Initial(m: nat): LzwState
  {
    LzwState(InitDict(Pow2(m) + 2), m + 1, None, false, 0, [])
  }

  /** The pending re-initialisation done at the top of a pass. */
  function Reset(m: nat, s: LzwState): (t: LzwState)
    ensures !t.initFlag
  {
    if s.initFlag then s.(dic := InitDict(Pow2(m) + 2), codeSize := m + 1, initFlag := false) else s
  }

  /** How one pass of the loop ends. */
  datatype StepResult =
    | Continue(next: LzwState)
    | Finished(last: LzwState)
    | Overrun

  /** The string a code stands for, if any: its dictionary entry, or for
      any code at or past Count, the previous string plus its first symbol. */
  function EntryFor(t: LzwState, key: int): Option<seq<byte>>
  {
    if key in t.dic then Some(t.dic[key])
    else if key >= |t.dic| && t.prev.Some? && |t.prev.value| >= 1 then Some(t.prev.value + [t.prev.value[0]])
    else None
  }

  /** One pass of the decoding loop, from a state whose cursor is inside
      the bit array. */
  function LzwStep(bits: seq<bool>, m: nat, need: int, s: LzwState): (r: StepResult)
    requires Valid(m, need, s) && s.bitIndex < |bits|
    ensures r.Continue? ==> Valid(m, need, r.next)
    ensures r.Continue? ==> r.next.bitIndex == s.bitIndex + Reset(m, s).codeSize
  {
    var t := Reset(m, s);
    ResetValid(m, need, s);
    var key := Numeral(bits, t.bitIndex, t.codeSize);
    var next := t.bitIndex + t.codeSize;
    if key == ClearCode(m) then
      Continue(t.(initFlag := true, bitIndex := next, prev := None))
    else if key == EndCode(m) then
      Finished(t)
    else match EntryFor(t, key)
      case None => Continue(t.(bitIndex := next))
      case Some(entry) =>
        EntryNonEmpty(m, need, t, key);
        if |t.out| + |entry| > need then Overrun
        else if |t.out| + |entry| >= need then Finished(t.(out := t.out + entry))
        else
          AfterEntryValid(bits, m, need, t, entry);
          Continue(AfterEntry(bits, m, t, entry))
  }

  /** Re-initialising keeps the invariant: 2^m + 2 one-symbol entries at
      keys 0 .. 2^m + 1, at width m + 1. */
  lemma ResetValid(m: nat, need: int, s: LzwState)
    requires Valid(m, need, s)
    ensures Valid(m, need, Reset(m, s))
  {
    if s.initFlag {
      var dic := InitDict(Pow2(m) + 2);
      assert forall k :: k in dic ==> |dic[k]| >= 1;
    }
  }

  /** Every string a code can stand for is non-empty. */
  lemma EntryNonEmpty(m: nat, need: int, t: LzwState, key: int)
    requires Valid(m, need, t)
    ensures EntryFor(t, key).Some? ==> |EntryFor(t, key).value| >= 1
  {
  }

  /** Adding the new string at key Count keeps the keys exactly
      0 .. Count - 1, and the width never passes 12 (or m + 1). */
  lemma AfterEntryValid(bits: seq<bool>, m: nat, need: int, t: LzwState, entry: seq<byte>)
    requires Valid(m, need, t) && |entry| >= 1 && |t.out| + |entry| <= need
    ensures Valid(m, need, AfterEntry(bits, m, t, entry))
  {
    if t.prev.Some? {
      var dic := t.dic[|t.dic| := t.prev.value + [entry[0]]];
      assert |t.dic| !in t.dic;
      assert |dic| == |t.dic| + 1;
      assert forall k :: k in dic <==> 0 <= k < |dic|;
    }
  }

  /** The rest of a pass once `entry` has been written without filling
      the output: add the previous string plus the entry's first symbol at
      key Count, then widen the codes or schedule a reset. */
  function AfterEntry(bits: seq<bool>, m: nat, t: LzwState, entry: seq<byte>): LzwState
    requires |entry| >= 1
  {
    var dic := if t.prev.Some? then t.dic[|t.dic| := t.prev.value + [entry[0]]] else t.dic;
    var cs := t.codeSize;
    var next := t.bitIndex + cs;
    if 3 <= cs <= 11 && |dic| >= Pow2(cs) then
      LzwState(dic, cs + 1, Some(entry), false, next, t.out + entry)
    else if cs == 12 && |dic| >= 4096 && Numeral(bits, next, cs) != ClearCode(m) then
      LzwState(dic, cs, Some(entry), true, next, t.out + entry)
    else
      LzwState(dic, cs, Some(entry), false, next, t.out + entry)
  }

  /** What the decoding loop produces: the bytes written, or an overrun of
      the output array. */
  datatype RunResult = Written(out: seq<byte>) | Overran

  function LzwRun(bits: seq<bool>, m: nat, need: int, s: LzwState): (r: RunResult)
    requires Valid(m, need, s)
    ensures r.Written? ==> |r.out| <= need
    decreases |bits| - s.bitIndex
  {
    if s.bitIndex >= |bits| then Written(s.out)
    else match LzwStep(bits, m, need, s)
      case Overrun => Overran
      case Finished(t) => Written(t.out)
      case Continue(t) => LzwRun(bits, m, need, t)
  }

  function Zeros(n: nat): (z: seq<byte>)
    ensures |z| == n && forall k :: 0 <= k < n ==> z[k] == 0
  {
    seq(n, _ => 0)
  }

  /** What `DecodeGifLZW` returns or throws. */
  datatype LzwOutcome = Output(data: seq<byte>) | LzwFault(fault: Fault)

  lemma InitialValid(m: nat, need: int)
    requires need >= 0
    ensures Valid(m, need, Initial(m))
  {
  }

  /** `DecodeGifLZW`: a negative size fails to allocate; otherwise the
      bytes written, padded with zeros to `need`, or an overrun. */
  function Decompress(compData: seq<byte>, m: nat, need: int): LzwOutcome
  {
    DecompressBits(BitsOf(compData), m, need)
  }

  function DecompressBits(bits: seq<bool>, m: nat, need: int): LzwOutcome
  {
    if need < 0 then LzwFault(Overflow)
    else
      InitialValid(m, need);
      Outcome(LzwRun(bits, m, need, Initial(m)), need)
  }

  /** A run's result as `DecodeGifLZW` reports it: an overrun throws, and
      the written bytes are followed by the zeros never overwritten. */
  function Outcome(r: RunResult, need: nat): LzwOutcome
    requires r.Written? ==> |r.out| <= need
  {
    match r
    case Overran => LzwFault(IndexOutOfRange)
    case Written(out) => Output(out + Zeros(need - |out|))
  }

  // ---------------------------------------------------------------------
  // The C# routines

  method InitDictionary(lzwMinimumCodeSize: nat) returns (dic: map<int, seq<byte>>, lzwCodeSize: nat, clearCode: int, finishCode: int)
    ensures clearCode == ClearCode(lzwMinimumCodeSize) && finishCode == EndCode(lzwMinimumCodeSize)
    ensures dic == InitDict(clearCode + 2)
    ensures lzwCodeSize == lzwMinimumCodeSize + 1
  {
    var dicLength := Pow2(lzwMinimumCodeSize);
    clearCode := dicLength;
    finishCode := clearCode + 1;
    dic := FillDict(clearCode + 2);
    lzwCodeSize := lzwMinimumCodeSize + 1;
  }

  /** The loop of `InitDictionary`: codes 0 .. n - 1 added in order. */
  method FillDict(n: nat) returns (dic: map<int, seq<byte>>)
    ensures dic == InitDict(n)
  {
    dic := map[];
    for i := 0 to n
      invariant forall k :: k in dic <==> 0 <= k < i
      invariant forall k :: k in dic ==> dic[k] == [k % 256]
    {
      dic := dic[i := [i % 256]];
    }
    assert dic == InitDict(n);
  }

  /** The top of a pass of `DecodeGifLZW`: a pending re-initialisation. */
  method ResetIfPending(m: nat, dic0: map<int, seq<byte>>, lzwCodeSize0: nat, dicInitFlag0: bool)
    returns (dic: map<int, seq<byte>>, lzwCodeSize: nat, dicInitFlag: bool)
    ensures forall p, i, o :: LzwState(dic, lzwCodeSize, p, dicInitFlag, i, o) == Reset(m, LzwState(dic0, lzwCodeSize0, p, dicInitFlag0, i, o))
  {
    dic, lzwCodeSize, dicInitFlag := dic0, lzwCodeSize0, dicInitFlag0;
    if dicInitFlag {
      var clear, finish;
      dic, lzwCodeSize, clear, finish := InitDictionary(m);
      dicInitFlag := false;
    }
  }

  /** The per-case unfoldings of one pass, used by the method below. */
  lemma RunOnClear(bits: seq<bool>, m: nat, need: int, s: LzwState, u: LzwState)
    requires Valid(m, need, s) && s.bitIndex < |bits|
    requires Numeral(bits, Reset(m, s).bitIndex, Reset(m, s).codeSize) == ClearCode(m)
    requires u == Reset(m, s).(initFlag := true, bitIndex := s.bitIndex + Reset(m, s).codeSize, prev := None)
    ensures Valid(m, need, u) && LzwRun(bits, m, need, s) == LzwRun(bits, m, need, u)
  {
    assert LzwStep(bits, m, need, s) == Continue(u);
  }

  lemma RunOnEnd(bits: seq<bool>, m: nat, need: int, s: LzwState)
    requires Valid(m, need, s) && s.bitIndex < |bits|
    requires var t := Reset(m, s); var key := Numeral(bits, t.bitIndex, t.codeSize);
      key != ClearCode(m) && key == EndCode(m)
    ensures LzwRun(bits, m, need, s) == Written(s.out)
  {
    assert LzwStep(bits, m, need, s) == Finished(Reset(m, s));
  }

  lemma RunOnSkip(bits: seq<bool>, m: nat, need: int, s: LzwState, u: LzwState)
    requires Valid(m, need, s) && s.bitIndex < |bits|
    requires var t := Reset(m, s); var key := Numeral(bits, t.bitIndex, t.codeSize);
      key != ClearCode(m) && key != EndCode(m) && EntryFor(t, key).None?
    requires u == Reset(m, s).(bitIndex := s.bitIndex + Reset(m, s).codeSize)
    ensures Valid(m, need, u) && LzwRun(bits, m, need, s) == LzwRun(bits, m, need, u)
  {
    assert LzwStep(bits, m, need, s) == Continue(u);
  }

  lemma RunOnEntry(bits: seq<bool>, m: nat, need: int, s: LzwState, entry: seq<byte>)
    requires Valid(m, need, s) && s.bitIndex < |bits|
    requires var t := Reset(m, s); var key := Numeral(bits, t.bitIndex, t.codeSize);
      key != ClearCode(m) && key != EndCode(m) && EntryFor(t, key) == Some(entry)
    ensures |entry| >= 1
    ensures |s.out| + |entry| > need ==> LzwRun(bits, m, need, s) == Overran
    ensures |s.out| + |entry| == need ==> LzwRun(bits, m, need, s) == Written(s.out + entry)
    ensures |s.out| + |entry| < need ==>
      Valid(m, need, AfterEntry(bits, m, Reset(m, s), entry)) &&
      LzwRun(bits, m, need, s) == LzwRun(bits, m, need, AfterEntry(bits, m, Reset(m, s), entry))
  {
    var t := Reset(m, s);
    assert t.out == s.out;
    var r := LzwStep(bits, m, need, s);
    if |s.out| + |entry| > need {
      assert r == Overrun;
    } else if |s.out| + |entry| == need {
      assert r == Finished(t.(out := t.out + entry));
    } else {
      assert r == Continue(AfterEntry(bits, m, t, entry));
    }
  }

  /** Copies `entry` into `output` from `index` on, as long as it fits. */
  method WriteEntry(output: array<byte>, index: nat, entry: seq<byte>) returns (ok: bool, newIndex: nat)
    requires index <= output.Length
    modifies output
    ensures ok <==> index + |entry| <= output.Length
    ensures ok ==> newIndex == index + |entry| && output[..newIndex] == old(output[..index]) + entry
    ensures ok ==> forall k :: newIndex <= k < output.Length ==> output[k] == old(output[k])
  {
    newIndex := index;
    for i := 0 to |entry|
      invariant newIndex == index + i <= output.Length
      invariant output[..newIndex] == old(output[..index]) + entry[..i]
      invariant forall k :: newIndex <= k < output.Length ==> output[k] == old(output[k])
    {
      if newIndex >= output.Length {
        return false, newIndex;
      }
      output[newIndex] := entry[i];
      newIndex := newIndex + 1;
      assert entry[..i + 1] == entry[..i] + [entry[i]];
    }
    assert entry[..|entry|] == entry;
    ok := true;
  }

  /** The tail of a pass of `DecodeGifLZW` after an entry was written:
      the dictionary addition, the cursor step and the width chain. */
  method GrowDictionary(bitData: seq<bool>, m: nat, dic0: map<int, seq<byte>>, lzwCodeSize0: nat,
                        prevEntry0: Option<seq<byte>>, bitDataIndex0: nat, entry: seq<byte>, ghost out: seq<byte>)
    returns (dic: map<int, seq<byte>>, lzwCodeSize: nat, prevEntry: Option<seq<byte>>, dicInitFlag: bool, bitDataIndex: nat)
    requires |entry| >= 1
    ensures var t := LzwState(dic0, lzwCodeSize0, prevEntry0, false, bitDataIndex0, out);
      LzwState(dic, lzwCodeSize, prevEntry, dicInitFlag, bitDataIndex, out + entry) == AfterEntry(bitData, m, t, entry)
  {
    ghost var t := LzwState(dic0, lzwCodeSize0, prevEntry0, false, bitDataIndex0, out);
    dic, lzwCodeSize, dicInitFlag := dic0, lzwCodeSize0, false;
    if prevEntry0.Some? {
      dic := dic[|dic| := prevEntry0.value + [entry[0]]];
    }
    assert dic == AfterEntry(bitData, m, t, entry).dic;
    prevEntry := Some(entry);
    bitDataIndex := bitDataIndex0 + lzwCodeSize;
    // The source's chain: width w goes to w + 1 when Count reaches 2^w,
    // for w = 3 .. 11; at 12 bits a full dictionary is reset unless the
    // next code is a clear code.
    if 3 <= lzwCodeSize <= 11 && |dic| >= Pow2(lzwCodeSize) {
      lzwCodeSize := lzwCodeSize + 1;
    } else if lzwCodeSize == 12 && |dic| >= 4096 {
      var nextKey := GetNumeral(bitData, bitDataIndex, lzwCodeSize);
      if nextKey != ClearCode(m) {
        dicInitFlag := true;
      }
    }
  }

  /** `DecodeGifLZW`: converts the data to a bit array and decodes it. */
  method DecodeGifLzw(compData: seq<byte>, lzwMinimumCodeSize: nat, needDataSize: int) returns (r: LzwOutcome)
    ensures r == Decompress(compData, lzwMinimumCodeSize, needDataSize)
  {
    var bitData := BitsOf(compData);
    r := DecodeBits(bitData, lzwMinimumCodeSize, needDataSize);
  }

  /** The decoding loop of `DecodeGifLZW` over the bit array. */
  method DecodeBits(bitData: seq<bool>, lzwMinimumCodeSize: nat, needDataSize: int) returns (r: LzwOutcome)
    ensures r == DecompressBits(bitData, lzwMinimumCodeSize, needDataSize)
  {
    var m := lzwMinimumCodeSize;
    var dic, lzwCodeSize, clearCode, finishCode := InitDictionary(m);
    if needDataSize < 0 {
      return LzwFault(Overflow);
    }
    var output := ZeroOutput(needDataSize);
    r := DecodeLoop(bitData, m, output, clearCode, finishCode, dic, lzwCodeSize);
  }

  /** `new byte[n]`: n zero bytes. */
  method ZeroOutput(n: nat) returns (output: array<byte>)
    ensures fresh(output) && output.Length == n
    ensures forall k :: 0 <= k < n ==> output[k] == 0
  {
    output := new byte[n](_ => 0);
  }

  /** The loop of `DecodeGifLZW`, from the initial state. */
  method DecodeLoop(bitData: seq<bool>, m: nat, output: array<byte>, clearCode: int, finishCode: int,
                    dic0: map<int, seq<byte>>, lzwCodeSize0: nat)
    returns (r: LzwOutcome)
    requires clearCode == ClearCode(m) && finishCode == EndCode(m)
    requires dic0 == Initial(m).dic && lzwCodeSize0 == m + 1
    requires forall k :: 0 <= k < output.Length ==> output[k] == 0
    modifies output
    ensures r == Outcome(LzwRun(bitData, m, output.Length, Initial(m)), output.Length)
  {
    DecodingInitially(bitData, m, output[..]);
    var dic, lzwCodeSize := dic0, lzwCodeSize0;
    var outputAddIndex := 0;
    var prevEntry: Option<seq<byte>> := None;
    var dicInitFlag := false;
    var bitDataIndex := 0;
    ghost var out: seq<byte> := [];
    ghost var start := Initial(m);
    while bitDataIndex < |bitData|
      invariant Decoding(bitData, m, output[..], outputAddIndex, LzwState(dic, lzwCodeSize, prevEntry, dicInitFlag, bitDataIndex, out), start)
      decreases |bitData| - bitDataIndex
    {
      ghost var s := LzwState(dic, lzwCodeSize, prevEntry, dicInitFlag, bitDataIndex, out);
      ghost var a0, n0 := output[..], outputAddIndex;
      DecodingStart(bitData, m, a0, n0, s, start);
      var done;
      done, dic, lzwCodeSize, prevEntry, dicInitFlag, bitDataIndex, outputAddIndex, out :=
        DecodePass(bitData, m, output, clearCode, finishCode, dic, lzwCodeSize, prevEntry, dicInitFlag, bitDataIndex, outputAddIndex, out);
      if done.Some? {
        return done.value;
      }
      DecodingChain(bitData, m, a0, n0, s, output[..], outputAddIndex, LzwState(dic, lzwCodeSize, prevEntry, dicInitFlag, bitDataIndex, out), start);
    }
    FilledOutput(output[..], outputAddIndex, out);
    return Output(output[..]);
  }

  /** One pass of the loop of `DecodeGifLZW`, on the loop's variables;
      `done` holds the result when the pass leaves the decoder. */
  method DecodePass(bitData: seq<bool>, m: nat, output: array<byte>, clearCode: int, finishCode: int,
                    dic0: map<int, seq<byte>>, lzwCodeSize0: nat, prevEntry0: Option<seq<byte>>, dicInitFlag0: bool,
                    bitDataIndex0: nat, outputAddIndex0: nat, ghost out0: seq<byte>)
    returns (done: Option<LzwOutcome>, dic: map<int, seq<byte>>, lzwCodeSize: nat, prevEntry: Option<seq<byte>>,
             dicInitFlag: bool, bitDataIndex: nat, outputAddIndex: nat, ghost out: seq<byte>)
    requires clearCode == ClearCode(m) && finishCode == EndCode(m)
    requires bitDataIndex0 < |bitData|
    requires var s := LzwState(dic0, lzwCodeSize0, prevEntry0, dicInitFlag0, bitDataIndex0, out0);
      Decoding(bitData, m, output[..], outputAddIndex0, s, s)
    modifies output
    ensures var s := LzwState(dic0, lzwCodeSize0, prevEntry0, dicInitFlag0, bitDataIndex0, out0);
      done.Some? ==> done.value == Outcome(LzwRun(bitData, m, output.Length, s), output.Length)
    ensures var s := LzwState(dic0, lzwCodeSize0, prevEntry0, dicInitFlag0, bitDataIndex0, out0);
      var u := LzwState(dic, lzwCodeSize, prevEntry, dicInitFlag, bitDataIndex, out);
      done.None? ==> bitDataIndex > bitDataIndex0 && Decoding(bitData, m, output[..], outputAddIndex, u, s)
  {
    ghost var need := output.Length;
    ghost var s := LzwState(dic0, lzwCodeSize0, prevEntry0, dicInitFlag0, bitDataIndex0, out0);
    dic, lzwCodeSize, prevEntry, dicInitFlag, bitDataIndex, outputAddIndex, out :=
      dic0, lzwCodeSize0, prevEntry0, dicInitFlag0, bitDataIndex0, outputAddIndex0, out0;
    done := None;
    dic, lzwCodeSize, dicInitFlag := ResetIfPending(m, dic, lzwCodeSize, dicInitFlag);
    ghost var t := LzwState(dic, lzwCodeSize, prevEntry, dicInitFlag, bitDataIndex, out);
    assert t == Reset(m, s);
    var key := GetNumeral(bitData, bitDataIndex, lzwCodeSize);
    var entry: seq<byte>;
    if key == clearCode {
      // Clear: re-initialise on the next pass.
      dicInitFlag := true;
      bitDataIndex := bitDataIndex + lzwCodeSize;
      prevEntry := None;
      RunOnClear(bitData, m, need, s, LzwState(dic, lzwCodeSize, prevEntry, dicInitFlag, bitDataIndex, out));
      return;
    } else if key == finishCode {
      RunOnEnd(bitData, m, need, s);
      FilledOutput(output[..], outputAddIndex, out);
      return Some(Output(output[..])), dic, lzwCodeSize, prevEntry, dicInitFlag, bitDataIndex, outputAddIndex, out;
    } else if key in dic {
      entry := dic[key];
    } else if key >= |dic| {
      if prevEntry.Some? {
        // A code past the dictionary: the previous entry plus its first symbol.
        entry := prevEntry.value + [prevEntry.value[0]];
      } else {
        bitDataIndex := bitDataIndex + lzwCodeSize;
        RunOnSkip(bitData, m, need, s, LzwState(dic, lzwCodeSize, prevEntry, dicInitFlag, bitDataIndex, out));
        return;
      }
    } else {
      bitDataIndex := bitDataIndex + lzwCodeSize;
      RunOnSkip(bitData, m, need, s, LzwState(dic, lzwCodeSize, prevEntry, dicInitFlag, bitDataIndex, out));
      return;
    }
    assert EntryFor(t, key) == Some(entry);
    done, dic, lzwCodeSize, prevEntry, dicInitFlag, bitDataIndex, outputAddIndex, out :=
      EmitEntry(bitData, m, output, dic, lzwCodeSize, prevEntry, bitDataIndex, outputAddIndex, entry, s);
  }

  /** The rest of a pass of `DecodeGifLZW` once the code stood for `entry`:
      write it, stop when the output is full, else grow the dictionary. */
  method EmitEntry(bitData: seq<bool>, m: nat, output: array<byte>, dic0: map<int, seq<byte>>, lzwCodeSize0: nat,
                   prevEntry0: Option<seq<byte>>, bitDataIndex0: nat, outputAddIndex0: nat, entry: seq<byte>, ghost s: LzwState)
    returns (done: Option<LzwOutcome>, dic: map<int, seq<byte>>, lzwCodeSize: nat, prevEntry: Option<seq<byte>>,
             dicInitFlag: bool, bitDataIndex: nat, outputAddIndex: nat, ghost out: seq<byte>)
    requires Valid(m, output.Length, s) && s.bitIndex < |bitData|
    requires Reset(m, s) == LzwState(dic0, lzwCodeSize0, prevEntry0, false, bitDataIndex0, s.out)
    requires var key := Numeral(bitData, bitDataIndex0, lzwCodeSize0);
      key != ClearCode(m) && key != EndCode(m) && EntryFor(Reset(m, s), key) == Some(entry)
    requires Decoding(bitData, m, output[..], outputAddIndex0, s, s)
    modifies output
    ensures done.Some? ==> done.value == Outcome(LzwRun(bitData, m, output.Length, s), output.Length)
    ensures var u := LzwState(dic, lzwCodeSize, prevEntry, dicInitFlag, bitDataIndex, out);
      done.None? ==> bitDataIndex > s.bitIndex && Decoding(bitData, m, output[..], outputAddIndex, u, s)
  {
    ghost var t := Reset(m, s);
    RunOnEntry(bitData, m, output.Length, s, entry);
    dic, lzwCodeSize, prevEntry, dicInitFlag, bitDataIndex, out := dic0, lzwCodeSize0, prevEntry0, false, bitDataIndex0, s.out;
    // Write the entry's bytes; an index past the output array throws.
    var ok;
    ok, outputAddIndex := WriteEntry(output, outputAddIndex0, entry);
    if !ok {
      return Some(LzwFault(IndexOutOfRange)), dic, lzwCodeSize, prevEntry, dicInitFlag, bitDataIndex, outputAddIndex, out;
    }
    out := s.out + entry;
    if outputAddIndex >= output.Length {
      FilledOutput(output[..], outputAddIndex, out);
      return Some(Output(output[..])), dic, lzwCodeSize, prevEntry, dicInitFlag, bitDataIndex, outputAddIndex, out;
    }
    done := None;
    dic, lzwCodeSize, prevEntry, dicInitFlag, bitDataIndex :=
      GrowDictionary(bitData, m, dic, lzwCodeSize, prevEntry, bitDataIndex, entry, s.out);
    assert LzwState(dic, lzwCodeSize, prevEntry, dicInitFlag, bitDataIndex, out) == AfterEntry(bitData, m, t, entry);
  }

  /** The loop invariant of `DecodeGifLZW`: the output array `a` holds the
      bytes written so far, `s.out`, then zeros, and decoding on from `s`
      gives what decoding from `start` gives. */
  ghost predicate Decoding(bits: seq<bool>, m: nat, a: seq<byte>, n: nat, s: LzwState, start: LzwState)
  {
    && n <= |a| && a[..n] == s.out
    && (forall k :: n <= k < |a| ==> a[k] == 0)
    && Valid(m, |a|, s) && Valid(m, |a|, start)
    && LzwRun(bits, m, |a|, s) == LzwRun(bits, m, |a|, start)
  }

  /** A zero-filled output and the initial state start a decoding. */
  lemma DecodingInitially(bits: seq<bool>, m: nat, a: seq<byte>)
    requires forall k :: 0 <= k < |a| ==> a[k] == 0
    ensures Decoding(bits, m, a, 0, Initial(m), Initial(m))
  {
    InitialValid(m, |a|);
  }

  lemma DecodingStart(bits: seq<bool>, m: nat, a: seq<byte>, n: nat, s: LzwState, start: LzwState)
    requires Decoding(bits, m, a, n, s, start)
    ensures Decoding(bits, m, a, n, s, s)
  {
  }

  lemma DecodingChain(bits: seq<bool>, m: nat, a0: seq<byte>, n0: nat, s: LzwState,
                      a: seq<byte>, n: nat, u: LzwState, start: LzwState)
    requires |a0| == |a| && Decoding(bits, m, a0, n0, s, start) && Decoding(bits, m, a, n, u, s)
    ensures Decoding(bits, m, a, n, u, start)
  {
  }

  /** An output array whose first n bytes are `out` and whose rest is
      still zero is `out` followed by zeros. */
  lemma FilledOutput(a: seq<byte>, n: nat, out: seq<byte>)
    requires n <= |a| && a[..n] == out
    requires forall k :: n <= k < |a| ==> a[k] == 0
    ensures |out| == n && a == out + Zeros(|a| - n)
  {
    assert a == a[..n] + a[n..];
  }
}