/** The de-interlacing of UniGifDecoder.cs (`SortInterlaceGifData`): an
    interlaced image stores every 8th row from row 0, then every 8th row
    from row 4, every 4th row from row 2 and every 2nd row from row 1
    (Appendix E of the GIF89a specification). The source makes four passes
    over the output positions, each copying the next decoded byte into the
    positions whose row belongs to the pass.

    The source counts rows by bumping its row counter after position i
    when i is a non-zero multiple of the width, so position i is taken to
    lie in row (i - 1) / width (row 0 for i = 0): the first pixel of every
    row k >= 1 is classified with row k - 1. `RowOf` models that; the
    reordering is defined for any row assignment, so the intended one,
    i / width, can be compared with it. */
module Interlace {
  import opened Common
  import opened BitReader

  /** The source's row counter when it classifies position i of an image
      `w` pixels wide: it starts at 0 and is bumped after each position
      that is a non-zero multiple of the width. */
  function RowOf(i: nat, w: nat): nat
  {
    if i == 0 then 0
    else RowOf(i - 1, w) + (if i - 1 != 0 && w != 0 && (i - 1) % w == 0 then 1 else 0)
  }

  /** In closed form the counter is (i - 1) / w: the first pixel of row
      k >= 1, position k * w, is classified with row k - 1. */
  lemma {:induction false} RowClosedForm(i: nat, w: nat)
    requires w > 0
    ensures RowOf(i, w) == if i == 0 then 0 else (i - 1) / w
  {
    if i > 1 {
      RowClosedForm(i - 1, w);
      var q, r := (i - 2) / w, (i - 2) % w;
      assert RowOf(i - 1, w) == q;
      assert i - 2 == w * q + r;
      if r == w - 1 {
        assert i - 1 == w * (q + 1) + 0;
        DivModUnique(i - 1, w, q + 1, 0);
        assert RowOf(i, w) == q + 1;
      } else {
        DivModUnique(i - 1, w, q, r + 1);
        assert RowOf(i, w) == q;
      }
    }
  }

  /** The row of each position as the source computes it. */
  function SourceRows(w: nat): nat -> nat
  {
    i => RowOf(i, w)
  }

  /** The row of each position as Appendix E of GIF89a means it. */
  function TrueRows(w: nat): nat -> nat
  {
    i => if w == 0 then 0 else i / w
  }

  /** The row test of each of the four passes, as the source writes it. */
  predicate InPass(r: nat, pass: nat)
  {
    if pass == 0 then r % 8 == 0
    else if pass == 1 then r % 8 == 4
    else if pass == 2 then r % 4 == 2
    else r % 8 != 0 && r % 8 != 4 && r % 4 != 2
  }

  /** The one pass a row belongs to. */
  function PassOf(r: nat): (p: nat)
    ensures p < 4
  {
    if r % 8 == 0 then 0 else if r % 8 == 4 then 1 else if r % 4 == 2 then 2 else 3
  }

  /** The passes partition the rows: a row passes exactly one of the
      source's four tests, the one of its pass. */
  lemma PassTest(r: nat, pass: nat)
    requires pass < 4
    ensures InPass(r, pass) <==> PassOf(r) == pass
  {
    var q, m := r / 8, r % 8;
    assert r == 8 * q + m;
    DivModUnique(r, 4, 2 * q + m / 4, m % 4);
  }

  /** How many of the positions 0 .. i - 1 belong to pass p. */
  function CountIn(row: nat -> nat, p: nat, i: nat): nat
  {
    if i == 0 then 0 else CountIn(row, p, i - 1) + (if PassOf(row(i - 1)) == p then 1 else 0)
  }

  /** Where pass p starts in the decoded data of n bytes: after all the
      positions of the earlier passes. */
  function PassStart(row: nat -> nat, n: nat, p: nat): nat
  {
    if p == 0 then 0 else PassStart(row, n, p - 1) + CountIn(row, p - 1, n)
  }

  lemma {:induction false} CountBound(row: nat -> nat, p: nat, i: nat, j: nat)
    requires i <= j
    ensures CountIn(row, p, i) <= CountIn(row, p, j)
    ensures i < j && PassOf(row(i)) == p ==> CountIn(row, p, i) < CountIn(row, p, j)
    decreases j
  {
    if i < j {
      CountBound(row, p, i, j - 1);
    }
  }

  /** The four passes together cover every position exactly once. */
  lemma {:induction false} PassesCover(row: nat -> nat, i: nat)
    ensures PassStart(row, i, 4) == i
  {
    if i > 0 {
      PassesCover(row, i - 1);
      PassStartFour(row, i);
      PassStartFour(row, i - 1);
    }
  }

  lemma PassStartFour(row: nat -> nat, n: nat)
    ensures PassStart(row, n, 4) == CountIn(row, 0, n) + CountIn(row, 1, n) + CountIn(row, 2, n) + CountIn(row, 3, n)
  {
    assert PassStart(row, n, 1) == CountIn(row, 0, n);
    assert PassStart(row, n, 2) == PassStart(row, n, 1) + CountIn(row, 1, n);
    assert PassStart(row, n, 3) == PassStart(row, n, 2) + CountIn(row, 2, n);
  }

  lemma {:induction false} PassStartMonotone(row: nat -> nat, n: nat, p: nat, q: nat)
    requires p <= q
    ensures PassStart(row, n, p) <= PassStart(row, n, q)
    decreases q
  {
    if p < q {
      PassStartMonotone(row, n, p, q - 1);
    }
  }

  /** The index of the decoded byte that lands at position i: the pass's
      start plus the number of earlier positions in the same pass. */
  function SourceOf(row: nat -> nat, n: nat, i: nat): (k: nat)
    requires i < n
    ensures k < n
  {
    var p := PassOf(row(i));
    CountBound(row, p, i, n);
    PassStartMonotone(row, n, p + 1, 4);
    PassesCover(row, n);
    PassStart(row, n, p) + CountIn(row, p, i)
  }

  /** Different positions read different decoded bytes, so with the
      bounds above the reordering is a permutation. */
  lemma SourceInjective(row: nat -> nat, n: nat, i: nat, j: nat)
    requires i < n && j < n && i != j
    ensures SourceOf(row, n, i) != SourceOf(row, n, j)
  {
    var p, q := PassOf(row(i)), PassOf(row(j));
    if p == q {
      if i < j {
        CountBound(row, p, i, j);
      } else {
        CountBound(row, p, j, i);
      }
    } else if p < q {
      CountBound(row, p, i, n);
      PassStartMonotone(row, n, p + 1, q);
    } else {
      CountBound(row, q, j, n);
      PassStartMonotone(row, n, q + 1, p);
    }
  }

  /** The decoded data put in display order under a row assignment. */
  function Reorder(data: seq<byte>, row: nat -> nat): (r: seq<byte>)
    ensures |r| == |data|
  {
    seq(|data|, i requires 0 <= i < |data| => data[SourceOf(row, |data|, i)])
  }

  /** What `SortInterlaceGifData` returns. */
  function Deinterlace(data: seq<byte>, w: nat): seq<byte>
  {
    Reorder(data, SourceRows(w))
  }

  /** The source's row for the first pixel of row k >= 1 is k - 1, not
      the row k it lies in; every other position gets its true row. */
  lemma RowQuirk(i: nat, w: nat)
    requires w > 0
    ensures i > 0 && i % w == 0 ==> SourceRows(w)(i) == TrueRows(w)(i) - 1
    ensures i == 0 || i % w != 0 ==> SourceRows(w)(i) == TrueRows(w)(i)
  {
    RowClosedForm(i, w);
    if i > 0 {
      var q, r := i / w, i % w;
      assert i == w * q + r;
      if r == 0 {
        DivModUnique(i - 1, w, q - 1, w - 1);
      } else {
        DivModUnique(i - 1, w, q, r - 1);
      }
    }
  }

  /** So for a one-pixel-wide image of three rows the source leaves the
      data as it is, while Appendix E puts row 2 (the third decoded byte
      goes to row 1) in the middle. */
  lemma NarrowImage(data: seq<byte>, w: nat)
    requires |data| == 3 && w == 1
    ensures Deinterlace(data, w) == data
    ensures Reorder(data, TrueRows(w)) == [data[0], data[2], data[1]]
  {
    var src, tru := SourceRows(w), TrueRows(w);
    assert src(0) == 0 && src(1) == 0 && src(2) == 1;
    assert tru(0) == 0 && tru(1) == 1 && tru(2) == 2;
    assert CountIn(src, 0, 3) == 2;
    assert CountIn(tru, 0, 3) == 1 && CountIn(tru, 1, 3) == 0 && CountIn(tru, 2, 3) == 1;
    assert PassStart(tru, 3, 3) == 2;
  }

  // ---------------------------------------------------------------------
  // The C# routine

  /** One of the four passes of `SortInterlaceGifData`: the row counter
      starts at 0 and is bumped after each position that is a non-zero
      multiple of the width; positions whose row passes the pass's test
      take the next decoded byte. */
  method SortPass(decodedData: seq<byte>, xNum: nat, newArr: array<byte>, pass: nat, dataIndex0: nat)
    returns (dataIndex: nat)
    requires pass < 4 && newArr.Length == |decodedData|
    requires xNum > 0 || |decodedData| <= 1
    requires dataIndex0 == PassStart(SourceRows(xNum), |decodedData|, pass)
    requires Filled(decodedData, SourceRows(xNum), newArr[..], pass)
    modifies newArr
    ensures dataIndex == PassStart(SourceRows(xNum), |decodedData|, pass + 1)
    ensures Filled(decodedData, SourceRows(xNum), newArr[..], pass + 1)
  {
    ghost var row := SourceRows(xNum);
    ghost var n := |decodedData|;
    var rowNo := 0;
    dataIndex := dataIndex0;
    for i := 0 to newArr.Length
      invariant rowNo == RowOf(i, xNum)
      invariant dataIndex == PassStart(row, n, pass) + CountIn(row, pass, i)
      invariant Filled(decodedData, row, newArr[..], pass)
      invariant PassDone(decodedData, row, newArr[..], pass, i)
    {
      dataIndex := Classify(decodedData, row, newArr, pass, i, rowNo, dataIndex);
      if i != 0 && i % xNum == 0 {
        rowNo := rowNo + 1;
      }
    }
  }

  /** The positions before i that belong to `pass` hold their decoded byte. */
  ghost predicate PassDone(data: seq<byte>, row: nat -> nat, out: seq<byte>, pass: nat, i: nat)
    requires |out| == |data| && i <= |out|
  {
    forall j :: 0 <= j < i && PassOf(row(j)) == pass ==> out[j] == data[SourceOf(row, |data|, j)]
  }

  /** The body of one pass's loop at position i, whose row is `rowNo`. */
  method Classify(decodedData: seq<byte>, ghost row: nat -> nat, newArr: array<byte>, pass: nat, i: nat, rowNo: nat, dataIndex0: nat)
    returns (dataIndex: nat)
    requires pass < 4 && newArr.Length == |decodedData| && i < newArr.Length && row(i) == rowNo
    requires dataIndex0 == PassStart(row, |decodedData|, pass) + CountIn(row, pass, i)
    requires Filled(decodedData, row, newArr[..], pass)
    requires PassDone(decodedData, row, newArr[..], pass, i)
    modifies newArr
    ensures dataIndex == PassStart(row, |decodedData|, pass) + CountIn(row, pass, i + 1)
    ensures Filled(decodedData, row, newArr[..], pass)
    ensures PassDone(decodedData, row, newArr[..], pass, i + 1)
  {
    dataIndex := dataIndex0;
    PassTest(rowNo, pass);
    if InPass(rowNo, pass) {
      assert dataIndex == SourceOf(row, |decodedData|, i);
      newArr[i] := decodedData[dataIndex];
      dataIndex := dataIndex + 1;
    }
  }

  /** The output after the passes before `pass`: every position of an
      earlier pass holds its decoded byte. */
  ghost predicate Filled(data: seq<byte>, row: nat -> nat, out: seq<byte>, pass: nat)
  {
    && |out| == |data|
    && forall j :: 0 <= j < |out| && PassOf(row(j)) < pass ==> out[j] == data[SourceOf(row, |data|, j)]
  }

  method SortInterlaceGifData(decodedData: seq<byte>, xNum: nat) returns (newArr: array<byte>)
    requires xNum > 0 || |decodedData| <= 1
    ensures fresh(newArr)
    ensures newArr[..] == Deinterlace(decodedData, xNum)
  {
    newArr := new byte[|decodedData|];
    var dataIndex := 0;
    // Every 8th row, starting with row 0.
    dataIndex := SortPass(decodedData, xNum, newArr, 0, dataIndex);
    // Every 8th row, starting with row 4.
    dataIndex := SortPass(decodedData, xNum, newArr, 1, dataIndex);
    // Every 4th row, starting with row 2.
    dataIndex := SortPass(decodedData, xNum, newArr, 2, dataIndex);
    // Every 2nd row, starting with row 1.
    dataIndex := SortPass(decodedData, xNum, newArr, 3, dataIndex);
    assert forall j :: 0 <= j < newArr.Length ==> PassOf(RowOf(j, xNum)) <= 3;
  }
}
