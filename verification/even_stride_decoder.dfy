/**
 * The decode loop inside `serial_com` (testing.py), lifted out of the serial
 * I/O around it.  Unlike `decode_output` it only ever looks at even offsets:
 * it walks `i = 0, 2, 4, ...` while `i < len - 1`, waits for an even-indexed
 * byte above 127, and from then on decodes every even-indexed pair.
 * Even offsets are written `2 * m`, `m` counting pairs.
 */
module EvenStride {
  import opened Wrappers
  import opened Frame

  /**
   * The search of the loop, from pair number `h` on: the pair number `m` of
   * the first even-indexed byte above 127 that has a partner, if any.
   */
  function FirstEvenSync(b: seq<byte>, h: nat): (m: Option<nat>)
    decreases |b| - 2 * h
    ensures m.Some? ==> h <= m.value && 2 * m.value < |b| - 1 && IsSync(b[2 * m.value])
  {
    if 2 * h + 1 >= |b| then None
    else if IsSync(b[2 * h]) then Some(h)
    else FirstEvenSync(b, h + 1)
  }

  /**
   * What the search finds is the first pair number `m >= h` whose first byte
   * `b[2 * m]` is above 127 and has a partner (`2 * m < |b| - 1`): no earlier
   * pair qualifies, and there is none exactly when no pair qualifies.
   */
  lemma {:induction false} FirstEvenSyncSpec(b: seq<byte>, h: nat)
    decreases |b| - 2 * h
    ensures FirstEvenSync(b, h).Some? ==>
      forall q :: h <= q < FirstEvenSync(b, h).value ==> !IsSync(b[2 * q])
    ensures FirstEvenSync(b, h).None? <==> forall q :: h <= q && 2 * q < |b| - 1 ==> !IsSync(b[2 * q])
  {
    if 2 * h + 1 < |b| && !IsSync(b[2 * h]) {
      FirstEvenSyncSpec(b, h + 1);
    }
  }

  /** What the loop of `serial_com` returns for an already flattened byte sequence. */
  function DecodeEven(b: seq<byte>): seq<uint16>
  {
    match FirstEvenSync(b, 0)
    case None => []
    case Some(m) => AllPairs(b[2 * m..])
  }

  /**
   * The loop itself: `for i in np.arange(0, len(lines) - 1, 2)` visits the even
   * `i` with `i < len - 1`, in increasing order.
   */
  method SerialDecode(lines: seq<byte>) returns (result: seq<uint16>)
    ensures result == DecodeEven(lines)
  {
    var foundBeginningOfFrame := false;
    ghost var h: nat, m: nat, n: nat := 0, 0, 0;
    result := [];
    var i := 0;
    while i < |lines| - 1
      invariant i == 2 * h <= |lines|
      invariant !foundBeginningOfFrame ==> result == [] && FirstEvenSync(lines, 0) == FirstEvenSync(lines, h)
      invariant foundBeginningOfFrame ==>
        && FirstEvenSync(lines, 0) == Some(m)
        && i == 2 * m + 2 * n
        && result == AllPairs(lines[2 * m..i])
      decreases |lines| - i
    {
      if !foundBeginningOfFrame {
        if lines[i] > 127 {
          foundBeginningOfFrame := true;
          m, n := h, 0;
          var intout := NumpySample(lines[i], lines[i + 1]);
          assert lines[2 * m..i] == [];
          AllPairsStep(lines, 2 * m, n);
          result := result + [intout];
          n := n + 1;
        }
      } else {
        var intout := NumpySample(lines[i], lines[i + 1]);
        AllPairsStep(lines, 2 * m, n);
        result := result + [intout];
        n := n + 1;
      }
      i, h := i + 2, h + 1;
    }
    if foundBeginningOfFrame {
      AllPairsAtEnd(lines, 2 * m, n);
    } else {
      assert FirstEvenSync(lines, h).None?;
    }
  }

  /** `FirstEvenSync` is pinned down by its characterisation. */
  lemma {:induction false} FirstEvenSyncIs(b: seq<byte>, h: nat, m: nat)
    requires h <= m && 2 * m < |b| - 1 && IsSync(b[2 * m])
    requires forall q :: h <= q < m ==> !IsSync(b[2 * q])
    ensures FirstEvenSync(b, h) == Some(m)
    decreases m - h
  {
    if h < m {
      FirstEvenSyncIs(b, h + 1, m);
    }
  }

  /**
   * The output is empty exactly when no even-indexed byte before the last one
   * is above 127: a high byte at an odd index never starts a frame.
   */
  lemma DecodeEvenEmptyIff(b: seq<byte>)
    ensures DecodeEven(b) == [] <==> forall q :: 0 <= q && 2 * q < |b| - 1 ==> !IsSync(b[2 * q])
  {
    FirstEvenSyncSpec(b, 0);
    match FirstEvenSync(b, 0)
    case None =>
    case Some(m) =>
      assert |b[2 * m..]| >= 2;
  }

  /**
   * With `k = 2 * m` the first even sync index: `(|b| - k) / 2` samples, the
   * `j`-th built from the pair at `k + 2 * j` with no further high-bit check
   * (so each is at most `MaxSample`, by the contract of `Sample`).
   */
  lemma DecodeEvenShape(b: seq<byte>, m: nat)
    requires 2 * m < |b| - 1 && IsSync(b[2 * m])
    requires forall q :: 0 <= q < m ==> !IsSync(b[2 * q])
    ensures |DecodeEven(b)| == (|b| - 2 * m) / 2 >= 1
    ensures forall j :: 0 <= j < |DecodeEven(b)| ==>
      DecodeEven(b)[j] == Sample(b[2 * m + 2 * j], b[2 * m + 2 * j + 1])
  {
    FirstEvenSyncIs(b, 0, m);
    var k := 2 * m;
    var t := b[k..];
    assert DecodeEven(b) == AllPairs(t);
    AllPairsAt(t);
    forall j | 0 <= j < |t| / 2 ensures AllPairs(t)[j] == Sample(b[k + 2 * j], b[k + 2 * j + 1]) {
      assert t[2 * j] == b[k + 2 * j] && t[2 * j + 1] == b[k + 2 * j + 1];
    }
  }

  /** Every sample this loop produces is at most 127 * 128 + 255. */
  lemma DecodeEvenBounded(b: seq<byte>)
    ensures forall j :: 0 <= j < |DecodeEven(b)| ==> DecodeEven(b)[j] as int <= MaxSample
  {
    FirstEvenSyncSpec(b, 0);
    match FirstEvenSync(b, 0)
    case None =>
    case Some(m) =>
      DecodeEvenShape(b, m);
  }

  /**
   * An odd-indexed byte in front of the first frame is never read: replacing
   * it, by a byte above 127 or any other, leaves the output unchanged.
   */
  lemma OddByteBeforeSyncIgnored(b: seq<byte>, o: nat, x: byte)
    requires o < |b| && o % 2 == 1
    requires FirstEvenSync(b, 0).None? || o < 2 * FirstEvenSync(b, 0).value
    ensures DecodeEven(b[o := x]) == DecodeEven(b)
  {
    var c := b[o := x];
    FirstEvenSyncSpec(b, 0);
    FirstEvenSyncSpec(c, 0);
    match FirstEvenSync(b, 0)
    case None =>
      forall q | 0 <= q && 2 * q < |c| - 1 ensures !IsSync(c[2 * q]) {
        assert c[2 * q] == b[2 * q];
      }
      assert FirstEvenSync(c, 0).None?;
    case Some(m) =>
      forall q | 0 <= q < m ensures !IsSync(c[2 * q]) {
        assert c[2 * q] == b[2 * q];
      }
      FirstEvenSyncIs(c, 0, m);
      assert c[2 * m..] == b[2 * m..];
  }

  /**
   * Cross-check with `decode_output`: when the first sync byte that has a
   * partner sits at an even index (or there is none), both loops return the
   * same samples.
   */
  lemma DecodeEvenAgrees(b: seq<byte>)
    requires FirstSync(b, 0).None? || FirstSync(b, 0).value % 2 == 0
    ensures DecodeEven(b) == Decode(b)
  {
    match FirstSync(b, 0)
    case None =>
      FirstEvenSyncSpec(b, 0);
    case Some(k) =>
      var m := k / 2;
      assert 2 * m == k;
      FirstEvenSyncIs(b, 0, m);
  }

  /**
   * The two loops do differ when the first sync byte sits at an odd index:
   * `decode_output` locks onto 0x85 0x86, the even-stride loop onto 0x86 0x00.
   */
  lemma DecodeEvenDiffersAtOddSync()
    ensures Decode([0x01, 0x85, 0x86, 0x00]) == [774]
    ensures DecodeEven([0x01, 0x85, 0x86, 0x00]) == [768]
  {
    var b: seq<byte> := [0x01, 0x85, 0x86, 0x00];
    FirstSyncIs(b, 0, 1);
    assert b[1..][2..] == [0x00];
    FirstEvenSyncIs(b, 0, 1);
    assert b[2..][2..] == [];
  }

  /** Round trip on an aligned stream of packed values. */
  lemma DecodeEvenEncoded(vs: seq<uint16>)
    requires forall j :: 0 <= j < |vs| ==> vs[j] < 0x4000
    ensures DecodeEven(EncodeAll(vs)) == vs
  {
    var e := EncodeAll(vs);
    if vs != [] {
      assert e[0] == Encode(vs[0])[0];
      FirstSyncIs(e, 0, 0);
    }
    DecodeEvenAgrees(e);
    DecodeEncoded(vs);
  }
}
