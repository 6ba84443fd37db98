/**
 * The byte-pair frame synchroniser of `decode_output` (libs/decode.py).
 *
 * A sample travels as two bytes: the first has its high bit set and carries
 * the upper seven bits, the second carries the lower bits.  The decoder skips
 * bytes one at a time until it meets a byte above 127, decodes that byte and
 * the next as the first sample, and from then on decodes every following pair
 * without looking at the high bit again.  A trailing unpaired byte is dropped.
 */
module Frame {
  import opened Wrappers

  /** numpy's `uint8`: the element type of the chunk after `np.fromstring`. */
  newtype byte = x: int | 0 <= x < 0x100

  /**
   * `b & 0x7F` on a byte: the low seven bits, which for a value in 0..255 is
   * the remainder modulo 128 (see `LowBitsAsMod`).
   */
  function Low7(b: byte): (r: int)
    ensures 0 <= r < 128
  {
    b as int % 128
  }

  /** Masking the high bit of an 8-bit value keeps its remainder modulo 128. */
  lemma LowBitsAsMod(b: bv8)
    ensures (b & 0x7F) as int == b as int % 128
  {
  }

  /** numpy's `uint16`. */
  newtype uint16 = x: int | 0 <= x < 0x1_0000

  /** Conversion to `np.uint16`: keeps the value modulo 2^16. */
  function ToUint16(x: int): (r: uint16)
    ensures 0 <= x < 0x1_0000 ==> r as int == x
  {
    (x % 0x1_0000) as uint16
  }

  /** The largest value a pair of bytes can decode to: 127 * 128 + 255. */
  const MaxSample: int := 16511

  /** The sample two bytes stand for: the high byte's low seven bits, then the low byte. */
  function Sample(hi: byte, lo: byte): (s: uint16)
    ensures s as int <= MaxSample
  {
    (Low7(hi) * 128 + lo as int) as uint16
  }

  /**
   * The sample as the source computes it, with numpy's uint16 arithmetic
   * written out: `uint16(uint16(hi & 127) * 128) + uint16(lo)`.  Neither the
   * multiplication nor the addition ever wraps, so it is `Sample`.
   */
  function NumpySample(hi: byte, lo: byte): (s: uint16)
    ensures s == Sample(hi, lo)
  {
    var high := ToUint16(ToUint16(Low7(hi)) as int * 128);
    ToUint16(high as int + lo as int)
  }

  /** Whether a byte marks the start of a frame (`line[i] > 127`). */
  predicate IsSync(b: byte) {
    b > 127
  }

  /**
   * The first index `k >= i` at which a byte above 127 stands and that still
   * has a partner byte (`k < |b| - 1`), if there is one.
   */
  function FirstSync(b: seq<byte>, i: nat): (k: Option<nat>)
    decreases |b| - i
    ensures k.Some? ==> i <= k.value < |b| - 1 && IsSync(b[k.value])
    ensures k.Some? ==> forall j :: i <= j < k.value ==> !IsSync(b[j])
    ensures k.None? <==> forall j :: i <= j < |b| - 1 ==> !IsSync(b[j])
  {
    if i + 1 >= |b| then None
    else if IsSync(b[i]) then Some(i)
    else FirstSync(b, i + 1)
  }

  /** Every complete pair of `c` decoded from the front; a trailing odd byte is dropped. */
  function AllPairs(c: seq<byte>): seq<uint16>
    decreases |c|
  {
    if |c| < 2 then [] else [Sample(c[0], c[1])] + AllPairs(c[2..])
  }

  /**
   * What `decode_output` returns: nothing without a sync byte; otherwise every
   * complete pair from the first sync byte on.
   */
  function Decode(b: seq<byte>): seq<uint16>
  {
    match FirstSync(b, 0)
    case None => []
    case Some(k) => AllPairs(b[k..])
  }

  /** `AllPairs` yields `|c| / 2` samples, the `j`-th from bytes `2 * j` and `2 * j + 1`. */
  lemma {:induction false} AllPairsAt(c: seq<byte>)
    ensures |AllPairs(c)| == |c| / 2
    ensures forall j :: 0 <= j < |c| / 2 ==> AllPairs(c)[j] == Sample(c[2 * j], c[2 * j + 1])
    decreases |c|
  {
    if |c| >= 2 {
      var t := c[2..];
      AllPairsAt(t);
      forall j | 1 <= j < |c| / 2 ensures AllPairs(c)[j] == Sample(c[2 * j], c[2 * j + 1]) {
        assert t[2 * (j - 1)] == c[2 * j] && t[2 * (j - 1) + 1] == c[2 * j + 1];
      }
    }
  }

  /** Decoding one more pair extends the output at its end. */
  lemma {:induction false} AllPairsSnoc(s: seq<byte>, x: byte, y: byte)
    requires |s| % 2 == 0
    ensures AllPairs(s + [x, y]) == AllPairs(s) + [Sample(x, y)]
    decreases |s|
  {
    if s == [] {
      assert s + [x, y] == [x, y] && [x, y][2..] == [];
    } else {
      assert (s + [x, y])[2..] == s[2..] + [x, y];
      AllPairsSnoc(s[2..], x, y);
    }
  }

  /** A trailing unpaired byte contributes nothing. */
  lemma {:induction false} AllPairsDropsOdd(s: seq<byte>)
    requires |s| % 2 == 1
    ensures AllPairs(s) == AllPairs(s[..|s| - 1])
    decreases |s|
  {
    if |s| >= 3 {
      assert s[2..][..|s| - 3] == s[..|s| - 1][2..];
      AllPairsDropsOdd(s[2..]);
    }
  }

  /** One loop step: the pair after `n` decoded pairs from `k` extends the output. */
  lemma AllPairsStep(s: seq<byte>, k: nat, n: nat)
    requires k + 2 * n + 2 <= |s|
    ensures AllPairs(s[k..k + 2 * n + 2]) == AllPairs(s[k..k + 2 * n]) + [Sample(s[k + 2 * n], s[k + 2 * n + 1])]
  {
    var i := k + 2 * n;
    AllPairsSnoc(s[k..i], s[i], s[i + 1]);
    assert s[k..i + 2] == s[k..i] + [s[i], s[i + 1]];
  }

  /** Loop exit: stopping at `|s| - 1` or `|s|` has decoded every complete pair. */
  lemma AllPairsAtEnd(s: seq<byte>, k: nat, n: nat)
    requires k + 2 * n == |s| - 1 || k + 2 * n == |s|
    ensures AllPairs(s[k..k + 2 * n]) == AllPairs(s[k..])
  {
    var i := k + 2 * n;
    if i == |s| - 1 {
      AllPairsDropsOdd(s[k..]);
      assert s[k..][..|s[k..]| - 1] == s[k..i];
    } else {
      assert s[k..i] == s[k..];
    }
  }

  /**
   * The decoder loop of `decode_output`: the index moves by one while
   * searching for the sync byte and by two once it has been found.
   */
  method DecodeOutput(line: seq<byte>) returns (result: seq<uint16>)
    ensures result == Decode(line)
  {
    var foundBeginningOfFrame := false;
    ghost var k: nat, n: nat := 0, 0;
    result := [];
    var i := 0;
    while i < |line| - 1
      invariant 0 <= i <= |line|
      invariant !foundBeginningOfFrame ==> result == [] && FirstSync(line, 0) == FirstSync(line, i)
      invariant foundBeginningOfFrame ==>
        && FirstSync(line, 0) == Some(k)
        && i == k + 2 * n
        && result == AllPairs(line[k..i])
      decreases |line| - i
    {
      if !foundBeginningOfFrame {
        if line[i] > 127 {
          foundBeginningOfFrame := true;
          k, n := i, 0;
          var intout := NumpySample(line[i], line[i + 1]);
          assert line[k..i] == [];
          AllPairsStep(line, k, n);
          result := result + [intout];
          n := n + 1;
          i := i + 2;
        } else {
          i := i + 1;
        }
      } else {
        var intout := NumpySample(line[i], line[i + 1]);
        AllPairsStep(line, k, n);
        result := result + [intout];
        n := n + 1;
        i := i + 2;
      }
    }
    if foundBeginningOfFrame {
      AllPairsAtEnd(line, k, n);
    } else {
      assert FirstSync(line, i).None?;
    }
  }

  /** A sequence holds no sync byte at all. */
  predicate AllLow(p: seq<byte>) {
    forall j :: 0 <= j < |p| ==> !IsSync(p[j])
  }

  /** `FirstSync` is pinned down by its characterisation. */
  lemma FirstSyncIs(b: seq<byte>, i: nat, k: nat)
    requires i <= k < |b| - 1 && IsSync(b[k])
    requires forall j :: i <= j < k ==> !IsSync(b[j])
    ensures FirstSync(b, i) == Some(k)
  {
  }

  /** The output is empty exactly when no sync byte has a partner byte. */
  lemma DecodeEmptyIff(b: seq<byte>)
    ensures Decode(b) == [] <==> forall j :: 0 <= j < |b| - 1 ==> !IsSync(b[j])
  {
    match FirstSync(b, 0)
    case None =>
    case Some(k) =>
      assert |b[k..]| >= 2;
  }

  /**
   * With `k` the first sync index: the output has `(|b| - k) / 2` samples, the
   * first built from `b[k]` and `b[k + 1]`, and the `j`-th from the pair at
   * `k + 2 * j`, whatever the high bit of that pair's first byte.
   */
  lemma DecodeShape(b: seq<byte>, k: nat)
    requires k < |b| - 1 && IsSync(b[k])
    requires forall j :: 0 <= j < k ==> !IsSync(b[j])
    ensures |Decode(b)| == (|b| - k) / 2 >= 1
    ensures Decode(b)[0] as int == Low7(b[k]) * 128 + b[k + 1] as int
    ensures forall j :: 0 <= j < |Decode(b)| ==> Decode(b)[j] == Sample(b[k + 2 * j], b[k + 2 * j + 1])
  {
    FirstSyncIs(b, 0, k);
    var t := b[k..];
    assert Decode(b) == AllPairs(t);
    AllPairsAt(t);
    forall j | 0 <= j < |t| / 2 ensures AllPairs(t)[j] == Sample(b[k + 2 * j], b[k + 2 * j + 1]) {
      assert t[2 * j] == b[k + 2 * j] && t[2 * j + 1] == b[k + 2 * j + 1];
    }
  }

  /** Every decoded sample is at most 127 * 128 + 255. */
  lemma DecodeBounded(b: seq<byte>)
    ensures forall j :: 0 <= j < |Decode(b)| ==> Decode(b)[j] as int <= MaxSample
  {
    match FirstSync(b, 0)
    case None =>
    case Some(k) =>
      DecodeShape(b, k);
  }

  /** Bytes without the high bit in front of the data contribute nothing. */
  lemma {:induction false} DecodeSkipsLowPrefix(p: seq<byte>, b: seq<byte>)
    requires AllLow(p)
    ensures Decode(p + b) == Decode(b)
  {
    var pb := p + b;
    match FirstSync(b, 0)
    case None =>
      forall j | 0 <= j < |pb| - 1 ensures !IsSync(pb[j]) {
        if j >= |p| { assert pb[j] == b[j - |p|]; }
      }
      assert FirstSync(pb, 0).None?;
    case Some(k) =>
      forall j | 0 <= j < |p| + k ensures !IsSync(pb[j]) {
        if j >= |p| { assert pb[j] == b[j - |p|]; }
      }
      assert pb[|p| + k] == b[k];
      FirstSyncIs(pb, 0, |p| + k);
      assert pb[|p| + k..] == b[k..];
  }

  /**
   * Once a sync byte has been seen, the rest of the chunk is cut into pairs
   * blindly: a later byte above 127 does not start a new frame.
   */
  lemma {:induction false} DecodeAfterSync(p: seq<byte>, hi: byte, lo: byte, c: seq<byte>)
    requires AllLow(p) && IsSync(hi)
    ensures Decode(p + [hi, lo] + c) == [Sample(hi, lo)] + AllPairs(c)
  {
    var b := [hi, lo] + c;
    assert p + [hi, lo] + c == p + b;
    DecodeSkipsLowPrefix(p, b);
    FirstSyncIs(b, 0, 0);
    assert b[0..] == b && b[2..] == c;
  }

  /**
   * The sample/byte split: when the second byte carries only seven bits, the
   * quotient by 128 gives back the first byte's low seven bits and the
   * remainder the second byte.
   */
  lemma SampleSplits(hi: byte, lo: byte)
    requires lo < 128
    ensures Sample(hi, lo) as int / 128 == Low7(hi)
    ensures Sample(hi, lo) as int % 128 == lo as int
  {
  }

  /**
   * The sender's packing.  The monitor's header describes values split into
   * three high bits in the first byte and seven low bits in the second; this
   * generalises that layout (the case `v < 2^10`) to the seven high bits the
   * decoder reads, and sets the high bit of the first byte, which the
   * decoder takes as the start of a sample.
   */
  function Encode(v: uint16): (r: seq<byte>)
    requires v < 0x4000
    ensures |r| == 2 && IsSync(r[0]) && !IsSync(r[1])
  {
    [(0x80 + v as int / 128) as byte, (v as int % 128) as byte]
  }

  /** Decoding a packed value gives it back. */
  lemma EncodeDecodes(v: uint16)
    requires v < 0x4000
    ensures Sample(Encode(v)[0], Encode(v)[1]) == v
  {
  }

  /** The packing of a whole run of values. */
  function EncodeAll(vs: seq<uint16>): (r: seq<byte>)
    requires forall j :: 0 <= j < |vs| ==> vs[j] < 0x4000
    ensures |r| == 2 * |vs|
  {
    if vs == [] then [] else Encode(vs[0]) + EncodeAll(vs[1..])
  }

  /** Cutting a packed run into pairs gives back the values. */
  lemma {:induction false} AllPairsEncoded(vs: seq<uint16>)
    requires forall j :: 0 <= j < |vs| ==> vs[j] < 0x4000
    ensures AllPairs(EncodeAll(vs)) == vs
    decreases |vs|
  {
    if vs != [] {
      var e := EncodeAll(vs);
      assert e[2..] == EncodeAll(vs[1..]);
      AllPairsEncoded(vs[1..]);
      EncodeDecodes(vs[0]);
    }
  }

  /** Round trip on an aligned stream: decoding packed values gives them back. */
  lemma DecodeEncoded(vs: seq<uint16>)
    requires forall j :: 0 <= j < |vs| ==> vs[j] < 0x4000
    ensures Decode(EncodeAll(vs)) == vs
  {
    var e := EncodeAll(vs);
    if vs != [] {
      assert e[0] == Encode(vs[0])[0];
      FirstSyncIs(e, 0, 0);
      assert e[0..] == e;
    }
    AllPairsEncoded(vs);
  }

  /**
   * Round trip: a chunk that starts anywhere inside a stream of packed values
   * -- after any number of stray low bytes, such as the tail of a sample cut
   * at the chunk boundary -- decodes to exactly the values that follow.
   */
  lemma {:induction false} DecodeEncodeAll(p: seq<byte>, vs: seq<uint16>)
    requires AllLow(p)
    requires forall j :: 0 <= j < |vs| ==> vs[j] < 0x4000
    ensures Decode(p + EncodeAll(vs)) == vs
  {
    DecodeSkipsLowPrefix(p, EncodeAll(vs));
    DecodeEncoded(vs);
  }

  /**
   * An example: 0x05 is skipped, 0x82 0x10 gives 272, the pair
   * 0x01 0x00 is taken under the established sync and gives 128, and the
   * last 0x05 has no partner.
   */
  lemma DecodeExample()
    ensures Decode([0x05, 0x82, 0x10, 0x01, 0x00, 0x05]) == [272, 128]
  {
    var b: seq<byte> := [0x05, 0x82, 0x10, 0x01, 0x00, 0x05];
    FirstSyncIs(b, 0, 1);
    assert b[1..] == [0x82, 0x10, 0x01, 0x00, 0x05];
    assert b[1..][2..] == [0x01, 0x00, 0x05];
    assert b[1..][2..][2..] == [0x05];
  }
}
