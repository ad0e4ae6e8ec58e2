/**
  The Geohash encoder: a point is located by bisecting the longitude range
  [-180, 180] and the latitude range [-90, 90] in turn, longitude first; each
  bisection yields one bit (1 when the coordinate lies strictly above the
  midpoint), and every 5 bits, most significant first, select one character
  of a base-32 alphabet. The encoder always produces 12 characters, that is
  60 bisections, 30 per axis. Coordinates and range bounds are reals: every
  bound is a dyadic fraction of 90 or 180 reached in at most 30 halvings.
*/
module Geohash {

  const Base32Characters: string := "0123456789bcdefghjkmnpqrstuvwxyz"
  const GeohashLength: nat := 12
  const BitsPerChar: nat := 5
  /** Bits in a geohash: 12 characters of 5 bits. */
  const BitsPerHash: nat := 60
  /** Bisections per axis: 12 characters of 5 bits, alternating between two axes. */
  const BitsPerAxis: nat := 30

  /** An interval [lo, hi] of one coordinate axis. */
  datatype Range = Range(lo: real, hi: real)

  const LongitudeRange: Range := Range(-180.0, 180.0)
  const LatitudeRange: Range := Range(-90.0, 90.0)

  function Pow2(n: nat): (p: nat)
    ensures p >= 1
  {
    if n == 0 then 1 else 2 * Pow2(n - 1)
  }

  function Midpoint(r: Range): real {
    (r.lo + r.hi) / 2.0
  }

  /** One bisection of r towards v: the bit and the half that is kept. */
  function Halve(v: real, r: Range): (bool, Range) {
    var mid := Midpoint(r);
    if v > mid then (true, Range(mid, r.hi)) else (false, Range(r.lo, mid))
  }

  /**
    The bit is 1 exactly when v lies strictly above the midpoint (a tie gives
    0), and the half that is kept has half the width, stays ordered and still
    holds v when r held it.
  */
  lemma HalveSpec(v: real, r: Range)
    ensures Halve(v, r).0 <==> v > Midpoint(r)
    ensures Halve(v, r).1.hi - Halve(v, r).1.lo == (r.hi - r.lo) / 2.0
    ensures r.lo <= r.hi ==> Halve(v, r).1.lo <= Halve(v, r).1.hi
    ensures r.lo <= v <= r.hi ==> Halve(v, r).1.lo <= v <= Halve(v, r).1.hi
  {
  }

  /** The range left after n bisections of r towards v. */
  function Cell(v: real, r: Range, n: nat): Range {
    if n == 0 then r else Halve(v, Cell(v, r, n - 1)).1
  }

  /** The bits of the first n bisections of r towards v, first bisection first. */
  function BisectBits(v: real, r: Range, n: nat): (bits: seq<bool>)
    ensures |bits| == n
  {
    if n == 0 then [] else BisectBits(v, r, n - 1) + [Halve(v, Cell(v, r, n - 1)).0]
  }

  lemma CellNext(v: real, r: Range, n: nat)
    ensures Cell(v, r, n + 1) == Halve(v, Cell(v, r, n)).1
  {
  }

  /** x halved n times. */
  function Halved(x: real, n: nat): real {
    if n == 0 then x else Halved(x, n - 1) / 2.0
  }

  lemma {:induction false} CellWidthHalved(v: real, r: Range, n: nat)
    ensures Cell(v, r, n).hi - Cell(v, r, n).lo == Halved(r.hi - r.lo, n)
  {
    if n > 0 {
      CellWidthHalved(v, r, n - 1);
    }
  }

  lemma {:induction false} HalvedTimesPow2(x: real, n: nat)
    ensures Halved(x, n) * Pow2(n) as real == x
  {
    if n > 0 {
      HalvedTimesPow2(x, n - 1);
      var h, p := Halved(x, n - 1), Pow2(n - 1) as real;
      assert Pow2(n) as real == 2.0 * p;
      HalfTimesDouble(h, p);
    }
  }

  /** After n bisections the cell is 2^n times narrower than the range. */
  lemma CellWidth(v: real, r: Range, n: nat)
    ensures (Cell(v, r, n).hi - Cell(v, r, n).lo) * Pow2(n) as real == r.hi - r.lo
  {
    CellWidthHalved(v, r, n);
    HalvedTimesPow2(r.hi - r.lo, n);
  }

  lemma HalfTimesDouble(w: real, p: real)
    ensures (w / 2.0) * (2.0 * p) == w * p
  {
  }

  /** After n bisections the cell is still ordered and holds v when r did. */
  lemma {:induction false} CellHolds(v: real, r: Range, n: nat)
    requires r.lo <= r.hi
    ensures Cell(v, r, n).lo <= Cell(v, r, n).hi
    ensures r.lo <= v <= r.hi ==> Cell(v, r, n).lo <= v <= Cell(v, r, n).hi
  {
    if n > 0 {
      CellHolds(v, r, n - 1);
    }
  }

  /** The two axes' bits alternated, a's first. */
  function Interleave(a: seq<bool>, b: seq<bool>): seq<bool>
    requires |a| == |b|
  {
    seq(2 * |a|, k requires 0 <= k < 2 * |a| => if k % 2 == 0 then a[k / 2] else b[k / 2])
  }

  /** The number written by bits, most significant first. */
  function BitsValue(bits: seq<bool>): (n: nat)
    ensures n < Pow2(|bits|)
  {
    if bits == [] then 0
    else 2 * BitsValue(bits[..|bits| - 1]) + (if bits[|bits| - 1] then 1 else 0)
  }

  /** The character index after the bits of g have been set, from bit 4 downwards. */
  function PartialIndex(g: seq<bool>): nat
    requires |g| <= BitsPerChar
  {
    if g == [] then 0
    else PartialIndex(g[..|g| - 1]) + (if g[|g| - 1] then Pow2(BitsPerChar - |g|) else 0)
  }

  /** Each bit set so far adds its weight once: the weights of the bits still to come fit below 32. */
  lemma {:induction false} PartialIndexBound(g: seq<bool>)
    requires |g| <= BitsPerChar
    ensures PartialIndex(g) + Pow2(BitsPerChar - |g|) <= 32
  {
    if g == [] {
      assert Pow2(5) == 32;
    } else {
      PartialIndexBound(g[..|g| - 1]);
      assert Pow2(BitsPerChar - (|g| - 1)) == 2 * Pow2(BitsPerChar - |g|);
    }
  }

  /** Setting bit 4 - |g| of the index for the next bit b; the bit was clear, so |= adds its weight. */
  lemma SetNextBit(g: seq<bool>, b: bool)
    requires |g| < BitsPerChar
    ensures PartialIndex(g) + (if b then Pow2(4 - |g|) else 0) == PartialIndex(g + [b])
  {
    var h := g + [b];
    assert h[..|h| - 1] == g && h[|h| - 1] == b;
    assert BitsPerChar - |h| == 4 - |g|;
  }

  /** A complete group of 5 bits weighs as the number it writes, most significant bit first. */
  lemma PartialIndexComplete(g: seq<bool>)
    requires |g| == BitsPerChar
    ensures PartialIndex(g) == BitsValue(g)
  {
    var g1, g2, g3, g4 := g[..1], g[..2], g[..3], g[..4];
    assert g1[..0] == [] && g2[..1] == g1 && g3[..2] == g2 && g4[..3] == g3 && g[..4] == g4;
    assert Pow2(0) == 1 && Pow2(1) == 2 && Pow2(2) == 4 && Pow2(3) == 8 && Pow2(4) == 16;
    assert PartialIndex(g1) == 16 * BitsValue(g1);
    assert PartialIndex(g2) == 8 * BitsValue(g2);
    assert PartialIndex(g3) == 4 * BitsValue(g3);
    assert PartialIndex(g4) == 2 * BitsValue(g4);
  }

  /** One character of a 32-letter alphabet per group of 5 bits. */
  function Chars(alphabet: string, bits: seq<bool>): (s: string)
    requires |alphabet| == 32 && |bits| % 5 == 0
    ensures |s| == |bits| / 5
  {
    if bits == [] then []
    else
      var group := bits[|bits| - BitsPerChar..];
      assert Pow2(|group|) == 32;
      Chars(alphabet, bits[..|bits| - BitsPerChar]) + [alphabet[BitsValue(group)]]
  }

  lemma CharsAppend(alphabet: string, done: seq<bool>, group: seq<bool>)
    requires |alphabet| == 32 && |done| % 5 == 0 && |group| == BitsPerChar
    ensures BitsValue(group) < 32
    ensures Chars(alphabet, done + group) == Chars(alphabet, done) + [alphabet[BitsValue(group)]]
  {
    assert Pow2(|group|) == 32;
    var all := done + group;
    assert all[..|all| - BitsPerChar] == done && all[|all| - BitsPerChar..] == group;
  }

  /** Every character comes from the base-32 alphabet. */
  lemma {:induction false} CharsInAlphabet(alphabet: string, bits: seq<bool>)
    requires |alphabet| == 32 && |bits| % 5 == 0
    ensures forall i :: 0 <= i < |Chars(alphabet, bits)| ==> Chars(alphabet, bits)[i] in alphabet
  {
    if bits != [] {
      CharsInAlphabet(alphabet, bits[..|bits| - BitsPerChar]);
    }
  }

  /** The bit stream of a point: 30 longitude bisections interleaved with 30 latitude bisections. */
  function BitStream(latitude: real, longitude: real): (bits: seq<bool>)
    ensures |bits| == BitsPerHash
  {
    Interleave(BisectBits(longitude, LongitudeRange, BitsPerAxis),
               BisectBits(latitude, LatitudeRange, BitsPerAxis))
  }

  /** The geohash of a point, axis by axis. */
  function GeohashOf(latitude: real, longitude: real): string {
    Chars(Base32Characters, BitStream(latitude, longitude))
  }


  /** The bit that the next bisection of the active axis produces. */
  function NextBit(latitude: real, longitude: real, lonCell: Range, latCell: Range, isEncodingLongitude: bool): bool {
    if isEncodingLongitude then Halve(longitude, lonCell).0 else Halve(latitude, latCell).0
  }

  /** Bit j of the bisection bits is bisection j's answer. */
  lemma {:induction false} BisectBitsAt(v: real, r: Range, n: nat, j: nat)
    requires j < n
    ensures BisectBits(v, r, n)[j] == Halve(v, Cell(v, r, j)).0
  {
    if j < n - 1 {
      BisectBitsAt(v, r, n - 1, j);
    }
  }

  /**
    After lonCount longitude and latCount latitude bisections, taken in turn
    and longitude first, the next bit of the stream is the next bisection of
    the active axis.
  */
  lemma StreamBit(latitude: real, longitude: real, lonCount: nat, latCount: nat, isEncodingLongitude: bool)
    requires lonCount == latCount + (if isEncodingLongitude then 0 else 1)
    requires lonCount + latCount < BitsPerHash
    ensures BitStream(latitude, longitude)[lonCount + latCount]
         == NextBit(latitude, longitude, Cell(longitude, LongitudeRange, lonCount),
                    Cell(latitude, LatitudeRange, latCount), isEncodingLongitude)
  {
    var k := lonCount + latCount;
    if isEncodingLongitude {
      assert k % 2 == 0 && k / 2 == lonCount;
      BisectBitsAt(longitude, LongitudeRange, BitsPerAxis, lonCount);
    } else {
      assert k % 2 == 1 && k / 2 == latCount;
      BisectBitsAt(latitude, LatitudeRange, BitsPerAxis, latCount);
    }
  }

  /** Taking the next bit of s extends the prefix taken so far, however it is split. */
  lemma PrefixNext(s: seq<bool>, done: seq<bool>, group: seq<bool>, n: nat)
    requires n < |s| && done + group == s[..n]
    ensures done + (group + [s[n]]) == s[..n + 1]
    ensures (done + (group + [s[n]])) + [] == s[..n + 1]
  {
    assert done + (group + [s[n]]) == (done + group) + [s[n]];
  }

  /** The counters of Encode's loop: characters emitted, bits of the current group, bisections per axis. */
  ghost predicate ShapeInv(result: string, currentBit: int, isEncodingLongitude: bool,
                           lonCount: nat, latCount: nat, done: seq<bool>, group: seq<bool>)
  {
    && |result| <= GeohashLength && 0 <= currentBit < BitsPerChar
    && (|result| == GeohashLength ==> currentBit == 0)
    && |done| == 5 * |result| && |group| == currentBit
    && lonCount == latCount + (if isEncodingLongitude then 0 else 1)
    && lonCount + latCount == |done| + |group|
  }

  /** The bits taken so far, the complete groups and then the current one, are the first n of the stream. */
  ghost predicate PrefixInv(latitude: real, longitude: real, n: nat, done: seq<bool>, group: seq<bool>) {
    n <= BitsPerHash && done + group == BitStream(latitude, longitude)[..n]
  }

  /** Each axis's cell is what its bisections so far have left of its range. */
  ghost predicate CellsInv(latitude: real, longitude: real, lonCell: Range, latCell: Range, lonCount: nat, latCount: nat) {
    lonCell == Cell(longitude, LongitudeRange, lonCount) && latCell == Cell(latitude, LatitudeRange, latCount)
  }

  /** The characters emitted encode the complete groups; the index holds the bits of the current one. */
  ghost predicate OutputInv(result: string, index: int, done: seq<bool>, group: seq<bool>) {
    && |done| % 5 == 0 && |group| < BitsPerChar
    && result == Chars(Base32Characters, done)
    && index == PartialIndex(group)
  }

  lemma ShapeStep(result: string, currentBit: int, isEncodingLongitude: bool,
                  lonCount: nat, latCount: nat, done: seq<bool>, group: seq<bool>,
                  result': string, currentBit': int, lonCount': nat, latCount': nat, done': seq<bool>, group': seq<bool>)
    requires ShapeInv(result, currentBit, isEncodingLongitude, lonCount, latCount, done, group)
    requires |result| < GeohashLength
    requires |result'| == |result| + (if currentBit < 4 then 0 else 1)
    requires currentBit' == if currentBit < 4 then currentBit + 1 else 0
    requires lonCount' == lonCount + (if isEncodingLongitude then 1 else 0)
    requires latCount' == latCount + (if isEncodingLongitude then 0 else 1)
    requires |done'| == |done| + (if currentBit < 4 then 0 else |group| + 1)
    requires |group'| == if currentBit < 4 then |group| + 1 else 0
    ensures ShapeInv(result', currentBit', !isEncodingLongitude, lonCount', latCount', done', group')
  {
  }

  lemma PrefixStep(latitude: real, longitude: real, n: nat, done: seq<bool>, group: seq<bool>,
                   done': seq<bool>, group': seq<bool>)
    requires PrefixInv(latitude, longitude, n, done, group) && n < BitsPerHash
    requires done' + group' == done + (group + [BitStream(latitude, longitude)[n]])
    ensures PrefixInv(latitude, longitude, n + 1, done', group')
  {
    PrefixNext(BitStream(latitude, longitude), done, group, n);
  }

  /** The next bit sets bit 4 - currentBit of the index; the fifth completes the group and emits its character. */
  lemma OutputStep(result: string, currentBit: int, index: int, done: seq<bool>, group: seq<bool>, bit: bool,
                   setIndex: int)
    requires OutputInv(result, index, done, group) && |group| == currentBit
    requires setIndex == index + (if bit then Pow2(4 - currentBit) else 0)
    ensures currentBit == 4 ==> setIndex < |Base32Characters|
    ensures currentBit < 4 ==> OutputInv(result, setIndex, done, group + [bit])
    ensures currentBit == 4 ==> OutputInv(result + [Base32Characters[setIndex]], 0, done + (group + [bit]), [])
  {
    SetNextBit(group, bit);
    if currentBit < 4 {
      assert |group + [bit]| < BitsPerChar;
    } else {
      PartialIndexComplete(group + [bit]);
      CharsAppend(Base32Characters, done, group + [bit]);
    }
  }

  /** The state of Encode's loop, with the ghost account of the bits taken so far. */
  datatype EncoderState = EncoderState(
    result: string, currentBit: int, index: int, isEncodingLongitude: bool,
    lonCell: Range, latCell: Range, lonCount: nat, latCount: nat, done: seq<bool>, group: seq<bool>)

  /** What holds between two iterations of Encode's loop. */
  ghost predicate EncodeInv(latitude: real, longitude: real, st: EncoderState) {
    && ShapeInv(st.result, st.currentBit, st.isEncodingLongitude, st.lonCount, st.latCount, st.done, st.group)
    && PrefixInv(latitude, longitude, st.lonCount + st.latCount, st.done, st.group)
    && CellsInv(latitude, longitude, st.lonCell, st.latCell, st.lonCount, st.latCount)
    && OutputInv(st.result, st.index, st.done, st.group)
  }

  /** The index after the next bit of st. */
  function NextIndex(latitude: real, longitude: real, st: EncoderState): int {
    var bit := NextBit(latitude, longitude, st.lonCell, st.latCell, st.isEncodingLongitude);
    st.index + (if bit && 0 <= st.currentBit <= 4 then Pow2(4 - st.currentBit) else 0)
  }

  /**
    One iteration of Encode's loop: the active axis is bisected, a 1 bit sets
    its place in the index, the axis toggles, and the fifth bit of a group
    emits its character and restarts the index.
  */
  ghost function NextState(latitude: real, longitude: real, st: EncoderState): (next: EncoderState)
    ensures next.lonCount + next.latCount == st.lonCount + st.latCount + 1
    ensures next.isEncodingLongitude == !st.isEncodingLongitude
    ensures st.isEncodingLongitude ==> next.latCell == st.latCell && next.latCount == st.latCount
    ensures !st.isEncodingLongitude ==> next.lonCell == st.lonCell && next.lonCount == st.lonCount
  {
    var isLon := st.isEncodingLongitude;
    var bit := NextBit(latitude, longitude, st.lonCell, st.latCell, isLon);
    var index := NextIndex(latitude, longitude, st);
    var within := st.currentBit < 4;
    EncoderState(
      if within || !(0 <= index < |Base32Characters|) then st.result else st.result + [Base32Characters[index]],
      if within then st.currentBit + 1 else 0,
      if within then index else 0,
      !isLon,
      if isLon then Halve(longitude, st.lonCell).1 else st.lonCell,
      if isLon then st.latCell else Halve(latitude, st.latCell).1,
      if isLon then st.lonCount + 1 else st.lonCount,
      if isLon then st.latCount else st.latCount + 1,
      if within then st.done else st.done + (st.group + [bit]),
      if within then st.group + [bit] else [])
  }

  lemma EncodeInvInit(latitude: real, longitude: real)
    ensures EncodeInv(latitude, longitude, EncoderState([], 0, 0, true, LongitudeRange, LatitudeRange, 0, 0, [], []))
  {
    assert BitStream(latitude, longitude)[..0] == [];
  }

  lemma ShapeInvStep(latitude: real, longitude: real, st: EncoderState)
    requires ShapeInv(st.result, st.currentBit, st.isEncodingLongitude, st.lonCount, st.latCount, st.done, st.group)
    requires |st.result| < GeohashLength
    requires st.currentBit == 4 ==> 0 <= NextIndex(latitude, longitude, st) < |Base32Characters|
    ensures var next := NextState(latitude, longitude, st);
            ShapeInv(next.result, next.currentBit, next.isEncodingLongitude, next.lonCount, next.latCount, next.done, next.group)
  {
    var next := NextState(latitude, longitude, st);
    NextStateFields(latitude, longitude, st);
    ShapeStep(st.result, st.currentBit, st.isEncodingLongitude, st.lonCount, st.latCount, st.done, st.group,
              next.result, next.currentBit, next.lonCount, next.latCount, next.done, next.group);
  }

  lemma PrefixInvStep(latitude: real, longitude: real, st: EncoderState)
    requires ShapeInv(st.result, st.currentBit, st.isEncodingLongitude, st.lonCount, st.latCount, st.done, st.group)
    requires PrefixInv(latitude, longitude, st.lonCount + st.latCount, st.done, st.group)
    requires CellsInv(latitude, longitude, st.lonCell, st.latCell, st.lonCount, st.latCount)
    requires |st.result| < GeohashLength
    ensures var next := NextState(latitude, longitude, st);
            PrefixInv(latitude, longitude, next.lonCount + next.latCount, next.done, next.group)
  {
    var next := NextState(latitude, longitude, st);
    var n := st.lonCount + st.latCount;
    StreamBit(latitude, longitude, st.lonCount, st.latCount, st.isEncodingLongitude);
    assert next.lonCount + next.latCount == n + 1;
    assert next.done + next.group == st.done + (st.group + [BitStream(latitude, longitude)[n]]);
    PrefixStep(latitude, longitude, n, st.done, st.group, next.done, next.group);
  }

  lemma CellsInvStep(latitude: real, longitude: real, st: EncoderState)
    requires CellsInv(latitude, longitude, st.lonCell, st.latCell, st.lonCount, st.latCount)
    ensures var next := NextState(latitude, longitude, st);
            CellsInv(latitude, longitude, next.lonCell, next.latCell, next.lonCount, next.latCount)
  {
    CellNext(longitude, LongitudeRange, st.lonCount);
    CellNext(latitude, LatitudeRange, st.latCount);
  }

  lemma OutputInvStep(latitude: real, longitude: real, st: EncoderState)
    requires OutputInv(st.result, st.index, st.done, st.group) && |st.group| == st.currentBit
    ensures st.currentBit == 4 ==> 0 <= NextIndex(latitude, longitude, st) < |Base32Characters|
    ensures var next := NextState(latitude, longitude, st);
            OutputInv(next.result, next.index, next.done, next.group)
  {
    var bit := NextBit(latitude, longitude, st.lonCell, st.latCell, st.isEncodingLongitude);
    var setIndex := NextIndex(latitude, longitude, st);
    assert setIndex == st.index + (if bit then Pow2(4 - st.currentBit) else 0);
    OutputStep(st.result, st.currentBit, st.index, st.done, st.group, bit, setIndex);
    NextStateFields(latitude, longitude, st);
  }

  /** One iteration of Encode's loop keeps EncodeInv, and a completed group's index selects a character. */
  lemma EncodeInvStep(latitude: real, longitude: real, st: EncoderState)
    requires EncodeInv(latitude, longitude, st) && |st.result| < GeohashLength
    ensures st.currentBit == 4 ==> 0 <= NextIndex(latitude, longitude, st) < |Base32Characters|
    ensures EncodeInv(latitude, longitude, NextState(latitude, longitude, st))
  {
    OutputInvStep(latitude, longitude, st);
    ShapeInvStep(latitude, longitude, st);
    PrefixInvStep(latitude, longitude, st);
    CellsInvStep(latitude, longitude, st);
  }

  /** The fields of NextState one by one, within a group and at its end. */
  lemma NextStateFields(latitude: real, longitude: real, st: EncoderState)
    requires 0 <= st.currentBit <= 4
    requires st.currentBit == 4 ==> 0 <= NextIndex(latitude, longitude, st) < |Base32Characters|
    ensures var next := NextState(latitude, longitude, st);
            var bit := NextBit(latitude, longitude, st.lonCell, st.latCell, st.isEncodingLongitude);
            var setIndex := NextIndex(latitude, longitude, st);
            && setIndex == st.index + (if bit then Pow2(4 - st.currentBit) else 0)
            && (st.currentBit < 4 ==> next.result == st.result && next.index == setIndex
                                      && next.done == st.done && next.group == st.group + [bit])
            && (st.currentBit == 4 ==> next.result == st.result + [Base32Characters[setIndex]] && next.index == 0
                                       && next.done == st.done + (st.group + [bit]) && next.group == [])
            && next.currentBit == (if st.currentBit < 4 then st.currentBit + 1 else 0)
            && next.isEncodingLongitude == !st.isEncodingLongitude
            && next.lonCell == (if st.isEncodingLongitude then Halve(longitude, st.lonCell).1 else st.lonCell)
            && next.latCell == (if st.isEncodingLongitude then st.latCell else Halve(latitude, st.latCell).1)
            && next.lonCount == st.lonCount + (if st.isEncodingLongitude then 1 else 0)
            && next.latCount == st.latCount + (if st.isEncodingLongitude then 0 else 1)
  {
  }

  /**
    The values Encode's loop body computes from the state st are the fields
    of NextState(st): the caller passes its new values and learns that they
    are the next state's.
  */
  lemma StepAgrees(latitude: real, longitude: real, st: EncoderState,
                   result': string, currentBit': int, index': int, isEncodingLongitude': bool,
                   lonCell': Range, latCell': Range)
    requires 0 <= st.currentBit <= 4
    requires st.currentBit == 4 ==> 0 <= NextIndex(latitude, longitude, st) < |Base32Characters|
    requires var setIndex := NextIndex(latitude, longitude, st);
             && result' == (if st.currentBit < 4 then st.result else st.result + [Base32Characters[setIndex]])
             && currentBit' == (if st.currentBit < 4 then st.currentBit + 1 else 0)
             && index' == (if st.currentBit < 4 then setIndex else 0)
    requires isEncodingLongitude' == !st.isEncodingLongitude
    requires lonCell' == (if st.isEncodingLongitude then Halve(longitude, st.lonCell).1 else st.lonCell)
    requires latCell' == (if st.isEncodingLongitude then st.latCell else Halve(latitude, st.latCell).1)
    ensures var next := NextState(latitude, longitude, st);
            && next.result == result' && next.currentBit == currentBit' && next.index == index'
            && next.isEncodingLongitude == isEncodingLongitude'
            && next.lonCell == lonCell' && next.latCell == latCell'
  {
    NextStateFields(latitude, longitude, st);
  }

  /** When the loop stops, its characters are those of the whole bit stream. */
  lemma EncodeInvDone(latitude: real, longitude: real, st: EncoderState)
    requires EncodeInv(latitude, longitude, st) && |st.result| >= GeohashLength
    ensures st.result == GeohashOf(latitude, longitude)
  {
    var stream := BitStream(latitude, longitude);
    assert st.done + st.group == st.done;
    assert stream[..|stream|] == stream;
  }

  /** The state of Encode's loop after n iterations. */
  ghost function Reached(latitude: real, longitude: real, n: nat): EncoderState {
    if n == 0 then EncoderState([], 0, 0, true, LongitudeRange, LatitudeRange, 0, 0, [], [])
    else NextState(latitude, longitude, Reached(latitude, longitude, n - 1))
  }

  lemma ReachedNext(latitude: real, longitude: real, n: nat, st: EncoderState)
    requires st == Reached(latitude, longitude, n)
    ensures Reached(latitude, longitude, n + 1) == NextState(latitude, longitude, st)
  {
  }

  /** Every state the loop reaches in its 60 iterations satisfies EncodeInv. */
  lemma {:induction false} ReachedInv(latitude: real, longitude: real, n: nat)
    requires n <= BitsPerHash
    ensures EncodeInv(latitude, longitude, Reached(latitude, longitude, n))
    ensures Reached(latitude, longitude, n).lonCount + Reached(latitude, longitude, n).latCount == n
  {
    if n == 0 {
      EncodeInvInit(latitude, longitude);
    } else {
      var st := Reached(latitude, longitude, n - 1);
      ReachedInv(latitude, longitude, n - 1);
      EncodeInvCount(latitude, longitude, st);
      assert |st.result| < GeohashLength;
      EncodeInvStep(latitude, longitude, st);
      assert Reached(latitude, longitude, n) == NextState(latitude, longitude, st);
    }
  }

  lemma EncodeInvCount(latitude: real, longitude: real, st: EncoderState)
    requires EncodeInv(latitude, longitude, st)
    ensures st.lonCount + st.latCount == 5 * |st.result| + st.currentBit
    ensures |st.result| <= GeohashLength && (|st.result| == GeohashLength ==> st.currentBit == 0)
  {
  }

  /** What Encode's loop needs to know of the state after n iterations. */
  lemma ReachedFacts(latitude: real, longitude: real, n: nat, st: EncoderState)
    requires n <= BitsPerHash && st == Reached(latitude, longitude, n)
    ensures |st.result| <= GeohashLength && 0 <= st.currentBit < BitsPerChar
    ensures |st.result| < GeohashLength ==> n < BitsPerHash
    ensures |st.result| < GeohashLength && st.currentBit == 4 ==> 0 <= NextIndex(latitude, longitude, st) < |Base32Characters|
    ensures |st.result| == GeohashLength ==> st.result == GeohashOf(latitude, longitude)
  {
    ReachedInv(latitude, longitude, n);
    if |st.result| < GeohashLength {
      EncodeInvStep(latitude, longitude, st);
    } else {
      EncodeInvDone(latitude, longitude, st);
    }
  }

  /**
    Geohash.Encode: one loop that bisects the active axis's range in place,
    sets bit 4 - currentBit of base32Index on a 1, toggles the axis, and emits
    a character after every fifth bit.
  */
  method Encode(latitude: real, longitude: real) returns (hash: string)
    ensures |hash| == GeohashLength
    ensures forall i :: 0 <= i < |hash| ==> hash[i] in Base32Characters
    ensures hash == GeohashOf(latitude, longitude)
  {
    var latitudeRange := new real[2] [-90.0, 90.0];
    var longitudeRange := new real[2] [-180.0, 180.0];
    var isEncodingLongitude := true;
    var currentBit, base32Index := 0, 0;
    var geohashResult: string := [];
    // The iterations so far, and the ghost account of the state they reach
    ghost var n := 0;
    ghost var st := Reached(latitude, longitude, 0);

    while |geohashResult| < GeohashLength
      invariant n <= BitsPerHash && st == Reached(latitude, longitude, n)
      invariant geohashResult == st.result && currentBit == st.currentBit && base32Index == st.index
      invariant isEncodingLongitude == st.isEncodingLongitude
      invariant Range(longitudeRange[0], longitudeRange[1]) == st.lonCell
      invariant Range(latitudeRange[0], latitudeRange[1]) == st.latCell
      decreases BitsPerHash - n
    {
      ReachedFacts(latitude, longitude, n, st);
      ghost var bit := NextBit(latitude, longitude, st.lonCell, st.latCell, st.isEncodingLongitude);
      var range := if isEncodingLongitude then longitudeRange else latitudeRange;
      var value := if isEncodingLongitude then longitude else latitude;
      var midpoint := (range[0] + range[1]) / 2.0;
      assert bit == (value > midpoint);
      ghost var setIndex := NextIndex(latitude, longitude, st);
      assert setIndex == base32Index + (if value > midpoint then Pow2(4 - currentBit) else 0);
      ghost var lonCell', latCell' := if isEncodingLongitude then Halve(longitude, st.lonCell).1 else st.lonCell,
                                      if isEncodingLongitude then st.latCell else Halve(latitude, st.latCell).1;
      if value > midpoint {
        base32Index := base32Index + Pow2(4 - currentBit);
        range[0] := midpoint;
      } else {
        range[1] := midpoint;
      }
      isEncodingLongitude := !isEncodingLongitude;
      if currentBit < 4 {
        currentBit := currentBit + 1;
      } else {
        geohashResult := geohashResult + [Base32Characters[base32Index]];
        currentBit := 0;
        base32Index := 0;
      }
      assert Range(longitudeRange[0], longitudeRange[1]) == lonCell';
      assert Range(latitudeRange[0], latitudeRange[1]) == latCell';
      StepAgrees(latitude, longitude, st, geohashResult, currentBit, base32Index, isEncodingLongitude, lonCell', latCell');
      ReachedNext(latitude, longitude, n, st);
      n, st := n + 1, NextState(latitude, longitude, st);
    }
    ReachedFacts(latitude, longitude, n, st);
    CharsInAlphabet(Base32Characters, BitStream(latitude, longitude));
    hash := geohashResult;
  }
}
