/**
 The fixed colour palette and the invert action: every cell's colour is
 complemented channel by channel and then replaced by the nearest palette
 entry in squared RGB distance.
 */
module Colors {
  import opened Grids

  type Channel = c: int | 0 <= c <= 255

  datatype Rgb = Rgb(r: Channel, g: Channel, b: Channel)

  /** `#ffffff`, also the colour of a cell whose index has no palette entry. */
  const White: Rgb := Rgb(255, 255, 255)

  /**
   The editor's eleven palette entries, index `i` at position `i`; white is
   only key 0 and black only key 1.
   */
  function PaletteEntry(i: nat): (c: Rgb)
    requires i < 11
    ensures c == White <==> i == 0
    ensures c == Rgb(0, 0, 0) <==> i == 1
  {
    match i
    case 0 => Rgb(255, 255, 255) // #ffffff
    case 1 => Rgb(0, 0, 0)       // #000000
    case 2 => Rgb(255, 68, 68)   // #ff4444
    case 3 => Rgb(255, 136, 0)   // #ff8800
    case 4 => Rgb(255, 238, 51)  // #ffee33
    case 5 => Rgb(68, 255, 68)   // #44ff44
    case 6 => Rgb(68, 221, 255)  // #44ddff
    case 7 => Rgb(68, 136, 255)  // #4488ff
    case 8 => Rgb(153, 85, 255)  // #9955ff
    case 9 => Rgb(255, 85, 221)  // #ff55dd
    case _ => Rgb(150, 75, 0)    // #964B00
  }

  const Palette: seq<Rgb> := seq(11, i requires 0 <= i < 11 => PaletteEntry(i))

  /** The colour drawn for palette index `v`, white when the palette has no such key. */
  function ColorOf(pal: seq<Rgb>, v: nat): (c: Rgb)
    ensures c in pal || c == White
    ensures v < |pal| ==> c == pal[v]
    ensures c != White ==> v < |pal|
  {
    if v < |pal| then pal[v] else White
  }

  /** Channel-wise complement. */
  function Invert(c: Rgb): (r: Rgb)
    ensures r.r + c.r == 255 && r.g + c.g == 255 && r.b + c.b == 255
  {
    Rgb(255 - c.r, 255 - c.g, 255 - c.b)
  }

  lemma InvertInvolutive(c: Rgb)
    ensures Invert(Invert(c)) == c
  {
  }

  /** The byte of `n` that starts `shift` bits up: shift right, then mask with 255. */
  function ByteAt(n: bv24, shift: bv24): bv8
    requires shift <= 16
  {
    ((n >> shift) & 0xFF) as bv8
  }

  /** Split a 24-bit colour into its three channels. */
  function Unpack(n: bv24): Rgb
  {
    Rgb(ByteAt(n, 16) as int, ByteAt(n, 8) as int, ByteAt(n, 0) as int)
  }

  /** The source's inversion of a colour value: exclusive-or with `0xFFFFFF`, which flips every bit. */
  function InvertPacked(n: bv24): bv24
  {
    0xFFFFFF ^ n
  }

  /** The inverted value and the original share no set bit and together set all 24. */
  lemma InvertPackedFlipsBits(n: bv24)
    ensures InvertPacked(n) & n == 0 && InvertPacked(n) | n == 0xFFFFFF
  {
  }

  /** The three masked bytes put back in place give the number again, so unpacking loses nothing. */
  lemma ByteSplit(n: bv24)
    ensures n == (ByteAt(n, 16) as bv24 << 16) | (ByteAt(n, 8) as bv24 << 8) | ByteAt(n, 0) as bv24
  {
    assert n == (((n >> 16) & 0xFF) << 16) | (((n >> 8) & 0xFF) << 8) | (n & 0xFF);
  }

  /** Exclusive-or with `0xFF` on a byte is subtraction from 255. */
  lemma XorByte(x: bv8)
    ensures (x ^ 0xFF) as int == 255 - x as int
  {
    assert x ^ 0xFF == 0xFF - x;
  }

  /** The inverted value's byte is the complement of the original's byte. */
  lemma ByteAtInverted(n: bv24, shift: bv24)
    requires shift == 0 || shift == 8 || shift == 16
    ensures ByteAt(InvertPacked(n), shift) == ByteAt(n, shift) ^ 0xFF
  {
    var m := InvertPacked(n);
    if shift == 0 {
      assert (m & 0xFF) == (n & 0xFF) ^ 0xFF;
    } else if shift == 8 {
      assert (m >> 8) & 0xFF == ((n >> 8) & 0xFF) ^ 0xFF;
    } else {
      assert (m >> 16) & 0xFF == ((n >> 16) & 0xFF) ^ 0xFF;
    }
  }

  /** Exclusive-or with `0xFFFFFF` complements each of the three channels. */
  lemma InvertPackedComplements(n: bv24)
    ensures Unpack(InvertPacked(n)) == Invert(Unpack(n))
  {
    var m := InvertPacked(n);
    ChannelInverted(n, 16);
    ChannelInverted(n, 8);
    ChannelInverted(n, 0);
    assert Unpack(m).r == 255 - Unpack(n).r;
    assert Unpack(m).g == 255 - Unpack(n).g;
    assert Unpack(m).b == 255 - Unpack(n).b;
  }

  lemma ChannelInverted(n: bv24, shift: bv24)
    requires shift == 0 || shift == 8 || shift == 16
    ensures ByteAt(InvertPacked(n), shift) as int == 255 - ByteAt(n, shift) as int
  {
    ByteAtInverted(n, shift);
    XorByte(ByteAt(n, shift));
  }

  /** Squared Euclidean distance in RGB space; never above that of black to white. */
  function Dist2(a: Rgb, b: Rgb): (d: nat)
    ensures d <= 3 * 255 * 255
  {
    SquareBelow(a.r - b.r);
    SquareBelow(a.g - b.g);
    SquareBelow(a.b - b.b);
    (a.r - b.r) * (a.r - b.r) + (a.g - b.g) * (a.g - b.g) + (a.b - b.b) * (a.b - b.b)
  }

  lemma SquareBelow(x: int)
    requires -255 <= x <= 255
    ensures x * x <= 255 * 255
  {
    var y := if x < 0 then -x else x;
    assert x * x == y * y;
    assert y * y <= y * 255 by { MulLeft(y, y, 255); }
    assert y * 255 <= 255 * 255;
  }

  lemma MulLeft(a: nat, b: int, c: int)
    requires b <= c
    ensures a * b <= a * c
  {
  }

  lemma Dist2Zero(a: Rgb, b: Rgb)
    ensures Dist2(a, b) == 0 <==> a == b
  {
    var dr, dg, db := a.r - b.r, a.g - b.g, a.b - b.b;
    assert dr * dr >= 0 && dg * dg >= 0 && db * db >= 0;
    if dr != 0 {
      assert dr * dr > 0;
    }
    if dg != 0 {
      assert dg * dg > 0;
    }
    if db != 0 {
      assert db * db > 0;
    }
  }

  /**
   Entry `k` is the nearest to `c` among the first `n` entries, and no entry
   before `k` is as near: the first minimum in scan order.
   */
  predicate NearestIn(pal: seq<Rgb>, c: Rgb, k: nat, n: nat)
  {
    && k < n <= |pal|
    && (forall j :: 0 <= j < n ==> Dist2(c, pal[k]) <= Dist2(c, pal[j]))
    && (forall j :: 0 <= j < k ==> Dist2(c, pal[k]) < Dist2(c, pal[j]))
  }

  /** The best distance so far; `Infinity` before any entry was scanned. */
  datatype Bound = Infinity | Finite(d: nat)

  predicate Improves(d: nat, best: Bound)
  {
    best.Infinity? || d < best.d
  }

  /**
   The scan loop of the nearest-colour search from entry `i` on: a strictly
   smaller distance replaces the best so far, so ties keep the earlier entry.
   */
  function Scan(pal: seq<Rgb>, c: Rgb, i: nat, bestIndex: nat, bestDist: Bound): (k: nat)
    requires i <= |pal|
    requires if i == 0 then bestIndex == 0 && bestDist == Infinity
      else NearestIn(pal, c, bestIndex, i) && bestDist == Finite(Dist2(c, pal[bestIndex]))
    ensures |pal| > 0 ==> NearestIn(pal, c, k, |pal|)
    decreases |pal| - i
  {
    if i == |pal| then bestIndex
    else
      var d := Dist2(c, pal[i]);
      if Improves(d, bestDist) then Scan(pal, c, i + 1, i, Finite(d))
      else Scan(pal, c, i + 1, bestIndex, bestDist)
  }

  /** The palette index nearest to `c`, the first one on ties. */
  function Closest(pal: seq<Rgb>, c: Rgb): (k: nat)
    requires |pal| > 0
    ensures NearestIn(pal, c, k, |pal|)
  {
    Scan(pal, c, 0, 0, Infinity)
  }

  /** The first nearest entry is unique. */
  lemma NearestUnique(pal: seq<Rgb>, c: Rgb, k1: nat, k2: nat, n: nat)
    requires NearestIn(pal, c, k1, n) && NearestIn(pal, c, k2, n)
    ensures k1 == k2
  {
    assert Dist2(c, pal[k1]) <= Dist2(c, pal[k2]);
    assert Dist2(c, pal[k2]) <= Dist2(c, pal[k1]);
  }

  predicate Distinct(pal: seq<Rgb>)
  {
    forall i, j :: 0 <= i < j < |pal| ==> pal[i] != pal[j]
  }

  /** In a palette without repeated colours, an exact palette colour is nearest to its own index. */
  lemma ClosestExact(pal: seq<Rgb>, i: nat)
    requires Distinct(pal) && i < |pal|
    ensures Closest(pal, pal[i]) == i
  {
    var k := Closest(pal, pal[i]);
    Dist2Zero(pal[i], pal[i]);
    assert Dist2(pal[i], pal[k]) == 0;
    Dist2Zero(pal[i], pal[k]);
  }

  lemma PaletteDistinct()
    ensures |Palette| == 11 && Distinct(Palette) && Palette[0] == White
  {
  }

  /** What the invert action writes into a cell holding `v`. */
  function InvertIndex(pal: seq<Rgb>, v: nat): (k: nat)
    requires |pal| > 0
    ensures k < |pal|
    ensures NearestIn(pal, Invert(ColorOf(pal, v)), k, |pal|)
  {
    Closest(pal, Invert(ColorOf(pal, v)))
  }

  /** A cell whose index has no palette entry inverts like a white cell. */
  lemma InvertIndexMissingIsWhite(pal: seq<Rgb>, v: nat)
    requires |pal| > 0 && pal[0] == White && v >= |pal|
    ensures InvertIndex(pal, v) == InvertIndex(pal, 0)
  {
  }

  /** Every palette colour's complement is itself a palette colour. */
  predicate ClosedUnderInvert(pal: seq<Rgb>)
  {
    forall i :: 0 <= i < |pal| ==> Invert(pal[i]) in pal
  }

  /** For a palette symmetric under inversion, inverting a palette index twice gives it back. */
  lemma InvertIndexInvolution(pal: seq<Rgb>, v: nat)
    requires Distinct(pal) && ClosedUnderInvert(pal) && v < |pal|
    ensures InvertIndex(pal, InvertIndex(pal, v)) == v
  {
    var j :| 0 <= j < |pal| && pal[j] == Invert(pal[v]);
    ClosestExact(pal, j);
    assert InvertIndex(pal, v) == j;
    InvertInvolutive(pal[v]);
    ClosestExact(pal, v);
  }

  /** Any first nearest entry is the one the scan returns. */
  lemma ClosestIsNearest(pal: seq<Rgb>, c: Rgb, k: nat)
    requires |pal| > 0 && NearestIn(pal, c, k, |pal|)
    ensures Closest(pal, c) == k
  {
    NearestUnique(pal, c, k, Closest(pal, c), |pal|);
  }

  /** Every index below eleven is one of the editor's eleven palette keys, written out. */
  lemma PaletteKeys(j: int)
    requires 0 <= j < |Palette|
    ensures j == 0 || j == 1 || j == 2 || j == 3 || j == 4 || j == 5 || j == 6 || j == 7 || j == 8 || j == 9 || j == 10
  {
  }

  /** Each of the editor's palette colours is nearest to its own index. */
  lemma PaletteSelfMatch(i: nat)
    requires i < |Palette|
    ensures Closest(Palette, Palette[i]) == i
  {
    PaletteDistinct();
    ClosestExact(Palette, i);
  }

  /** Under the editor's palette a white cell inverts to black ... */
  lemma InvertWhiteIsBlack()
    ensures InvertIndex(Palette, 0) == 1
  {
    assert Invert(ColorOf(Palette, 0)) == Rgb(0, 0, 0);
    ClosestToBlack();
  }

  /** ... and a black cell to white. */
  lemma InvertBlackIsWhite()
    ensures InvertIndex(Palette, 1) == 0
  {
    assert Invert(ColorOf(Palette, 1)) == Rgb(255, 255, 255);
    ClosestToWhite();
  }

  /** A cell whose index is not a palette key inverts to black, as white does. */
  lemma InvertMissingIsBlack(v: nat)
    requires v >= |Palette|
    ensures InvertIndex(Palette, v) == 1
  {
    InvertIndexMissingIsWhite(Palette, v);
    InvertWhiteIsBlack();
  }

  lemma ClosestToBlack()
    ensures Closest(Palette, Rgb(0, 0, 0)) == 1
  {
    PaletteSelfMatch(1);
  }

  lemma ClosestToWhite()
    ensures Closest(Palette, White) == 0
  {
    PaletteSelfMatch(0);
  }

  /** The complement of red (#ff4444) is nearest to light blue (#44ddff). */
  lemma ClosestToInvertedRed()
    ensures Closest(Palette, Rgb(0, 187, 187)) == 6
  {
    var c := Rgb(0, 187, 187);
    forall j | 0 <= j < |Palette|
      ensures Dist2(c, Palette[6]) <= Dist2(c, Palette[j])
      ensures j < 6 ==> Dist2(c, Palette[6]) < Dist2(c, Palette[j])
    {
      PaletteKeys(j);
    }
    ClosestIsNearest(Palette, c, 6);
  }

  /** The complement of light blue (#44ddff) is nearest to brown (#964B00). */
  lemma ClosestToInvertedLightBlue()
    ensures Closest(Palette, Rgb(187, 34, 0)) == 10
  {
    var c := Rgb(187, 34, 0);
    forall j | 0 <= j < |Palette|
      ensures Dist2(c, Palette[10]) <= Dist2(c, Palette[j])
      ensures j < 10 ==> Dist2(c, Palette[10]) < Dist2(c, Palette[j])
    {
      PaletteKeys(j);
    }
    ClosestIsNearest(Palette, c, 10);
  }

  /**
   The editor's palette is not symmetric under inversion, so inverting twice
   does not restore a grid: red inverts to light blue, which inverts to brown.
   */
  lemma PaletteInvertTwiceNotIdentity()
    ensures InvertIndex(Palette, 2) == 6 && InvertIndex(Palette, 6) == 10
  {
    assert Invert(ColorOf(Palette, 2)) == Rgb(0, 187, 187);
    ClosestToInvertedRed();
    assert Invert(ColorOf(Palette, 6)) == Rgb(187, 34, 0);
    ClosestToInvertedLightBlue();
  }

  /**
   The invert action over the whole grid: same dimensions, and every cell
   holds the palette key nearest to the complement of its old colour.
   */
  function InvertGrid(pal: seq<Rgb>, g: Grid): (r: Grid)
    requires |pal| > 0 && IsBitmap(g)
    ensures IsBitmap(r) && SameShape(r, g)
    ensures forall y, x :: 0 <= y < |r| && 0 <= x < |r[y]| ==>
      r[y][x] < |pal| && NearestIn(pal, Invert(ColorOf(pal, g[y][x])), r[y][x], |pal|)
  {
    seq(|g|, y requires 0 <= y < |g| =>
      seq(Cols(g), x requires 0 <= x < Cols(g) => InvertIndex(pal, g[y][x])))
  }

  /** For a palette symmetric under inversion, inverting a grid of palette keys twice restores it. */
  lemma InvertGridTwice(pal: seq<Rgb>, g: Grid)
    requires |pal| > 0 && Distinct(pal) && ClosedUnderInvert(pal) && IsBitmap(g)
    requires forall y, x :: 0 <= y < |g| && 0 <= x < |g[y]| ==> g[y][x] < |pal|
    ensures InvertGrid(pal, InvertGrid(pal, g)) == g
  {
    var h := InvertGrid(pal, g);
    var r := InvertGrid(pal, h);
    forall y | 0 <= y < |g|
      ensures r[y] == g[y]
    {
      forall x | 0 <= x < |g[y]|
        ensures r[y][x] == g[y][x]
      {
        NearestUnique(pal, Invert(ColorOf(pal, g[y][x])), h[y][x], InvertIndex(pal, g[y][x]), |pal|);
        NearestUnique(pal, Invert(ColorOf(pal, h[y][x])), r[y][x], InvertIndex(pal, h[y][x]), |pal|);
        InvertIndexInvolution(pal, g[y][x]);
      }
    }
  }
}
