/** src/FrameFormat.cpp: the frame format and its derived line size. */
module Frames {
  import opened Modular
  import opened Binary32
  import opened Words

  /** The enumeration value of an unknown pixel format. */
  const UNKNOWN: uint32 := 0

  function CeilDiv(w: nat, p: nat): (r: nat)
    requires p > 0
  {
    (w + p - 1) / p
  }

  /** Bytes of a line that is stored in whole words with whole pixels in each. */
  function LineSize(width: nat, bpp: nat, wordWidth: nat): (r: nat)
    requires 1 <= bpp <= wordWidth
  {
    CeilDiv(width, wordWidth / bpp) * wordWidth
  }

  /** k words hold the line, each with a whole number of pixels. */
  predicate HoldsLine(k: nat, width: nat, bpp: nat, wordWidth: nat)
    requires bpp > 0
  {
    k * (wordWidth / bpp) >= width
  }

  lemma {:induction false} CeilDivLeast(w: nat, p: nat, k: nat)
    requires p > 0
    ensures k >= CeilDiv(w, p) <==> k * p >= w
  {
    var c := CeilDiv(w, p);
    assert c * p >= w && (c - 1) * p < w by {
      var r := (w + p - 1) % p;
      assert w + p - 1 == p * c + r;
    }
    if k >= c {
      MulAtLeast(p, k, c);
    } else {
      MulAtLeast(p, c - 1, k);
    }
  }

  lemma {:induction false} MulAtLeast(p: nat, a: int, b: int)
    requires a >= b
    ensures a * p >= b * p
  {
  }

  /** The line size is the least number of whole words that hold the line with whole pixels in
      each word, and no smaller than the pixels themselves. */
  lemma {:induction false} LineSizeMeaning(width: nat, bpp: nat, wordWidth: nat)
    requires 1 <= bpp <= wordWidth
    ensures var size := LineSize(width, bpp, wordWidth);
            && size % wordWidth == 0
            && HoldsLine(size / wordWidth, width, bpp, wordWidth)
            && (forall k: nat | HoldsLine(k, width, bpp, wordWidth) :: size <= k * wordWidth)
            && size >= width * bpp
  {
    var p := wordWidth / bpp;
    WholePixels(bpp, wordWidth);
    var c := CeilDiv(width, p);
    ModUnique(c * wordWidth, wordWidth, c, 0);
    CeilDivLeast(width, p, c);
    forall k: nat | HoldsLine(k, width, bpp, wordWidth) ensures c * wordWidth <= k * wordWidth {
      CeilDivLeast(width, p, k);
      MulAtLeast(wordWidth, k, c);
    }
    PixelsFit(width, bpp, wordWidth, p, c);
  }

  lemma {:induction false} PixelsFit(width: nat, bpp: nat, wordWidth: nat, p: nat, c: nat)
    requires bpp > 0 && p == wordWidth / bpp && c * p >= width
    ensures c * wordWidth >= width * bpp
  {
    assert wordWidth >= p * bpp;
    MulAtLeast(c, wordWidth, p * bpp);
    MulAtLeast(bpp, c * p, width);
    assert c * (p * bpp) == c * p * bpp;
  }

  /** Bytes per pixel coded in a pixel format. */
  function FormatBpp(fmt: uint32): (r: uint16) {
    (fmt / 0x1_0000) % 0x100 / 8
  }

  /** The words of a line as the source computes them in binary32 are the integer ceiling. */
  lemma {:induction false} FloatWords(width: uint16, p: nat)
    requires 1 <= p <= 255
    ensures Round32(width as real) == width as real && Round32(p as real) == p as real
    ensures 0.0 <= width as real / p as real < 16777216.0
    ensures Ceil(Round32(width as real / p as real)) == CeilDiv(width, p) <= width
  {
    hide Round32, Ceil, IsBinary32;
    WordsOfLine(width, p);
    IntegersExact(width);
    IntegersExact(p);
    RoundedCeil(width, p);
  }

  /** A product of integers below 2^24 is exact in binary32. */
  lemma {:induction false} FloatProduct(a: nat, b: nat, c: nat)
    requires a < TWO24 && b < TWO24 && c < TWO24 && a * b == c
    ensures Round32(a as real) == a as real && Round32(b as real) == b as real
    ensures InRange(a as real, b as real)
    ensures Times32(a as real, b as real) == c as real
  {
    hide Round32, IsBinary32;
    IntegersExact(a);
    IntegersExact(b);
    IntegersExact(c);
    RealProduct(a, b);
    assert a as real * b as real == c as real;
  }

  lemma {:induction false} WordsOfLine(width: nat, p: nat)
    requires p >= 1
    ensures CeilDiv(width, p) <= width
  {
    hide CeilDiv;
    CeilDivLeast(width, p, width);
    MulAtLeast(width, p, 1);
  }

  lemma {:induction false} RealProduct(a: nat, b: nat)
    ensures a as real * b as real == (a * b) as real
  {
  }

  lemma {:induction false} WholePixels(bpp: nat, wordWidth: nat)
    requires 1 <= bpp <= wordWidth
    ensures 1 <= wordWidth / bpp <= wordWidth
  {
    assert wordWidth == bpp * (wordWidth / bpp) + wordWidth % bpp;
  }

  lemma {:induction false} FrameHoldsPixels(width: nat, height: nat, bpp: nat, wordWidth: nat)
    requires 1 <= bpp <= wordWidth
    ensures LineSize(width, bpp, wordWidth) * height >= width * height * bpp
  {
    LineSizeMeaning(width, bpp, wordWidth);
    MulAtLeast(height, LineSize(width, bpp, wordWidth), width * bpp);
    assert width * bpp * height == width * height * bpp;
  }

  /** A format's third byte counts its bits per pixel: its whole bytes are the pixel size. */
  lemma {:induction false} FormatBppIs(top: nat, bits: nat, low: nat)
    requires top < 0x100 && bits < 0x100 && low < 0x1_0000
    ensures FormatBpp(top * 0x100_0000 + bits * 0x1_0000 + low) == bits / 8
  {
    ModUnique(top * 0x100_0000 + bits * 0x1_0000 + low, 0x1_0000, top * 0x100 + bits, low);
    ModUnique(top * 0x100 + bits, 0x100, top, bits);
  }

  /** For one format of each size: Mono8, Mono10, RGB8 and RGBa8. */
  lemma {:induction false} SomeFormats()
    ensures FormatBpp(0x01080001) == 1 && FormatBpp(0x01100003) == 2
    ensures FormatBpp(0x02180014) == 3 && FormatBpp(0x02200016) == 4
  {
    FormatBppIs(0x01, 0x08, 0x0001);
    FormatBppIs(0x01, 0x10, 0x0003);
    FormatBppIs(0x02, 0x18, 0x0014);
    FormatBppIs(0x02, 0x20, 0x0016);
  }

  class FrameFormat {
    var width: uint16
    var height: uint16
    var pixFmt: uint32
    var bpp: uint16
    var wordWidth: byte
    var pixPerWord: uint16
    var hsize: uint16

    /** The derived fields are those of the current width, pixel size and word width. */
    ghost predicate Consistent()
      reads this
    {
      && 1 <= bpp <= wordWidth
      && pixPerWord == wordWidth / bpp
      && hsize == LineSize(width, bpp, wordWidth)
    }

    constructor ()
      ensures Consistent()
      ensures width == height == hsize == 0 && pixFmt == UNKNOWN
      ensures bpp == 1 && wordWidth == pixPerWord == 4
    {
      width, height, pixFmt, bpp, wordWidth, pixPerWord, hsize := 0, 0, UNKNOWN, 1, 4, 4, 0;
    }

    method UpdateFrmDim(w: uint16, h: uint16)
      modifies this`width, this`height
      ensures width == w && height == h
    {
      width, height := w, h;
    }

    method UpdateBpp(bytesPerPixel: uint16)
      modifies this`pixFmt, this`bpp
      ensures pixFmt == UNKNOWN && bpp == bytesPerPixel
    {
      pixFmt := UNKNOWN;
      bpp := bytesPerPixel;
    }

    /** Fails, changing nothing, for the unknown format. */
    method UpdatePxFmt(fmt: uint32) returns (ok: bool)
      modifies this`pixFmt, this`bpp
      ensures ok == (fmt != UNKNOWN)
      ensures ok ==> pixFmt == fmt && bpp == FormatBpp(fmt)
      ensures !ok ==> pixFmt == old(pixFmt) && bpp == old(bpp)
    {
      if fmt == UNKNOWN { return false; }
      pixFmt := fmt;
      bpp := FormatBpp(fmt);
      ok := true;
    }

    /** Computed in binary32, exact all the same. The second precondition keeps the final
        conversion to 16 bits defined. */
    method UpdateHsize()
      requires 1 <= bpp <= wordWidth && LineSize(width, bpp, wordWidth) < 0x1_0000
      modifies this`pixPerWord, this`hsize
      ensures Consistent()
    {
      hide Round32, CeilDiv, Ceil, InRange, Times32;
      WholePixels(bpp, wordWidth);
      pixPerWord := wordWidth / bpp;
      FloatWords(width, pixPerWord);
      var words := Ceil(Round32(Round32(width as real) / Round32(pixPerWord as real)));
      ghost var size := LineSize(width, bpp, wordWidth);
      FloatProduct(words, wordWidth, size);
      hide LineSize;
      hsize := Times32(Round32(words as real), Round32(wordWidth as real)).Floor;
    }

    method SetFormatBytes(w: uint16, h: uint16, bytesPerPixel: uint16, ww: byte)
      requires 1 <= bytesPerPixel <= ww && LineSize(w, bytesPerPixel, ww) < 0x1_0000
      modifies this
      ensures Consistent()
      ensures width == w && height == h && bpp == bytesPerPixel && wordWidth == ww && pixFmt == UNKNOWN
    {
      hide LineSize;
      UpdateFrmDim(w, h);
      UpdateBpp(bytesPerPixel);
      wordWidth := ww;
      UpdateHsize();
    }

    /** With the unknown format this throws after the dimensions have changed: the derived fields
        then agree only if the new width happens to need the same line size. */
    method SetFormatPix(w: uint16, h: uint16, fmt: uint32, ww: byte) returns (ok: bool)
      requires fmt != UNKNOWN ==> 1 <= FormatBpp(fmt) <= ww && LineSize(w, FormatBpp(fmt), ww) < 0x1_0000
      modifies this
      ensures ok == (fmt != UNKNOWN)
      ensures width == w && height == h
      ensures ok ==> Consistent() && bpp == FormatBpp(fmt) && wordWidth == ww && pixFmt == fmt
      ensures !ok ==> bpp == old(bpp) && wordWidth == old(wordWidth) && pixFmt == old(pixFmt)
      ensures !ok ==> pixPerWord == old(pixPerWord) && hsize == old(hsize)
      ensures !ok && old(Consistent()) ==>
                (Consistent() <==> LineSize(w, bpp, wordWidth) == old(LineSize(width, bpp, wordWidth)))
    {
      hide LineSize;
      UpdateFrmDim(w, h);
      ok := UpdatePxFmt(fmt);
      if !ok { return; }
      wordWidth := ww;
      UpdateHsize();
    }

    method SetDim(w: uint16, h: uint16)
      requires 1 <= bpp <= wordWidth && LineSize(w, bpp, wordWidth) < 0x1_0000
      modifies this`width, this`height, this`pixPerWord, this`hsize
      ensures Consistent() && width == w && height == h
    {
      hide LineSize;
      UpdateFrmDim(w, h);
      UpdateHsize();
    }

    method SetBpp(bytesPerPixel: uint16)
      requires 1 <= bytesPerPixel <= wordWidth && LineSize(width, bytesPerPixel, wordWidth) < 0x1_0000
      modifies this`pixFmt, this`bpp, this`pixPerWord, this`hsize
      ensures Consistent() && bpp == bytesPerPixel && pixFmt == UNKNOWN
    {
      hide LineSize;
      UpdateBpp(bytesPerPixel);
      UpdateHsize();
    }

    /** Throws, changing nothing, for the unknown format. */
    method SetPixFmt(fmt: uint32) returns (ok: bool)
      requires fmt != UNKNOWN ==>
                 1 <= FormatBpp(fmt) <= wordWidth && LineSize(width, FormatBpp(fmt), wordWidth) < 0x1_0000
      modifies this`pixFmt, this`bpp, this`pixPerWord, this`hsize
      ensures ok == (fmt != UNKNOWN)
      ensures ok ==> Consistent() && bpp == FormatBpp(fmt) && pixFmt == fmt
      ensures !ok ==> pixFmt == old(pixFmt) && bpp == old(bpp) && pixPerWord == old(pixPerWord) && hsize == old(hsize)
    {
      hide LineSize;
      ok := UpdatePxFmt(fmt);
      if ok { UpdateHsize(); }
    }

    method SetWordWidth(ww: byte)
      requires 1 <= bpp <= ww && LineSize(width, bpp, ww) < 0x1_0000
      modifies this`wordWidth, this`pixPerWord, this`hsize
      ensures Consistent() && wordWidth == ww
    {
      hide LineSize;
      wordWidth := ww;
      UpdateHsize();
    }

    /** Bytes of a frame: room for every pixel. The precondition keeps the int product defined. */
    method GetFrmSize() returns (size: nat)
      requires Consistent() && hsize * height < 0x8000_0000
      ensures size == LineSize(width, bpp, wordWidth) * height
      ensures size >= width * height * bpp
    {
      size := hsize * height;
      FrameHoldsPixels(width, height, bpp, wordWidth);
    }
  }
}
