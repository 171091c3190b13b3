/**
 * Menu icons as premultiplied 32-bit ARGB bitmaps (PARGB32Utils).
 *
 * An icon is drawn into a buffered-paint DIB; when the drawn pixels carry no
 * alpha at all, the icon's mask is applied: masked pixels become transparent
 * black and the others are made opaque. Pixel windows are cx by cy cells whose
 * rows lie cxRow cells apart in the buffer, walked row by row as the source's
 * pointer loops do. The class records every bitmap it hands out in its image
 * list and deletes them all when destroyed.
 */
module Pargb32 {
  import opened Common
  import opened ImageLists

  /** A 32-bit pixel: alpha in the top byte, then red, green and blue. */
  type ARGB = bv32

  /** The alpha byte. */
  function Alpha(v: ARGB): bv32 {
    v >> 24
  }

  /** The colour bytes, red, green and blue. */
  function Color(v: ARGB): bv32 {
    v & 0x00FF_FFFF
  }

  /** `v & 0xFF000000`, the source's alpha test, is a test of the alpha byte. */
  lemma MaskTestsAlpha(v: ARGB)
    ensures (v & 0xFF00_0000 != 0) <==> Alpha(v) != 0
  {
  }

  /** Premultiplied: no colour channel exceeds the alpha. */
  predicate Premultiplied(v: ARGB) {
    (v >> 16) & 0xFF <= Alpha(v) && (v >> 8) & 0xFF <= Alpha(v) && v & 0xFF <= Alpha(v)
  }

  /** HRESULT values, as the signed 32-bit numbers SUCCEEDED tests. */
  const S_OK: int := 0
  const E_OUTOFMEMORY: int := 0x8007_000E - 0x1_0000_0000
  const E_UNEXPECTED: int := 0x8000_FFFF - 0x1_0000_0000

  /** `SUCCEEDED(hr)` */
  predicate Succeeded(hr: int) {
    hr >= 0
  }

  /** The cell of pixel (x, y) in a buffer whose rows are cxRow cells apart. */
  function At(cxRow: nat, x: nat, y: nat): nat {
    RowAt(cxRow, y) + x
  }

  /** A cx-by-cy window with rows cxRow apart fits in len cells. */
  predicate Fits(len: nat, cx: nat, cy: nat, cxRow: nat) {
    cx <= cxRow && (cy == 0 || RowAt(cxRow, cy - 1) + cx <= len)
  }

  /** Every row of a window that fits lies in the buffer. */
  lemma RowFits(len: nat, cx: nat, cy: nat, cxRow: nat, y: nat)
    requires Fits(len, cx, cy, cxRow) && y < cy
    ensures RowAt(cxRow, y) + cx <= len
  {
    RowAtMono(cxRow, y, cy - 1);
  }

  /** Cell i is one of the first cx cells of one of the first `rows` rows. */
  ghost predicate InWindow(i: int, cx: nat, rows: nat, cxRow: nat) {
    exists y :: 0 <= y < rows && RowAt(cxRow, y) <= i < RowAt(cxRow, y) + cx
  }

  /** Some pixel of the window has a non-zero alpha byte. */
  ghost predicate AlphaIn(s: seq<ARGB>, cx: nat, cy: nat, cxRow: nat) {
    exists y, x :: 0 <= y < cy && 0 <= x < cx && At(cxRow, x, y) < |s| && Alpha(s[At(cxRow, x, y)]) != 0
  }

  /** No pixel of the first `rows` rows of the window has a non-zero alpha byte. */
  ghost predicate NoAlphaIn(s: seq<ARGB>, cx: nat, rows: nat, cxRow: nat) {
    forall y, x :: 0 <= y < rows && 0 <= x < cx && At(cxRow, x, y) < |s| ==> Alpha(s[At(cxRow, x, y)]) == 0
  }

  /**
   * `HasAlpha(pargb, imgSize, cxRow)`: walk the window row by row, skipping
   * cxRow - cx cells after each row, and report whether any pixel has alpha.
   */
  method HasAlpha(pargb: array<ARGB>, cx: nat, cy: nat, cxRow: nat) returns (r: bool)
    requires Fits(pargb.Length, cx, cy, cxRow)
    ensures r <==> AlphaIn(pargb[..], cx, cy, cxRow)
  {
    var cxDelta := cxRow - cx;
    var p := 0;
    var y := cy;
    while y > 0
      invariant 0 <= y <= cy && p == RowAt(cxRow, cy - y)
      invariant NoAlphaIn(pargb[..], cx, cy - y, cxRow)
    {
      RowFits(pargb.Length, cx, cy, cxRow, cy - y);
      var x := cx;
      while x > 0
        invariant 0 <= x <= cx && p == At(cxRow, cx - x, cy - y)
        invariant forall i :: RowAt(cxRow, cy - y) <= i < p ==> Alpha(pargb[i]) == 0
      {
        MaskTestsAlpha(pargb[p]);
        if pargb[p] & 0xFF00_0000 != 0 {
          assert Alpha(pargb[..][At(cxRow, cx - x, cy - y)]) != 0;
          return true;
        }
        p := p + 1;
        x := x - 1;
      }
      p := p + cxDelta;
      y := y - 1;
    }
    return false;
  }

  /**
   * What the conversion makes of pixel v under mask pixel m: transparent
   * black where the mask is set, v made opaque with its colour kept elsewhere.
   */
  function ToPARGB(v: ARGB, m: ARGB): (r: ARGB)
    ensures m != 0 ==> r == 0
    ensures m == 0 ==> Alpha(r) == 0xFF && Color(r) == Color(v)
  {
    if m != 0 then 0 else v | 0xFF00_0000
  }

  /** Every converted pixel is a valid premultiplied pixel. */
  lemma ConvertedPremultiplied(v: ARGB, m: ARGB)
    ensures Premultiplied(ToPARGB(v, m))
  {
  }

  /**
   * The first `rows` rows of the window in `after` are those of `before`
   * converted against the mask (whose rows are cx apart); no other cell changed.
   */
  ghost predicate Converted(before: seq<ARGB>, after: seq<ARGB>, mask: seq<ARGB>, cx: nat, rows: nat, cxRow: nat) {
    && |after| == |before|
    && (forall y, x :: 0 <= y < rows && 0 <= x < cx && At(cxRow, x, y) < |before| && At(cx, x, y) < |mask| ==>
          after[At(cxRow, x, y)] == ToPARGB(before[At(cxRow, x, y)], mask[At(cx, x, y)]))
    && (forall i :: 0 <= i < |after| && !InWindow(i, cx, rows, cxRow) ==> after[i] == before[i])
  }

  /** The inner loop of ConvertToPARGB32: convert the cx pixels from `start` against the mask from `mstart`. */
  method ConvertRow(pargb: array<ARGB>, start: nat, mask: seq<ARGB>, mstart: nat, cx: nat)
    requires start + cx <= pargb.Length && mstart + cx <= |mask|
    modifies pargb
    ensures forall i :: start <= i < start + cx ==> pargb[i] == ToPARGB(old(pargb[i]), mask[mstart + (i - start)])
    ensures forall i :: 0 <= i < pargb.Length && !(start <= i < start + cx) ==> pargb[i] == old(pargb[i])
  {
    var p, q := start, mstart;
    var x := cx;
    while x > 0
      invariant 0 <= x <= cx && p == start + (cx - x) && q == mstart + (cx - x)
      invariant forall i :: start <= i < p ==> pargb[i] == ToPARGB(old(pargb[i]), mask[mstart + (i - start)])
      invariant forall i :: 0 <= i < pargb.Length && !(start <= i < p) ==> pargb[i] == old(pargb[i])
    {
      if mask[q] != 0 {
        pargb[p] := 0;
      } else {
        pargb[p] := pargb[p] | 0xFF00_0000;
      }
      p, q := p + 1, q + 1;
      x := x - 1;
    }
  }

  /** A cell at or after the start of row r lies in none of the rows before it. */
  lemma NotInEarlierRows(i: int, cx: nat, r: nat, cxRow: nat)
    requires cx <= cxRow && RowAt(cxRow, r) <= i
    ensures !InWindow(i, cx, r, cxRow)
  {
    forall y | 0 <= y < r
      ensures RowAt(cxRow, y) + cx <= i
    {
      RowAtMono(cxRow, y + 1, r);
    }
  }

  /** The window of r + 1 rows is that of r rows and row r. */
  lemma InWindowGrows(i: int, cx: nat, r: nat, cxRow: nat)
    ensures InWindow(i, cx, r + 1, cxRow) <==> InWindow(i, cx, r, cxRow) || RowAt(cxRow, r) <= i < RowAt(cxRow, r) + cx
  {
    if InWindow(i, cx, r + 1, cxRow) {
      var y :| 0 <= y < r + 1 && RowAt(cxRow, y) <= i < RowAt(cxRow, y) + cx;
      if y < r {
        assert InWindow(i, cx, r, cxRow);
      }
    }
  }

  /** Converting row r of the window after rows 0..r-1 extends the conversion to r + 1 rows. */
  lemma RowConverted(before: seq<ARGB>, mid: seq<ARGB>, after: seq<ARGB>, mask: seq<ARGB>,
                     cx: nat, cxRow: nat, r: nat)
    requires cx <= cxRow && Converted(before, mid, mask, cx, r, cxRow) && |after| == |mid|
    requires RowAt(cxRow, r) + cx <= |after| && RowAt(cx, r) + cx <= |mask|
    requires forall i :: RowAt(cxRow, r) <= i < RowAt(cxRow, r) + cx ==>
               after[i] == ToPARGB(mid[i], mask[RowAt(cx, r) + (i - RowAt(cxRow, r))])
    requires forall i :: 0 <= i < |after| && !(RowAt(cxRow, r) <= i < RowAt(cxRow, r) + cx) ==> after[i] == mid[i]
    ensures Converted(before, after, mask, cx, r + 1, cxRow)
  {
    forall y, x | 0 <= y < r + 1 && 0 <= x < cx && At(cxRow, x, y) < |before| && At(cx, x, y) < |mask|
      ensures after[At(cxRow, x, y)] == ToPARGB(before[At(cxRow, x, y)], mask[At(cx, x, y)])
    {
      if y < r {
        RowOffset(y, r, cxRow, x);
        assert after[At(cxRow, x, y)] == mid[At(cxRow, x, y)];
      } else {
        NotInEarlierRows(At(cxRow, x, r), cx, r, cxRow);
      }
    }
    forall i | 0 <= i < |after| && !InWindow(i, cx, r + 1, cxRow)
      ensures after[i] == before[i]
    {
      InWindowGrows(i, cx, r, cxRow);
    }
  }

  /**
   * `ConvertToPARGB32(hdc, pargb, hbmp, imgSize, cxRow)`: read the mask
   * bitmap into a temporary buffer and convert the window against it.
   * `gotBuffer` is whether HeapAlloc succeeded, `lines` what GetDIBits
   * returned and `mask` the buffer it filled, cx pixels per row. Failing to
   * allocate gives E_OUTOFMEMORY, a short read E_UNEXPECTED, both with the
   * pixels untouched; the buffer is freed exactly when it was gotBuffer.
   */
  method ConvertToPARGB32(pargb: array<ARGB>, cx: nat, cy: nat, cxRow: nat,
                          gotBuffer: bool, lines: int, mask: seq<ARGB>) returns (hr: int, ghost freed: bool)
    requires Fits(pargb.Length, cx, cy, cxRow) && |mask| == RowAt(cx, cy)
    modifies pargb
    ensures ConvertedAs(hr, old(pargb[..]), pargb[..], mask, cx, cy, cxRow, gotBuffer, lines)
    ensures freed == gotBuffer
  {
    if !gotBuffer {
      return E_OUTOFMEMORY, false;
    }
    hr := E_UNEXPECTED;
    if lines == cy {
      ConvertWindow(pargb, cx, cy, cxRow, mask);
      hr := S_OK;
    }
    freed := true;
  }

  /** The result of ConvertToPARGB32 for the given allocation and GetDIBits outcomes. */
  ghost predicate ConvertedAs(hr: int, before: seq<ARGB>, after: seq<ARGB>, mask: seq<ARGB>,
                              cx: nat, cy: nat, cxRow: nat, gotBuffer: bool, lines: int) {
    && (!gotBuffer ==> hr == E_OUTOFMEMORY && after == before)
    && (gotBuffer && lines != cy ==> hr == E_UNEXPECTED && after == before)
    && (gotBuffer && lines == cy ==> hr == S_OK && Converted(before, after, mask, cx, cy, cxRow))
  }

  /** The pixel loop of ConvertToPARGB32: every row of the window, cxRow - cx cells skipped after each. */
  method ConvertWindow(pargb: array<ARGB>, cx: nat, cy: nat, cxRow: nat, mask: seq<ARGB>)
    requires Fits(pargb.Length, cx, cy, cxRow) && |mask| == RowAt(cx, cy)
    modifies pargb
    ensures Converted(old(pargb[..]), pargb[..], mask, cx, cy, cxRow)
  {
    var cxDelta := cxRow - cx;
    var p, q := 0, 0;
    var y := cy;
    while y > 0
      invariant 0 <= y <= cy && p == RowAt(cxRow, cy - y) && q == RowAt(cx, cy - y)
      invariant Converted(old(pargb[..]), pargb[..], mask, cx, cy - y, cxRow)
    {
      var r := cy - y;
      RowFits(pargb.Length, cx, cy, cxRow, r);
      RowAtMono(cx, r + 1, cy);
      ghost var mid := pargb[..];
      ConvertRow(pargb, p, mask, q, cx);
      RowConverted(old(pargb[..]), mid, pargb[..], mask, cx, cxRow, r);
      p, q := p + cx + cxDelta, q + cx;
      y := y - 1;
    }
  }

  /** Every pixel of a window that fits lies in the buffer. */
  lemma PixelFits(len: nat, cx: nat, cy: nat, cxRow: nat, x: nat, y: nat)
    requires Fits(len, cx, cy, cxRow) && x < cx && y < cy
    ensures At(cxRow, x, y) < len
  {
    RowAtMono(cxRow, y, cy - 1);
  }

  /** Some pixel of the window is left unmasked by the mask, whose rows are cx apart. */
  ghost predicate Unmasked(mask: seq<ARGB>, cx: nat, cy: nat) {
    exists y, x :: 0 <= y < cy && 0 <= x < cx && At(cx, x, y) < |mask| && mask[At(cx, x, y)] == 0
  }

  /**
   * After a conversion the window has alpha exactly when the mask leaves
   * some pixel unmasked: the unmasked pixels have become opaque and the
   * masked ones transparent.
   */
  lemma ConvertedAlpha(before: seq<ARGB>, after: seq<ARGB>, mask: seq<ARGB>, cx: nat, cy: nat, cxRow: nat)
    requires Fits(|before|, cx, cy, cxRow) && |mask| == RowAt(cx, cy)
    requires Converted(before, after, mask, cx, cy, cxRow)
    ensures AlphaIn(after, cx, cy, cxRow) <==> Unmasked(mask, cx, cy)
  {
    if AlphaIn(after, cx, cy, cxRow) {
      var y, x :| 0 <= y < cy && 0 <= x < cx && At(cxRow, x, y) < |after| && Alpha(after[At(cxRow, x, y)]) != 0;
      RowOffset(y, cy, cx, x);
      assert mask[At(cx, x, y)] == 0;
    }
    if Unmasked(mask, cx, cy) {
      var y, x :| 0 <= y < cy && 0 <= x < cx && At(cx, x, y) < |mask| && mask[At(cx, x, y)] == 0;
      PixelFits(|before|, cx, cy, cxRow, x, y);
      assert Alpha(after[At(cxRow, x, y)]) == 0xFF;
    }
  }

  /** What GetIconInfo reports: the icon's colour and mask bitmaps, either of which may be null. */
  datatype IconInfo = IconInfo(hbmColor: Option<HBitmap>, hbmMask: Option<HBitmap>)

  /**
   * ConvertBufferToPARGB32 converts the buffer when the paint bits were
   * obtained, the window has no alpha, GetIconInfo succeeded and the icon
   * has a mask bitmap.
   */
  ghost predicate Converts(bitsHr: int, pixels: seq<ARGB>, cx: nat, cy: nat, cxRow: nat, info: Option<IconInfo>) {
    Succeeded(bitsHr) && !AlphaIn(pixels, cx, cy, cxRow) && info.Some? && info.value.hbmMask.Some?
  }

  /** The bitmaps ConvertBufferToPARGB32 deletes: both of GetIconInfo's, whenever it was called and succeeded. */
  ghost function IconBitmapsDeleted(bitsHr: int, pixels: seq<ARGB>, cx: nat, cy: nat, cxRow: nat,
                                    info: Option<IconInfo>): seq<Option<HBitmap>> {
    if Succeeded(bitsHr) && !AlphaIn(pixels, cx, cy, cxRow) && info.Some? then [info.value.hbmColor, info.value.hbmMask]
    else []
  }

  /**
   * `ConvertBufferToPARGB32(hPaintBuffer, hdc, hIcon, iconSize)`. `bitsHr`
   * is what GetBufferedPaintBits returned, with pargb and cxRow the buffer
   * and row length it reported; `info` is what GetIconInfo returned (None
   * when it failed); `gotBuffer`, `lines` and `mask` are the outcomes
   * ConvertToPARGB32 sees. Unless the buffer is converted the result is
   * bitsHr and no pixel changes.
   */
  method ConvertBufferToPARGB32(bitsHr: int, pargb: array<ARGB>, cx: nat, cy: nat, cxRow: nat, info: Option<IconInfo>,
                                gotBuffer: bool, lines: int, mask: seq<ARGB>)
    returns (hr: int, ghost deleted: seq<Option<HBitmap>>)
    requires Succeeded(bitsHr) ==> Fits(pargb.Length, cx, cy, cxRow)
    requires |mask| == RowAt(cx, cy)
    modifies pargb
    ensures Converts(bitsHr, old(pargb[..]), cx, cy, cxRow, info) ==>
              ConvertedAs(hr, old(pargb[..]), pargb[..], mask, cx, cy, cxRow, gotBuffer, lines)
    ensures !Converts(bitsHr, old(pargb[..]), cx, cy, cxRow, info) ==> hr == bitsHr && pargb[..] == old(pargb[..])
    ensures deleted == IconBitmapsDeleted(bitsHr, old(pargb[..]), cx, cy, cxRow, info)
  {
    hr := bitsHr;
    deleted := [];
    if Succeeded(hr) {
      var alpha := HasAlpha(pargb, cx, cy, cxRow);
      if !alpha {
        if info.Some? {
          if info.value.hbmMask.Some? {
            ghost var freed;
            hr, freed := ConvertToPARGB32(pargb, cx, cy, cxRow, gotBuffer, lines, mask);
          }
          deleted := [info.value.hbmColor, info.value.hbmMask];
        }
      }
    }
  }

  /** A device context handle. */
  datatype HDC = HDC(handle: nat)

  /** An icon handle. */
  datatype HIcon = HIcon(handle: nat)

  /**
   * `create32BitBitmap(hdc, size, bits, phBmp)`: create a 32-bit DIB section
   * on hdc, or on the screen DC when hdc is null. `screen` is what GetDC
   * returns and `section` what CreateDIBSection returns; `released` is
   * whether a screen DC was obtained and so released again.
   */
  method Create32BitBitmap(hdc: Option<HDC>, screen: Option<HDC>, section: Option<HBitmap>)
    returns (ok: bool, bmp: Option<HBitmap>, ghost released: bool)
    ensures hdc.Some? ==> bmp == section && !released
    ensures hdc.None? && screen.Some? ==> bmp == section && released
    ensures hdc.None? && screen.None? ==> bmp == None && !released
    ensures ok <==> bmp.Some?
  {
    bmp := None;
    released := false;
    var theDC := if hdc.Some? then hdc else screen;
    if theDC.Some? {
      bmp := section;
      if theDC != hdc {
        released := true;
      }
    }
    ok := bmp.Some?;
  }

  /**
   * `PARGB32Utils`: the uxtheme entry points found when it was constructed,
   * and the list of every bitmap it has handed out, which it deletes when
   * destroyed.
   */
  class PARGB32Utils {
    /** The ImageList `images`. */
    const images: ImageList
    /** Whether GetBufferedPaintBits, BeginBufferedPaint and EndBufferedPaint were found. */
    const hasGetBits: bool
    const hasBeginPaint: bool
    const hasEndPaint: bool
    /** The bitmaps handed out by BitmapFromIcon, newest first. */
    ghost var handedOut: seq<Option<HBitmap>>
    /** The icons destroyed, in order. */
    ghost var destroyedIcons: seq<HIcon>
    /** The memory DCs created and deleted, in order. */
    ghost var deletedDCs: seq<HDC>

    /**
     * `PARGB32Utils()`: `library` is whether LoadLibrary found UXTHEME.DLL and
     * the others whether GetProcAddress found each entry point there.
     */
    constructor(library: bool, getBits: bool, beginPaint: bool, endPaint: bool)
      ensures Valid() && images.images == [] && handedOut == []
      ensures hasGetBits == (library && getBits) && hasBeginPaint == (library && beginPaint)
      ensures hasEndPaint == (library && endPaint)
      ensures destroyedIcons == [] && deletedDCs == []
    {
      images := new ImageList();
      hasGetBits := library && getBits;
      hasBeginPaint := library && beginPaint;
      hasEndPaint := library && endPaint;
      handedOut := [];
      destroyedIcons := [];
      deletedDCs := [];
    }

    /** The list is valid and holds exactly the bitmaps handed out, none of them null. */
    ghost predicate Valid()
      reads this, images, images.list, images.list.Elems(), images.Images(), images.owner.Keys
    {
      var list_ok := images.Valid() && this !in images.owner;
      var held := |handedOut| == |images.images| && None !in handedOut;
      list_ok && held && forall i :: 0 <= i < |handedOut| ==> images.images[i].hBitmap == handedOut[i]
    }

    /** All three uxtheme entry points are present. */
    predicate HasUxTheme()
      reads this
    {
      hasBeginPaint && hasEndPaint && hasGetBits
    }

    /**
     * `bitmapFromIcon(hIcon)`: a null icon gives null; without uxtheme the
     * icon is destroyed and the result is null. Otherwise a memory DC is
     * created (`dest`), a 32-bit bitmap made on it (`section`) and painted,
     * the DC deleted and the icon destroyed; a bitmap that was made is
     * inserted at the head of the list and returned.
     */
    method BitmapFromIcon(hIcon: Option<HIcon>, dest: Option<HDC>, section: Option<HBitmap>) returns (ret: Option<HBitmap>)
      requires Valid()
      modifies this, images, images.list, images.list.Elems()
      ensures Valid()
      ensures ret == (if hIcon.Some? && HasUxTheme() && dest.Some? then section else None)
      ensures destroyedIcons == old(destroyedIcons) + (if hIcon.Some? then [hIcon.value] else [])
      ensures deletedDCs == old(deletedDCs) + (if hIcon.Some? && HasUxTheme() && dest.Some? then [dest.value] else [])
      ensures ret.Some? ==> handedOut == [ret] + old(handedOut) && fresh(images.images[0])
      ensures ret.None? ==> handedOut == old(handedOut) && images.images == old(images.images)
    {
      ret := None;
      if hIcon.None? {
        return None;
      }
      if !hasBeginPaint || !hasEndPaint || !hasGetBits {
        destroyedIcons := destroyedIcons + [hIcon.value];
        return None;
      }
      if dest.Some? {
        ghost var released;
        var ok;
        ok, ret, released := Create32BitBitmap(dest, None, section);
        deletedDCs := deletedDCs + [dest.value];
      }
      destroyedIcons := destroyedIcons + [hIcon.value];
      if ret.Some? {
        Keep(ret.value);
      }
    }

    /** `images.insert(newImage)` for a new image holding h: h is handed out. */
    method Keep(h: HBitmap)
      requires Valid()
      modifies this`handedOut, images, images.list, images.list.Elems()
      ensures Valid() && handedOut == [Some(h)] + old(handedOut) && fresh(images.images[0])
    {
      var newImage := images.NewAtHead(Some(h));
      handedOut := [Some(h)] + handedOut;
    }

    /** `~PARGB32Utils()`: delete the head image until the list is empty; every bitmap handed out is deleted. */
    method Destroy() returns (ghost deleted: seq<Option<HBitmap>>)
      requires Valid()
      modifies this, images, images.list, images.list.Elems(), images.Images(), images.owner.Keys
      ensures Valid() && images.images == [] && handedOut == []
      ensures deleted == old(handedOut)
    {
      ghost var before := HandlesOf(images.images);
      assert before == handedOut;
      deleted := images.Clear();
      handedOut := [];
    }
  }
}
