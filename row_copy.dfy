/**
 * The write path's pixel copy: `height` rows of `srcStride` bytes each, read
 * from a source with row pitch `srcStride`, land at the start of consecutive
 * rows of a destination plane with row pitch `destStride >= srcStride`.
 */
module RowCopy {
  import opened Primitives

  /** `s` with `row` written over it from offset `off` on. */
  function Overwrite(s: seq<byte>, off: nat, row: seq<byte>): (r: seq<byte>)
    requires off + |row| <= |s|
    ensures |r| == |s|
    ensures forall i :: 0 <= i < |s| ==> r[i] == if off <= i < off + |row| then row[i - off] else s[i]
  {
    s[..off] + row + s[off + |row|..]
  }

  /** Where row y starts in a buffer of row pitch `stride`: y * stride, counted row by row. */
  function RowStart(y: nat, stride: nat): nat {
    if y == 0 then 0 else RowStart(y - 1, stride) + stride
  }

  lemma {:induction false} RowStartIsProduct(y: nat, stride: nat)
    ensures RowStart(y, stride) == y * stride
  {
    if y > 0 {
      RowStartIsProduct(y - 1, stride);
      assert (y - 1) * stride + stride == y * stride;
    }
  }

  /** A row lies wholly before every later row's start. */
  lemma {:induction false} RowStartMono(y: nat, later: nat, stride: nat)
    requires y < later
    ensures RowStart(y, stride) + stride <= RowStart(later, stride)
  {
    if y + 1 < later {
      RowStartMono(y, later - 1, stride);
    }
  }

  /** What the buffers must hold for `rows` rows to be copied. */
  predicate Fits(src: seq<byte>, srcStride: nat, destLength: nat, destStride: nat, rows: nat) {
    srcStride <= destStride && RowStart(rows, srcStride) <= |src| && RowStart(rows, destStride) <= destLength
  }

  lemma FitsFewer(src: seq<byte>, srcStride: nat, destLength: nat, destStride: nat, rows: nat, fewer: nat)
    requires Fits(src, srcStride, destLength, destStride, rows) && fewer <= rows
    ensures Fits(src, srcStride, destLength, destStride, fewer)
  {
    if fewer < rows {
      RowStartMono(fewer, rows, srcStride);
      RowStartMono(fewer, rows, destStride);
    }
  }

  /** The destination `dest` after its first `rows` rows received the matching rows of `src`. */
  function CopiedRows(dest: seq<byte>, src: seq<byte>, srcStride: nat, destStride: nat, rows: nat): (r: seq<byte>)
    requires Fits(src, srcStride, |dest|, destStride, rows)
    ensures |r| == |dest|
    decreases rows
  {
    if rows == 0 then dest
    else
      var y := rows - 1;
      FitsFewer(src, srcStride, |dest|, destStride, rows, y);
      Overwrite(CopiedRows(dest, src, srcStride, destStride, y), RowStart(y, destStride),
                src[RowStart(y, srcStride) .. RowStart(rows, srcStride)])
  }

  /** The last row's copy leaves every byte outside it as the earlier rows left it. */
  lemma LastRowLeaves(dest: seq<byte>, src: seq<byte>, srcStride: nat, destStride: nat, rows: nat, i: nat)
    requires Fits(src, srcStride, |dest|, destStride, rows) && rows > 0 && i < |dest|
    requires i < RowStart(rows - 1, destStride) || RowStart(rows - 1, destStride) + srcStride <= i
    ensures Fits(src, srcStride, |dest|, destStride, rows - 1)
    ensures CopiedRows(dest, src, srcStride, destStride, rows)[i] == CopiedRows(dest, src, srcStride, destStride, rows - 1)[i]
  {
    FitsFewer(src, srcStride, |dest|, destStride, rows, rows - 1);
  }

  /** Byte k < srcStride of every copied row y is the source's byte k of row y. */
  lemma {:induction false} CopiedRowsAt(dest: seq<byte>, src: seq<byte>, srcStride: nat, destStride: nat, rows: nat, y: nat, k: nat)
    requires Fits(src, srcStride, |dest|, destStride, rows)
    requires y < rows && k < srcStride
    ensures y * srcStride + k < |src| && y * destStride + k < |dest|
    ensures CopiedRows(dest, src, srcStride, destStride, rows)[y * destStride + k] == src[y * srcStride + k]
  {
    RowStartIsProduct(y, srcStride);
    RowStartIsProduct(y, destStride);
    RowStartAt(dest, src, srcStride, destStride, rows, y, k);
  }

  lemma {:induction false} RowStartAt(dest: seq<byte>, src: seq<byte>, srcStride: nat, destStride: nat, rows: nat, y: nat, k: nat)
    requires Fits(src, srcStride, |dest|, destStride, rows)
    requires y < rows && k < srcStride
    ensures RowStart(y, srcStride) + k < |src| && RowStart(y, destStride) + k < |dest|
    ensures CopiedRows(dest, src, srcStride, destStride, rows)[RowStart(y, destStride) + k] == src[RowStart(y, srcStride) + k]
  {
    RowStartMono(y, rows, srcStride);
    RowStartMono(y, rows, destStride);
    var last := rows - 1;
    FitsFewer(src, srcStride, |dest|, destStride, rows, last);
    if y < last {
      RowStartMono(y, last, destStride);
      RowStartAt(dest, src, srcStride, destStride, last, y, k);
      LastRowLeaves(dest, src, srcStride, destStride, rows, RowStart(y, destStride) + k);
    }
  }

  /** Bytes of a copied row past srcStride keep their old value. */
  lemma {:induction false} CopiedRowsPadding(dest: seq<byte>, src: seq<byte>, srcStride: nat, destStride: nat, rows: nat, y: nat, k: nat)
    requires Fits(src, srcStride, |dest|, destStride, rows)
    requires y < rows && srcStride <= k < destStride
    ensures y * destStride + k < |dest|
    ensures CopiedRows(dest, src, srcStride, destStride, rows)[y * destStride + k] == dest[y * destStride + k]
  {
    RowStartIsProduct(y, destStride);
    RowPaddingKept(dest, src, srcStride, destStride, rows, y, k);
  }

  lemma {:induction false} RowPaddingKept(dest: seq<byte>, src: seq<byte>, srcStride: nat, destStride: nat, rows: nat, y: nat, k: nat)
    requires Fits(src, srcStride, |dest|, destStride, rows)
    requires y < rows && srcStride <= k < destStride
    ensures RowStart(y, destStride) + k < |dest|
    ensures CopiedRows(dest, src, srcStride, destStride, rows)[RowStart(y, destStride) + k] == dest[RowStart(y, destStride) + k]
  {
    RowStartMono(y, rows, destStride);
    var last := rows - 1;
    var i := RowStart(y, destStride) + k;
    FitsFewer(src, srcStride, |dest|, destStride, rows, last);
    if y < last {
      RowStartMono(y, last, destStride);
      RowPaddingKept(dest, src, srcStride, destStride, last, y, k);
      LastRowLeaves(dest, src, srcStride, destStride, rows, i);
    } else {
      LastRowLeaves(dest, src, srcStride, destStride, rows, i);
      TailKept(dest, src, srcStride, destStride, last, i);
    }
  }

  /** Bytes after the last copied row keep their old value. */
  lemma {:induction false} CopiedRowsBeyond(dest: seq<byte>, src: seq<byte>, srcStride: nat, destStride: nat, rows: nat, i: nat)
    requires Fits(src, srcStride, |dest|, destStride, rows)
    requires rows * destStride <= i < |dest|
    ensures CopiedRows(dest, src, srcStride, destStride, rows)[i] == dest[i]
  {
    RowStartIsProduct(rows, destStride);
    TailKept(dest, src, srcStride, destStride, rows, i);
  }

  lemma {:induction false} TailKept(dest: seq<byte>, src: seq<byte>, srcStride: nat, destStride: nat, rows: nat, i: nat)
    requires Fits(src, srcStride, |dest|, destStride, rows)
    requires RowStart(rows, destStride) <= i < |dest|
    ensures CopiedRows(dest, src, srcStride, destStride, rows)[i] == dest[i]
  {
    if rows > 0 {
      var last := rows - 1;
      FitsFewer(src, srcStride, |dest|, destStride, rows, last);
      assert RowStart(rows, destStride) == RowStart(last, destStride) + destStride;
      LastRowLeaves(dest, src, srcStride, destStride, rows, i);
      TailKept(dest, src, srcStride, destStride, last, i);
    }
  }

  /** One std::copy: `len` bytes of `src` from `srcOff` on, to `dest` from `destOff` on. */
  method CopyRow(src: seq<byte>, srcOff: nat, dest: array<byte>, destOff: nat, len: nat)
    requires srcOff + len <= |src| && destOff + len <= dest.Length
    modifies dest
    ensures dest[..] == Overwrite(old(dest[..]), destOff, src[srcOff .. srcOff + len])
  {
    forall k | 0 <= k < len {
      dest[destOff + k] := src[srcOff + k];
    }
  }

  /**
   * The loop of QHeifHandler::write that copies the RGBA rows into the libheif
   * plane, one std::copy of srcStride bytes per row, starting at y * stride.
   */
  method CopyRows(src: seq<byte>, srcStride: nat, dest: array<byte>, destStride: nat, height: nat)
    requires Fits(src, srcStride, dest.Length, destStride, height)
    modifies dest
    ensures dest[..] == CopiedRows(old(dest[..]), src, srcStride, destStride, height)
  {
    var y := 0;
    while y < height
      invariant 0 <= y <= height
      invariant Fits(src, srcStride, dest.Length, destStride, y)
      invariant dest[..] == CopiedRows(old(dest[..]), src, srcStride, destStride, y)
    {
      FitsFewer(src, srcStride, dest.Length, destStride, height, y + 1);
      RowStartIsProduct(y, srcStride);
      RowStartIsProduct(y, destStride);
      CopyRow(src, y * srcStride, dest, y * destStride, srcStride);
      y := y + 1;
    }
  }
}
