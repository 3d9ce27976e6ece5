/** memcpy by 64-bit words (extlib/memcpy.c, little endian, indexed copy). A byte is a word of 8 bits;
    memory is an array of bytes that starts at an 8-byte boundary. */
module Memcpy {
  import opened Words

  const WIDTH: nat := 8 // TYPE_WIDTH

  type Byte = b: Word | |b| == 8 witness [false, false, false, false, false, false, false, false]

  /** The little-endian word in the 8 bytes from a on. */
  function Pack(m: seq<Byte>, a: nat): (w: Word)
    requires a + WIDTH <= |m|
    ensures |w| == 64
  {
    seq(64, i requires 0 <= i < 64 => m[a + i / 8][i % 8])
  }

  /** Byte j of a word. */
  function Piece(w: Word, j: nat): Byte
    requires |w| == 64 && j < WIDTH
  {
    seq(8, b requires 0 <= b < 8 => w[8 * j + b])
  }

  lemma PackedPiece(m: seq<Byte>, a: nat, j: nat)
    requires a + WIDTH <= |m| && j < WIDTH
    ensures Piece(Pack(m, a), j) == m[a + j]
  {
    forall b | 0 <= b < 8
      ensures Piece(Pack(m, a), j)[b] == m[a + j][b]
    {
      assert (8 * j + b) / 8 == j && (8 * j + b) % 8 == b;
    }
  }

  /** The word between two neighbouring aligned ones, shift bytes on. */
  function Merged(w0: Word, w1: Word, shift: nat): (w: Word)
    requires |w0| == 64 && |w1| == 64 && shift <= WIDTH
    ensures |w| == 64
  {
    Or(Shr(w0, 8 * shift), Shl(w1, 8 * (WIDTH - shift)))
  }

  /** Two neighbouring aligned words, shifted against each other, give the unaligned word between. */
  lemma ShiftedPiece(w0: Word, w1: Word, shift: nat, j: nat)
    requires |w0| == 64 && |w1| == 64 && 0 < shift < WIDTH && j < WIDTH
    ensures Piece(Merged(w0, w1, shift), j) ==
            if j + shift < WIDTH then Piece(w0, j + shift) else Piece(w1, j + shift - WIDTH)
  {
  }

  // ----- what is copied so far -----

  ghost predicate Copied(m0: seq<Byte>, m: seq<Byte>, dest: nat, src: nat, n: nat) {
    && |m| == |m0| && dest + n <= |m0| && src + n <= |m0|
    && forall k: nat {:trigger m[k]} | k < |m| :: m[k] == if dest <= k < dest + n then m0[src + (k - dest)] else m0[k]
  }

  ghost predicate Disjoint(dest: nat, src: nat, count: nat) { dest + count <= src || src + count <= dest }

  /** Source bytes are still what they were. */
  lemma SourceKept(m0: seq<Byte>, m: seq<Byte>, dest: nat, src: nat, n: nat, count: nat, a: nat)
    requires Copied(m0, m, dest, src, n) && Disjoint(dest, src, count) && n <= count && src <= a < src + count <= |m0|
    ensures a < |m| && m[a] == m0[a]
  {
    assert !(dest <= a < dest + n);
  }

  /** Bytes src + n on: what the word register holds in its upper part. */
  ghost predicate Holds(m0: seq<Byte>, w: Word, shift: nat, a: nat, end: nat) {
    && |w| == 64 && 0 < shift < WIDTH && end <= |m0|
    && forall j: nat | shift <= j < WIDTH && a + (j - shift) < end :: Piece(w, j) == m0[a + (j - shift)]
  }

  class Memory {
    const bytes: array<Byte>

    constructor (n: nat)
      ensures fresh(bytes) && bytes.Length == n
    {
      bytes := new Byte[n];
    }

    method StoreWord(a: nat, w: Word)
      requires a + WIDTH <= bytes.Length && |w| == 64
      modifies bytes
      ensures forall k: nat | k < bytes.Length :: bytes[k] == if a <= k < a + WIDTH then Piece(w, k - a) else old(bytes[k])
    {
      var j := 0;
      while j < WIDTH
        invariant j <= WIDTH
        invariant forall k: nat | k < bytes.Length :: bytes[k] == if a <= k < a + j then Piece(w, k - a) else old(bytes[k])
      {
        bytes[a + j] := Piece(w, j);
        j := j + 1;
      }
    }

    /** One byte more. */
    method CopyByte(dest: nat, src: nat, ghost m0: seq<Byte>, ghost d0: nat, ghost s0: nat, ghost n: nat, ghost count: nat)
      requires Copied(m0, bytes[..], d0, s0, n) && Disjoint(d0, s0, count) && n < count
      requires dest == d0 + n && src == s0 + n && d0 + count <= bytes.Length && s0 + count <= bytes.Length
      modifies bytes
      ensures Copied(m0, bytes[..], d0, s0, n + 1)
    {
      SourceKept(m0, bytes[..], d0, s0, n, count, src);
      bytes[dest] := bytes[src];
    }

    /** COPY_REMAINING, and the other bytewise loops: the bytes up to position end. */
    method CopyBytes(dest: nat, src: nat, rest: nat, ghost m0: seq<Byte>, ghost d0: nat, ghost s0: nat, ghost n: nat, ghost count: nat)
      requires Copied(m0, bytes[..], d0, s0, n) && Disjoint(d0, s0, count) && n + rest <= count
      requires dest == d0 + n && src == s0 + n && d0 + count <= bytes.Length && s0 + count <= bytes.Length
      modifies bytes
      ensures Copied(m0, bytes[..], d0, s0, n + rest)
    {
      var i := 0;
      while i < rest
        invariant i <= rest && Copied(m0, bytes[..], d0, s0, n + i)
      {
        CopyByte(dest + i, src + i, m0, d0, s0, n + i, count);
        i := i + 1;
      }
    }

    /** CP: one aligned word. */
    method CopyWord(dstN: nat, srcN: nat, ghost m0: seq<Byte>, ghost d0: nat, ghost s0: nat, ghost n: nat, ghost count: nat)
      requires Copied(m0, bytes[..], d0, s0, n) && Disjoint(d0, s0, count) && n + WIDTH <= count
      requires dstN == d0 + n && srcN == s0 + n && d0 + count <= bytes.Length && s0 + count <= bytes.Length
      modifies bytes
      ensures Copied(m0, bytes[..], d0, s0, n + WIDTH)
    {
      ghost var m := bytes[..];
      var w := Pack(bytes[..], srcN);
      StoreWord(dstN, w);
      WordCopied(m0, m, bytes[..], d0, s0, n, count, w);
    }

    /** CP_SH: one unaligned word from two aligned ones; the second one is handed on. */
    method CopyShifted(dstN: nat, srcN: nat, srcWord: Word, shift: nat, ghost m0: seq<Byte>, ghost d0: nat, ghost s0: nat, ghost n: nat, ghost count: nat)
      returns (next: Word)
      requires Copied(m0, bytes[..], d0, s0, n) && Disjoint(d0, s0, count) && n + WIDTH <= count
      requires dstN == d0 + n && srcN == s0 + n - shift + WIDTH && d0 + count <= bytes.Length && s0 + count <= bytes.Length
      requires Holds(m0, srcWord, shift, s0 + n, s0 + count) && srcN + WIDTH <= bytes.Length
      modifies bytes
      ensures Copied(m0, bytes[..], d0, s0, n + WIDTH) && Holds(m0, next, shift, s0 + n + WIDTH, s0 + count)
    {
      ghost var m := bytes[..];
      var dstWord := Shr(srcWord, 8 * shift);
      next := Pack(bytes[..], srcN);
      NextHolds(m0, m, d0, s0, n, count, shift, srcN);
      dstWord := Or(dstWord, Shl(next, 8 * (WIDTH - shift)));
      assert dstWord == Merged(srcWord, next, shift);
      ShiftedWord(m0, m, srcWord, next, d0, s0, n, count, shift, srcN);
      StoreWord(dstN, dstWord);
      StoreCopied(m0, m, bytes[..], d0, s0, n, dstWord);
    }

    /** Eight words by index. */
    method CopyWords8(dstN: nat, srcN: nat, ghost m0: seq<Byte>, ghost d0: nat, ghost s0: nat, ghost n: nat, ghost count: nat)
      requires Copied(m0, bytes[..], d0, s0, n) && Disjoint(d0, s0, count) && n + 8 * WIDTH <= count
      requires dstN == d0 + n && srcN == s0 + n && d0 + count <= bytes.Length && s0 + count <= bytes.Length && |m0| == bytes.Length
      modifies bytes
      ensures Copied(m0, bytes[..], d0, s0, n + 8 * WIDTH)
    {
      hide Copied;
      for i := 0 to 8
        invariant Copied(m0, bytes[..], d0, s0, n + WIDTH * i)
      {
        CopyWord(dstN + WIDTH * i, srcN + WIDTH * i, m0, d0, s0, n + WIDTH * i, count);
      }
    }

    /** COPY_NO_SHIFT: words, eight at a time after the first few, then the remaining bytes. */
    method CopyNoShift(dst8: nat, src8: nat, count: nat, ghost m0: seq<Byte>, ghost d0: nat, ghost s0: nat, ghost n: nat)
      requires Copied(m0, bytes[..], d0, s0, n) && Disjoint(d0, s0, n + count) && |m0| == bytes.Length
      requires dst8 == d0 + n && src8 == s0 + n && d0 + n + count <= bytes.Length && s0 + n + count <= bytes.Length
      modifies bytes
      ensures Copied(m0, bytes[..], d0, s0, n + count)
    {
      hide Copied;
      var dstN, srcN, length := dst8, src8, count / WIDTH;
      ghost var k := 0;
      while length % 8 != 0
        invariant Copied(m0, bytes[..], d0, s0, n + WIDTH * k) && k + length == count / WIDTH && 0 <= length
        invariant dstN == dst8 + WIDTH * k && srcN == src8 + WIDTH * k
        decreases length
      {
        CopyWord(dstN, srcN, m0, d0, s0, n + WIDTH * k, n + count);
        dstN, srcN, length, k := dstN + WIDTH, srcN + WIDTH, length - 1, k + 1;
      }
      length := length / 8;
      while length > 0
        invariant Copied(m0, bytes[..], d0, s0, n + WIDTH * k) && k + 8 * length == count / WIDTH && 0 <= length
        invariant dstN == dst8 + WIDTH * k && srcN == src8 + WIDTH * k
        decreases length
      {
        CopyWords8(dstN, srcN, m0, d0, s0, n + WIDTH * k, n + count);
        dstN, srcN, length, k := dstN + 8 * WIDTH, srcN + 8 * WIDTH, length - 1, k + 8;
      }
      CopyBytes(dstN, srcN, count % WIDTH, m0, d0, s0, n + WIDTH * k, n + count);
    }

    /** Eight unaligned words by index; source words lie at multiples q, q + 1 and so on of 8. */
    method CopyShifted8(dstN: nat, srcN: nat, srcWord: Word, shift: nat, ghost m0: seq<Byte>, ghost d0: nat, ghost s0: nat, ghost n: nat, ghost count: nat, ghost q: nat)
      returns (next: Word)
      requires Copied(m0, bytes[..], d0, s0, n) && Disjoint(d0, s0, count) && n + 8 * WIDTH <= count && |m0| == bytes.Length
      requires dstN == d0 + n && srcN == s0 + n - shift + WIDTH == WIDTH * q && d0 + count <= bytes.Length && s0 + count <= bytes.Length
      requires Holds(m0, srcWord, shift, s0 + n, s0 + count) && bytes.Length % WIDTH == 0 && 0 < shift < WIDTH
      modifies bytes
      ensures Copied(m0, bytes[..], d0, s0, n + 8 * WIDTH) && Holds(m0, next, shift, s0 + n + 8 * WIDTH, s0 + count)
    {
      hide Copied, Holds;
      next := srcWord;
      for i := 0 to 8
        invariant Copied(m0, bytes[..], d0, s0, n + WIDTH * i) && Holds(m0, next, shift, s0 + n + WIDTH * i, s0 + count)
      {
        AlignedFits(q + i, bytes.Length);
        next := CopyShifted(dstN + WIDTH * i, srcN + WIDTH * i, next, shift, m0, d0, s0, n + WIDTH * i, count);
      }
    }

    /** The two word loops of COPY_SHIFT. */
    method CopyShiftedWords(dst8: nat, src0: nat, word0: Word, words: nat, shift: nat, ghost m0: seq<Byte>, ghost d0: nat, ghost s0: nat, ghost n: nat, ghost end: nat, ghost q: nat)
      returns (dstN: nat, srcN: nat)
      requires Copied(m0, bytes[..], d0, s0, n) && Disjoint(d0, s0, end) && bytes.Length % WIDTH == 0 && |m0| == bytes.Length
      requires dst8 == d0 + n && d0 + end <= bytes.Length && s0 + end <= bytes.Length && n + WIDTH * words <= end && 0 < shift < WIDTH
      requires src0 == WIDTH * q == s0 + n - shift + WIDTH && Holds(m0, word0, shift, s0 + n, s0 + end)
      modifies bytes
      ensures Copied(m0, bytes[..], d0, s0, n + WIDTH * words) && dstN == dst8 + WIDTH * words && srcN == src0 + WIDTH * words
    {
      hide Copied, Holds;
      var length, srcWord := words, word0;
      dstN, srcN := dst8, src0;
      ghost var k := 0;
      while length % 8 != 0
        invariant Copied(m0, bytes[..], d0, s0, n + WIDTH * k) && Holds(m0, srcWord, shift, s0 + n + WIDTH * k, s0 + end)
        invariant k + length == words && 0 <= length && dstN == dst8 + WIDTH * k && srcN == WIDTH * (q + k)
        decreases length
      {
        AlignedFits(q + k, bytes.Length);
        srcWord := CopyShifted(dstN, srcN, srcWord, shift, m0, d0, s0, n + WIDTH * k, end);
        dstN, srcN, length, k := dstN + WIDTH, srcN + WIDTH, length - 1, k + 1;
      }
      length := length / 8;
      while length > 0
        invariant Copied(m0, bytes[..], d0, s0, n + WIDTH * k) && Holds(m0, srcWord, shift, s0 + n + WIDTH * k, s0 + end)
        invariant k + 8 * length == words && 0 <= length && dstN == dst8 + WIDTH * k && srcN == WIDTH * (q + k)
        decreases length
      {
        srcWord := CopyShifted8(dstN, srcN, srcWord, shift, m0, d0, s0, n + WIDTH * k, end, q + k);
        dstN, srcN, length, k := dstN + 8 * WIDTH, srcN + 8 * WIDTH, length - 1, k + 8;
      }
    }

    /** COPY_SHIFT: the source is shift bytes past a word boundary. */
    method CopyShift(shift: nat, dst8: nat, src8: nat, count: nat, ghost m0: seq<Byte>, ghost d0: nat, ghost s0: nat, ghost n: nat)
      requires Copied(m0, bytes[..], d0, s0, n) && Disjoint(d0, s0, n + count) && bytes.Length % WIDTH == 0 && |m0| == bytes.Length
      requires dst8 == d0 + n && src8 == s0 + n && d0 + n + count <= bytes.Length && s0 + n + count <= bytes.Length
      requires shift == src8 % WIDTH && shift > 0 && dst8 % WIDTH == 0
      modifies bytes
      ensures Copied(m0, bytes[..], d0, s0, n + count)
    {
      hide Copied, Holds, Pack;
      var dstN, srcN, length := dst8 / WIDTH * WIDTH, src8 / WIDTH * WIDTH, count / WIDTH;
      ghost var end, q := n + count, src8 / WIDTH;
      assert dstN == dst8 && srcN == WIDTH * q && src8 == WIDTH * q + shift;
      AlignedFits(q, bytes.Length);
      var srcWord := Pack(bytes[..], srcN);
      FirstHolds(m0, bytes[..], d0, s0, n, end, shift, srcN);
      dstN, srcN := CopyShiftedWords(dstN, srcN + WIDTH, srcWord, length, shift, m0, d0, s0, n, end, q + 1);
      CopyBytes(dstN, srcN + shift - WIDTH, count % WIDTH, m0, d0, s0, n + WIDTH * length, end);
    }

    /** Single bytes until the destination is aligned. */
    method CopyUntilAligned(dest: nat, src: nat, count: nat, ghost m0: seq<Byte>) returns (n: nat)
      requires Copied(m0, bytes[..], dest, src, 0) && Disjoint(dest, src, count) && count >= 8 && |m0| == bytes.Length
      requires dest + count <= bytes.Length && src + count <= bytes.Length
      modifies bytes
      ensures Copied(m0, bytes[..], dest, src, n) && n < WIDTH && (dest + n) % WIDTH == 0
    {
      hide Copied;
      ghost var pad := (WIDTH - dest % WIDTH) % WIDTH;
      assert pad < WIDTH && (dest + pad) % WIDTH == 0;
      n := 0;
      while (dest + n) % WIDTH != 0
        invariant n <= pad && Copied(m0, bytes[..], dest, src, n)
        decreases pad - n
      {
        CopyByte(dest + n, src + n, m0, dest, src, n, count);
        n := n + 1;
      }
    }

    /** memcpy on disjoint regions: the destination gets the source's bytes, and nothing else changes. */
    method Copy(dest: nat, src: nat, count: nat)
      requires dest + count <= bytes.Length && src + count <= bytes.Length && bytes.Length % WIDTH == 0 && Disjoint(dest, src, count)
      modifies bytes
      ensures forall k: nat {:trigger bytes[k]} | k < bytes.Length ::
                bytes[k] == if dest <= k < dest + count then old(bytes[src + (k - dest)]) else old(bytes[k])
    {
      hide Copied;
      ghost var m0 := bytes[..];
      CopiedNone(m0, dest, src);
      if count < 8 {
        CopyBytes(dest, src, count, m0, dest, src, 0, count);
      } else {
        var n := CopyUntilAligned(dest, src, count, m0);
        var shift := (src + n) % WIDTH;
        if shift == 0 {
          CopyNoShift(dest + n, src + n, count - n, m0, dest, src, n);
        } else {
          CopyShift(shift, dest + n, src + n, count - n, m0, dest, src, n);
        }
      }
      CopiedBytes(m0, bytes[..], dest, src, count);
    }
  }

  lemma CopiedNone(m: seq<Byte>, dest: nat, src: nat)
    requires dest <= |m| && src <= |m|
    ensures Copied(m, m, dest, src, 0)
  {
  }

  /** An aligned word that starts inside the memory ends inside it. */
  lemma AlignedFits(q: nat, length: nat)
    requires length % WIDTH == 0
    ensures WIDTH * q < length ==> WIDTH * q + WIDTH <= length
  {
  }

  lemma CopiedBytes(m0: seq<Byte>, m: seq<Byte>, dest: nat, src: nat, n: nat)
    requires Copied(m0, m, dest, src, n)
    ensures |m| == |m0| && dest + n <= |m| && src + n <= |m|
    ensures forall k: nat {:trigger m[k]} | k < |m| :: m[k] == if dest <= k < dest + n then m0[src + (k - dest)] else m0[k]
  {
  }

  lemma FirstHolds(m0: seq<Byte>, m: seq<Byte>, d0: nat, s0: nat, n: nat, end: nat, shift: nat, srcN: nat)
    requires Copied(m0, m, d0, s0, n) && Disjoint(d0, s0, end) && n <= end && 0 < shift < WIDTH
    requires |m0| == |m| && d0 + end <= |m| && s0 + end <= |m| && srcN == s0 + n - shift && srcN + WIDTH <= |m|
    ensures Holds(m0, Pack(m, srcN), shift, s0 + n, s0 + end)
  {
    hide Pack, Piece, Copied;
    forall j: nat | shift <= j < WIDTH && s0 + n + (j - shift) < s0 + end
      ensures Piece(Pack(m, srcN), j) == m0[s0 + n + (j - shift)]
    {
      PackedPiece(m, srcN, j);
      SourceKept(m0, m, d0, s0, n, end, srcN + j);
    }
  }

  lemma StoreCopied(m0: seq<Byte>, m: seq<Byte>, m': seq<Byte>, d0: nat, s0: nat, n: nat, w: Word)
    requires Copied(m0, m, d0, s0, n) && |w| == 64 && |m'| == |m| && d0 + n + WIDTH <= |m| && s0 + n + WIDTH <= |m|
    requires forall k: nat {:trigger m'[k]} | k < |m| :: m'[k] == if d0 + n <= k < d0 + n + WIDTH then Piece(w, k - (d0 + n)) else m[k]
    requires forall j: nat | j < WIDTH :: Piece(w, j) == m0[s0 + n + j]
    ensures Copied(m0, m', d0, s0, n + WIDTH)
  {
  }

  lemma WordCopied(m0: seq<Byte>, m: seq<Byte>, m': seq<Byte>, d0: nat, s0: nat, n: nat, count: nat, w: Word)
    requires Copied(m0, m, d0, s0, n) && Disjoint(d0, s0, count) && n + WIDTH <= count && |m'| == |m|
    requires |m0| == |m| && d0 + count <= |m| && s0 + count <= |m| && w == Pack(m, s0 + n)
    requires forall k: nat {:trigger m'[k]} | k < |m| :: m'[k] == if d0 + n <= k < d0 + n + WIDTH then Piece(w, k - (d0 + n)) else m[k]
    ensures Copied(m0, m', d0, s0, n + WIDTH)
  {
    hide Pack, Piece, Copied;
    forall j: nat | j < WIDTH
      ensures Piece(w, j) == m0[s0 + n + j]
    {
      PackedPiece(m, s0 + n, j);
      SourceKept(m0, m, d0, s0, n, count, s0 + n + j);
    }
    StoreCopied(m0, m, m', d0, s0, n, w);
  }

  lemma NextHolds(m0: seq<Byte>, m: seq<Byte>, d0: nat, s0: nat, n: nat, count: nat, shift: nat, srcN: nat)
    requires Copied(m0, m, d0, s0, n) && Disjoint(d0, s0, count) && n + WIDTH <= count && 0 < shift < WIDTH
    requires |m0| == |m| && d0 + count <= |m| && s0 + count <= |m| && srcN == s0 + n - shift + WIDTH && srcN + WIDTH <= |m|
    ensures Holds(m0, Pack(m, srcN), shift, s0 + n + WIDTH, s0 + count)
  {
    hide Pack, Piece, Copied;
    forall j: nat | shift <= j < WIDTH && s0 + n + WIDTH + (j - shift) < s0 + count
      ensures Piece(Pack(m, srcN), j) == m0[s0 + n + WIDTH + (j - shift)]
    {
      PackedPiece(m, srcN, j);
      SourceKept(m0, m, d0, s0, n, count, srcN + j);
    }
  }

  lemma ShiftedWord(m0: seq<Byte>, m: seq<Byte>, w0: Word, w1: Word, d0: nat, s0: nat, n: nat, count: nat, shift: nat, srcN: nat)
    requires Copied(m0, m, d0, s0, n) && Disjoint(d0, s0, count) && n + WIDTH <= count
    requires Holds(m0, w0, shift, s0 + n, s0 + count)
    requires |m0| == |m| && d0 + count <= |m| && s0 + count <= |m| && srcN == s0 + n - shift + WIDTH && srcN + WIDTH <= |m| && w1 == Pack(m, srcN)
    ensures forall j: nat | j < WIDTH ::
              Piece(Merged(w0, w1, shift), j) == m0[s0 + n + j]
  {
    hide Pack, Piece, Merged, Copied;
    forall j: nat | j < WIDTH
      ensures Piece(Merged(w0, w1, shift), j) == m0[s0 + n + j]
    {
      ShiftedPiece(w0, w1, shift, j);
      if j + shift >= WIDTH {
        PackedPiece(m, srcN, j + shift - WIDTH);
        SourceKept(m0, m, d0, s0, n, count, s0 + n + j);
      } else {
        assert Piece(w0, j + shift) == m0[s0 + n + ((j + shift) - shift)];
      }
    }
  }
}
