/** Physical memory, as the kernel reaches it through its direct map, and the
    byte routines of string.c and elfutils.c that work on it. */
module Memory {
  import opened Bits
  import opened Defs
  import opened Sv39
  import opened Bytes

  class Ram {
    const words: array2<Word>
    ghost var frames: Mem

    ghost predicate Valid()
      reads this, words
    {
      && words.Length0 == FRAMES && words.Length1 == 512 && |frames| == FRAMES
      && forall f, i :: 0 <= f < FRAMES && 0 <= i < 512 ==> words[f, i] == frames[f][i]
    }

    /** RAM starts zero. */
    constructor ()
      ensures Valid() && fresh(words)
      ensures forall f | 0 <= f < FRAMES :: frames[f] == ZeroFrame()
    {
      words := new Word[FRAMES, 512]((f, i) => 0);
      frames := seq(FRAMES, _ => ZeroFrame());
    }

    /** `table[idx]` for a page-aligned kernel address. */
    method Load(table: Word, idx: nat) returns (w: Word)
      requires Valid() && IsPage(table) && PfnOf(table) < FRAMES && idx < 512
      ensures w == frames[PfnOf(table)][idx]
    {
      w := words[(table - VM_START) / 0x1000, idx];
    }

    /** `table[idx] = w`. */
    method Store(table: Word, idx: nat, w: Word)
      requires Valid() && IsPage(table) && PfnOf(table) < FRAMES && idx < 512
      modifies this, words
      ensures Valid() && frames == Put(old(frames), PfnOf(table), idx, w)
    {
      words[(table - VM_START) / 0x1000, idx] := w;
      frames := Put(frames, PfnOf(table), idx, w);
    }

    /** `*(char*)va`. */
    method LoadByte(va: Word) returns (b: Byte)
      requires Valid() && VM_START <= va && va - VM_START < 0x1000 * |frames|
      ensures b == ByteAt(frames, va - VM_START)
    {
      hide ByteOf, ByteAt, FrameByte;
      var p := va - VM_START;
      var f, o := p / 0x1000, p % 0x1000;
      ByteIn(frames, p);
      b := ByteOf(words[f, o / 8], o % 8);
    }

    /** A load of n bytes. */
    method LoadLe(va: Word, n: nat) returns (w: Word)
      requires Valid() && n <= 8 && VM_START <= va && va - VM_START + n <= 0x1000 * |frames| && va + n < TWO_64
      ensures w == LeAt(frames, va - VM_START, n)
    {
      hide ByteAt;
      var v: nat := 0;
      var i := n;
      while i > 0
        invariant 0 <= i <= n && v == LeAt(frames, va - VM_START + i, n - i)
      {
        i := i - 1;
        var b: nat := LoadByte(va + i);
        v := b + 256 * v;
      }
      Fits8(n);
      w := v;
    }

    /** `*(char*)va = b`. */
    method StoreByte(va: Word, b: Byte)
      requires Valid() && VM_START <= va && va - VM_START < 0x1000 * |frames|
      modifies this, words
      ensures Valid() && frames == PutByte(old(frames), va - VM_START, b)
    {
      var p := va - VM_START;
      var f, i := p / 0x1000, p % 0x1000 / 8;
      Word8();
      WithByteFits(words[f, i], p % 8, b, 8);
      words[f, i] := WithByte(words[f, i], p % 8, b);
      frames := PutByte(frames, p, b);
    }

    /** `memset`. */
    method Memset(dst: Word, c: Byte, n: nat)
      requires Valid() && VM_START <= dst && dst - VM_START + n <= 0x1000 * |frames|
      modifies this, words
      ensures Valid() && Overwritten(old(frames), frames, dst - VM_START, n, Fill(c))
    {
      ghost var m, lo := frames, dst - VM_START;
      var i := 0;
      OverwriteStarts(m, lo, Fill(c));
      while i < n
        invariant i <= n && Valid() && Overwritten(m, frames, lo, i, Fill(c))
      {
        ghost var now := frames;
        StoreByte(dst + i, c);
        OverwriteStep(m, now, frames, lo, i, Fill(c), c);
        i := i + 1;
      }
    }

    /** The copying loop of `memcpy` and of `alloc_elf_mem`, between ranges that
        do not overlap. */
    method CopyBytes(dst: Word, src: Word, n: nat)
      requires Valid() && VM_START <= dst && dst - VM_START + n <= 0x1000 * |frames|
      requires VM_START <= src && src - VM_START + n <= 0x1000 * |frames|
      requires dst + n <= src || src + n <= dst
      modifies this, words
      ensures Valid() && Overwritten(old(frames), frames, dst - VM_START, n, From(old(frames), src - VM_START))
    {
      hide Overwrite;
      ghost var m, lo, from := frames, dst - VM_START, src - VM_START;
      var i := 0;
      OverwriteStarts(m, lo, From(m, from));
      while i < n
        invariant i <= n && Valid() && Overwritten(m, frames, lo, i, From(m, from))
      {
        CopyByte(dst + i, src + i, m, lo, from, i, n);
        i := i + 1;
      }
    }

    /** `set_byte(dst, i, get_byte(src, i))`. */
    method CopyByte(to: Word, at: Word, ghost m: Mem, ghost lo: nat, ghost from: nat, ghost i: nat, ghost n: nat)
      requires Valid() && i < n && to == VM_START + lo + i && at == VM_START + from + i
      requires Overwritten(m, frames, lo, i, From(m, from))
      requires lo + n <= 0x1000 * |m| && from + n <= 0x1000 * |m| && (lo + n <= from || from + n <= lo)
      modifies this, words
      ensures Valid() && Overwritten(m, frames, lo, i + 1, From(m, from))
    {
      ghost var now := frames;
      var b := LoadByte(at);
      ReadOutside(m, now, lo, from, i, n, b);
      StoreByte(to, b);
      OverwriteStep(m, now, frames, lo, i, From(m, from), b);
    }

    /** The loop of `setup_user_pgtbl` that copies a root table entry by entry. */
    method CopyTable(dst: Word, src: Word)
      requires Valid() && IsPage(dst) && IsPage(src) && PfnOf(dst) < FRAMES && PfnOf(src) < FRAMES && dst != src
      modifies this, words
      ensures Valid() && frames == old(frames)[PfnOf(dst) := old(frames)[PfnOf(src)]]
    {
      ghost var m, d, f := frames, PfnOf(dst), PfnOf(src);
      var i := 0;
      while i < 512
        invariant i <= 512 && Valid() && PartCopied(m, frames, d, f, i)
      {
        var pte := Load(src, i);
        ghost var now := frames;
        Store(dst, i, pte);
        EntryCopied(m, now, frames, d, f, i, pte);
        i := i + 1;
      }
      TableCopied(m, frames, d, f);
    }

    /** `pgcpy`: one whole page, onto another. */
    method PgCpy(dst: Word, src: Word)
      requires Valid() && IsPage(dst) && IsPage(src) && PfnOf(dst) < FRAMES && PfnOf(src) < FRAMES && dst != src
      modifies this, words
      ensures Valid() && frames == old(frames)[PfnOf(dst) := old(frames)[PfnOf(src)]]
    {
      hide Overwritten;
      ghost var d, f := PfnOf(dst), PfnOf(src);
      assert dst - VM_START == 0x1000 * d && src - VM_START == 0x1000 * f;
      CopyBytes(dst, src, PGSIZE);
      PageCopied(old(frames), frames, d, f);
    }
  }

  /** The first i words of frame d are those of frame f; all else is as before. */
  ghost predicate PartCopied(m: Mem, m': Mem, d: nat, f: nat, i: nat) {
    && |m'| == |m| && d < |m| && f < |m| && d != f && (forall g: nat :: g < |m| && g != d ==> m'[g] == m[g])
    && forall k :: 0 <= k < i < 513 ==> m'[d][k] == m[f][k]
  }

  lemma EntryCopied(m: Mem, now: Mem, next: Mem, d: nat, f: nat, i: nat, w: Word)
    requires i < 512 && PartCopied(m, now, d, f, i) && w == now[f][i] && next == Put(now, d, i, w)
    ensures PartCopied(m, next, d, f, i + 1)
  {}

  lemma TableCopied(m: Mem, m': Mem, d: nat, f: nat)
    requires PartCopied(m, m', d, f, 512)
    ensures m' == m[d := m[f]]
  {
    assert m'[d] == m[f];
  }

  lemma {:induction false} Fits8(n: nat)
    requires n <= 8
    ensures Byte256(n) <= TWO_64
    decreases 8 - n
  {
    if n < 8 {
      Fits8(n + 1);
    } else {
      Word8();
    }
  }
}
