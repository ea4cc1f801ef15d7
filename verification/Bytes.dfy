/** Bytes inside 64-bit words and 4096-byte frames (little endian). */
module Bytes {
  import opened Bits
  import opened Sv39

  type Byte = b: int | 0 <= b < 256

  function Byte256(n: nat): (p: nat)
    ensures p > 0
  { if n == 0 then 1 else 256 * Byte256(n - 1) }

  /** Byte k of w. */
  function ByteOf(w: nat, k: nat): Byte {
    if k == 0 then w % 256 else ByteOf(w / 256, k - 1)
  }

  /** w with byte k replaced by b. */
  function WithByte(w: nat, k: nat, b: Byte): nat {
    if k == 0 then w / 256 * 256 + b else w % 256 + 256 * WithByte(w / 256, k - 1, b)
  }

  lemma {:induction false} WithByteFits(w: nat, k: nat, b: Byte, n: nat)
    requires w < Byte256(n) && k < n
    ensures WithByte(w, k, b) < Byte256(n)
  {
    if k > 0 { WithByteFits(w / 256, k - 1, b, n - 1); }
  }

  lemma {:induction false} ByteOfWithByte(w: nat, k: nat, b: Byte, j: nat)
    ensures ByteOf(WithByte(w, k, b), j) == if j == k then b else ByteOf(w, j)
  {
    var v := WithByte(w, k, b);
    if k > 0 {
      assert v % 256 == w % 256 && v / 256 == WithByte(w / 256, k - 1, b);
      if j > 0 { ByteOfWithByte(w / 256, k - 1, b, j - 1); }
    } else {
      assert v % 256 == b && v / 256 == w / 256;
    }
  }

  lemma {:induction false} SameBytesSameWord(w: nat, v: nat, n: nat)
    requires w < Byte256(n) && v < Byte256(n) && forall k: nat :: k < n ==> ByteOf(w, k) == ByteOf(v, k)
    ensures w == v
  {
    if n > 0 {
      assert ByteOf(w, 0) == ByteOf(v, 0);
      forall k: nat | k < n - 1 ensures ByteOf(w / 256, k) == ByteOf(v / 256, k) {
        assert ByteOf(w, k + 1) == ByteOf(v, k + 1);
      }
      SameBytesSameWord(w / 256, v / 256, n - 1);
    }
  }

  lemma Word8()
    ensures Byte256(8) == TWO_64
  {
    assert Byte256(4) == 0x1_0000_0000;
    assert Byte256(8) == 256 * (256 * (256 * (256 * Byte256(4))));
  }

  function FrameByte(f: Frame, o: nat): Byte
    requires o < 0x1000
  { ByteOf(f[o / 8], o % 8) }

  function PutFrameByte(f: Frame, o: nat, b: Byte): Frame
    requires o < 0x1000
  {
    Word8();
    WithByteFits(f[o / 8], o % 8, b, 8);
    f[o / 8 := WithByte(f[o / 8], o % 8, b)]
  }

  lemma FrameByteAfterPut(f: Frame, o: nat, b: Byte, p: nat)
    requires o < 0x1000 && p < 0x1000
    ensures FrameByte(PutFrameByte(f, o, b), p) == if p == o then b else FrameByte(f, p)
  {
    ByteOfWithByte(f[o / 8], o % 8, b, p % 8);
  }

  lemma SameBytesSameFrame(f: Frame, g: Frame)
    requires forall o: nat :: o < 0x1000 ==> FrameByte(f, o) == FrameByte(g, o)
    ensures f == g
  {
    Word8();
    forall i | 0 <= i < 512 ensures f[i] == g[i] {
      forall k: nat | k < 8 ensures ByteOf(f[i], k) == ByteOf(g[i], k) {
        assert FrameByte(f, 8 * i + k) == FrameByte(g, 8 * i + k);
      }
      SameBytesSameWord(f[i], g[i], 8);
    }
  }

  lemma ZeroFrameBytes(o: nat)
    requires o < 0x1000
    ensures FrameByte(ZeroFrame(), o) == 0
  {
    ZeroBytes(o % 8);
  }

  lemma {:induction false} ZeroBytes(k: nat)
    ensures ByteOf(0, k) == 0
  {
    if k > 0 { ZeroBytes(k - 1); }
  }

  // ---- memory as bytes -----------------------------------------------------

  /** Byte p of RAM, counted from PHY_START. */
  function ByteAt(mem: Mem, p: nat): Byte
    requires p < 0x1000 * |mem|
  { FrameByte(mem[p / 0x1000], p % 0x1000) }

  lemma ByteIn(mem: Mem, p: nat)
    requires p < 0x1000 * |mem|
    ensures 0 <= p / 0x1000 < |mem| && 0 <= p % 0x1000 / 8 < 512
    ensures ByteAt(mem, p) == ByteOf(mem[p / 0x1000][p % 0x1000 / 8], p % 0x1000 % 8)
  {
    hide ByteOf;
  }

  function PutByte(mem: Mem, p: nat, b: Byte): Mem
    requires p < 0x1000 * |mem|
  { mem[p / 0x1000 := PutFrameByte(mem[p / 0x1000], p % 0x1000, b)] }

  lemma ByteAtAfterPut(mem: Mem, p: nat, b: Byte, q: nat)
    requires p < 0x1000 * |mem| && q < 0x1000 * |mem|
    ensures ByteAt(PutByte(mem, p, b), q) == if q == p then b else ByteAt(mem, q)
  {
    if p / 0x1000 == q / 0x1000 {
      FrameByteAfterPut(mem[p / 0x1000], p % 0x1000, b, q % 0x1000);
    }
  }

  /** n bytes from p on, little endian. */
  function LeAt(mem: Mem, p: nat, n: nat): (w: nat)
    requires p + n <= 0x1000 * |mem|
    ensures w < Byte256(n)
    decreases n
  { if n == 0 then 0 else ByteAt(mem, p) + 256 * LeAt(mem, p + 1, n - 1) }

  function ByteOrZero(m: Mem, p: nat): Byte { if p < 0x1000 * |m| then ByteAt(m, p) else 0 }

  /** What is written: one byte over and over, or the bytes of m from lo on. */
  datatype Source = Fill(c: Byte) | From(m: Mem, lo: nat) {
    function At(o: nat): Byte { if Fill? then c else ByteOrZero(m, lo + o) }
  }

  /** m with n bytes from lo on replaced by the given data, one after the other. */
  ghost function Overwrite(m: Mem, lo: nat, n: nat, data: Source): (r: Mem)
    requires lo + n <= 0x1000 * |m|
    ensures |r| == |m|
  {
    if n == 0 then m else PutByte(Overwrite(m, lo, n - 1, data), lo + n - 1, data.At(n - 1))
  }

  lemma {:induction false} OverwriteBytes(m: Mem, lo: nat, n: nat, data: Source, p: nat)
    requires lo + n <= 0x1000 * |m| && p < 0x1000 * |m|
    ensures ByteAt(Overwrite(m, lo, n, data), p) == if lo <= p < lo + n then data.At(p - lo) else ByteAt(m, p)
  {
    hide ByteAt, PutByte;
    if n > 0 {
      OverwriteBytes(m, lo, n - 1, data, p);
      ByteAtAfterPut(Overwrite(m, lo, n - 1, data), lo + n - 1, data.At(n - 1), p);
    }
  }

  /** Frames outside the range are untouched. */
  lemma {:induction false} OverwriteOutside(m: Mem, lo: nat, n: nat, data: Source, f: nat)
    requires lo + n <= 0x1000 * |m| && f < |m| && (0x1000 * f + 0x1000 <= lo || lo + n <= 0x1000 * f)
    ensures Overwrite(m, lo, n, data)[f] == m[f]
  {
    if n > 0 { OverwriteOutside(m, lo, n - 1, data, f); }
  }

  /** A wholly overwritten frame is determined by the data. */
  lemma OverwriteInside(m: Mem, lo: nat, n: nat, data: Source, f: nat, frame: Frame)
    requires lo + n <= 0x1000 * |m| && f < |m| && lo <= 0x1000 * f && 0x1000 * f + 0x1000 <= lo + n
    requires forall o: nat :: o < 0x1000 ==> FrameByte(frame, o) == data.At(0x1000 * f + o - lo)
    ensures Overwrite(m, lo, n, data)[f] == frame
  {
    var m' := Overwrite(m, lo, n, data);
    forall o: nat | o < 0x1000 ensures FrameByte(m'[f], o) == FrameByte(frame, o) {
      OverwriteBytes(m, lo, n, data, 0x1000 * f + o);
      ByteInFrame(m', f, o);
    }
    SameBytesSameFrame(m'[f], frame);
  }

  lemma ByteInFrame(m: Mem, f: nat, o: nat)
    requires f < |m| && o < 0x1000
    ensures ByteAt(m, 0x1000 * f + o) == FrameByte(m[f], o)
  {}

  /** m' is m with n bytes from lo on replaced. */
  ghost predicate Overwritten(m: Mem, m': Mem, lo: nat, n: nat, data: Source) {
    lo + n <= 0x1000 * |m| && m' == Overwrite(m, lo, n, data)
  }

  lemma OverwriteStarts(m: Mem, lo: nat, data: Source)
    requires lo <= 0x1000 * |m|
    ensures Overwritten(m, m, lo, 0, data)
  {}

  lemma OverwriteStep(m: Mem, now: Mem, next: Mem, lo: nat, i: nat, data: Source, b: Byte)
    requires Overwritten(m, now, lo, i, data) && lo + i < 0x1000 * |m|
    requires b == data.At(i) && next == PutByte(now, lo + i, b)
    ensures Overwritten(m, next, lo, i + 1, data)
  {}

  /** Reading from a range that the writes do not reach. */
  lemma ReadOutside(m: Mem, now: Mem, lo: nat, from: nat, i: nat, n: nat, b: Byte)
    requires i < n && Overwritten(m, now, lo, i, From(m, from))
    requires lo + n <= 0x1000 * |m| && from + n <= 0x1000 * |m| && (lo + n <= from || from + n <= lo)
    requires b == ByteAt(now, from + i)
    ensures b == From(m, from).At(i)
  {
    OverwriteBytes(m, lo, i, From(m, from), from + i);
  }

  lemma PageCopied(m: Mem, m': Mem, d: nat, s: nat)
    requires d < |m| && s < |m| && Overwritten(m, m', 0x1000 * d, 0x1000, From(m, 0x1000 * s))
    ensures m' == m[d := m[s]]
  {
    forall o: nat | o < 0x1000 ensures FrameByte(m[s], o) == From(m, 0x1000 * s).At(o) {
      ByteInFrame(m, s, o);
    }
    OverwriteInside(m, 0x1000 * d, 0x1000, From(m, 0x1000 * s), d, m[s]);
    forall f: nat | f < |m| && f != d ensures m'[f] == m[f] {
      OverwriteOutside(m, 0x1000 * d, 0x1000, From(m, 0x1000 * s), f);
    }
  }
}
