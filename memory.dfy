/** The C library's byte-level memory operations, as the core uses them on
    frame buffers and image buffers, and the optional value that stands for a
    pointer that may be NULL. */
module Memory {

  /** A pointer result that may be NULL. */
  datatype Option<T> = None | Some(value: T)

  /** The four bytes at word index `x` of the region that starts at byte `at`. */
  function Word(s: seq<bv8>, at: nat, x: nat): (w: seq<bv8>)
    requires at + 4 * x + 4 <= |s|
    ensures |w| == 4
  {
    s[at + 4 * x .. at + 4 * x + 4]
  }

  /** A word whose bytes two buffers agree on reads the same in both. */
  lemma WordKept(a: seq<bv8>, b: seq<bv8>, at: nat, x: nat)
    requires at + 4 * x + 4 <= |a| == |b|
    requires forall k :: at + 4 * x <= k < at + 4 * x + 4 ==> a[k] == b[k]
    ensures Word(a, at, x) == Word(b, at, x)
  {
  }

  /** The first `n` words at byte `at` read the same in two buffers that
      agree on their bytes. */
  lemma WordsAgree(a: seq<bv8>, b: seq<bv8>, at: nat, n: nat)
    requires at + 4 * n <= |a| && at + 4 * n <= |b| && a[at..at + 4 * n] == b[at..at + 4 * n]
    ensures forall x :: 0 <= x < n ==> Word(a, at, x) == Word(b, at, x)
  {
    forall x | 0 <= x < n
      ensures Word(a, at, x) == Word(b, at, x)
    {
      SubSlice(a, b, at, at + 4 * n, at + 4 * x, at + 4 * x + 4);
    }
  }

  /** The bytes a little-endian store of the word `w` writes, lowest first. */
  function StoreLE(w: bv32): (bytes: seq<bv8>)
    ensures |bytes| == 4
  {
    [(w & 0xff) as bv8, ((w >> 8) & 0xff) as bv8, ((w >> 16) & 0xff) as bv8, (w >> 24) as bv8]
  }

  /** `*(uint32_t*)(buf + at) = w` on a little-endian machine. */
  method Store(buf: array<bv8>, at: nat, w: bv32)
    requires at + 4 <= buf.Length
    modifies buf
    ensures buf[at..at + 4] == StoreLE(w)
    ensures forall k :: 0 <= k < buf.Length && !(at <= k < at + 4) ==> buf[k] == old(buf[k])
  {
    var p := StoreLE(w);
    buf[at], buf[at + 1], buf[at + 2], buf[at + 3] := p[0], p[1], p[2], p[3];
  }

  /** A 32-bit store of a pixel read from elsewhere: the four bytes `w`
      at byte `at`. */
  method Put(dst: array<bv8>, at: nat, w: seq<bv8>)
    requires |w| == 4 && at + 4 <= dst.Length
    modifies dst
    ensures dst[..] == Splice(old(dst[..]), at, w)
  {
    dst[at], dst[at + 1], dst[at + 2], dst[at + 3] := w[0], w[1], w[2], w[3];
    assert dst[at..at + 4] == w;
    Spliced(dst[..], old(dst[..]), at, w);
  }

  /** memcpy(dst + at, src + from, n) between two distinct buffers. */
  method Copy(dst: array<bv8>, at: nat, src: array<bv8>, from: nat, n: nat)
    requires dst != src
    requires at + n <= dst.Length && from + n <= src.Length
    modifies dst
    ensures dst[..] == Splice(old(dst[..]), at, src[from..from + n])
  {
    var i := 0;
    while i < n
      invariant 0 <= i <= n
      invariant dst[at..at + i] == src[from..from + i]
      invariant dst[..at] == old(dst[..at]) && dst[at + i..] == old(dst[at + i..])
    {
      dst[at + i] := src[from + i];
      i := i + 1;
    }
    Spliced(dst[..], old(dst[..]), at, src[from..from + n]);
  }

  /** Writes the bytes `src` at byte `at` of `dst` (a library routine filling
      caller memory, such as a decoder writing one scanline). */
  method Write(dst: array<bv8>, at: nat, src: seq<bv8>)
    requires at + |src| <= dst.Length
    modifies dst
    ensures dst[at..at + |src|] == src
    ensures dst[..at] == old(dst[..at]) && dst[at + |src|..] == old(dst[at + |src|..])
  {
    var i := 0;
    while i < |src|
      invariant 0 <= i <= |src|
      invariant dst[at..at + i] == src[..i]
      invariant dst[..at] == old(dst[..at]) && dst[at + i..] == old(dst[at + i..])
    {
      dst[at + i] := src[i];
      i := i + 1;
    }
  }

  /** memset(dst + at, 0, n). */
  method Zero(dst: array<bv8>, at: nat, n: nat)
    requires at + n <= dst.Length
    modifies dst
    ensures dst[..] == Splice(old(dst[..]), at, Zeros(n))
  {
    var i := at;
    while i < at + n
      invariant at <= i <= at + n
      invariant dst[at..i] == Zeros(i - at)
      invariant dst[..at] == old(dst[..at]) && dst[i..] == old(dst[i..])
    {
      dst[i] := 0;
      i := i + 1;
    }
    Spliced(dst[..], old(dst[..]), at, Zeros(n));
  }

  /** `s` with the bytes from `at` on replaced by `r`. */
  function Splice(s: seq<bv8>, at: nat, r: seq<bv8>): (t: seq<bv8>)
    requires at + |r| <= |s|
    ensures |t| == |s|
  {
    s[..at] + r + s[at + |r|..]
  }

  /** `n` zero bytes. */
  function Zeros(n: nat): (z: seq<bv8>)
    ensures |z| == n && AllZero(z)
  {
    seq(n, _ => 0)
  }

  predicate AllZero(s: seq<bv8>) {
    forall k :: 0 <= k < |s| ==> s[k] == 0
  }

  /** A buffer that holds `r` at `at` and agrees with `b` elsewhere is `b`
      spliced with `r`. */
  lemma Spliced(a: seq<bv8>, b: seq<bv8>, at: nat, r: seq<bv8>)
    requires |a| == |b| && at + |r| <= |a|
    requires a[..at] == b[..at] && a[at..at + |r|] == r && a[at + |r|..] == b[at + |r|..]
    ensures a == Splice(b, at, r)
  {
    assert a == a[..at] + a[at..at + |r|] + a[at + |r|..];
  }

  /** A splice leaves the bytes before and after it alone. */
  lemma SpliceOutside(s: seq<bv8>, at: nat, r: seq<bv8>, lo: nat, hi: nat)
    requires at + |r| <= |s| && lo <= hi <= |s|
    requires hi <= at || at + |r| <= lo
    ensures Splice(s, at, r)[lo..hi] == s[lo..hi]
  {
    var t := Splice(s, at, r);
    forall k | lo <= k < hi
      ensures t[k] == s[k]
    {
      if k < at {
        assert t[k] == s[..at][k];
      } else {
        assert t[k] == s[at + |r|..][k - at - |r|];
      }
    }
  }

  /** Byte `k` of a splice. */
  lemma SpliceAt(s: seq<bv8>, at: nat, r: seq<bv8>, k: nat)
    requires at + |r| <= |s| && k < |s|
    ensures Splice(s, at, r)[k] == if at <= k < at + |r| then r[k - at] else s[k]
  {
    if k < at {
      assert Splice(s, at, r)[k] == s[..at][k];
    } else if k < at + |r| {
      assert Splice(s, at, r)[k] == (s[..at] + r)[k];
    } else {
      assert Splice(s, at, r)[k] == s[at + |r|..][k - at - |r|];
    }
  }

  /** Two splices side by side are one splice of both. */
  lemma SpliceAppend(s: seq<bv8>, at: nat, r: seq<bv8>, q: seq<bv8>)
    requires at + |r| + |q| <= |s|
    ensures Splice(Splice(s, at, r), at + |r|, q) == Splice(s, at, r + q)
  {
    var a, b := Splice(Splice(s, at, r), at + |r|, q), Splice(s, at, r + q);
    forall k | 0 <= k < |s|
      ensures a[k] == b[k]
    {
      SpliceAt(Splice(s, at, r), at + |r|, q, k);
      SpliceAt(s, at, r, k);
      SpliceAt(s, at, r + q, k);
    }
  }

  /** Two buffers that agree on `lo' .. hi'` agree on every slice inside it. */
  lemma SubSlice(a: seq<bv8>, b: seq<bv8>, lo': nat, hi': nat, lo: nat, hi: nat)
    requires lo' <= lo <= hi <= hi' <= |a| && hi' <= |b|
    requires a[lo'..hi'] == b[lo'..hi']
    ensures a[lo..hi] == b[lo..hi]
  {
    forall k | lo <= k < hi
      ensures a[k] == b[k]
    {
      assert a[lo'..hi'][k - lo'] == b[lo'..hi'][k - lo'];
    }
  }

  /** Inside a splice the bytes are the spliced ones. */
  lemma SpliceInside(s: seq<bv8>, at: nat, r: seq<bv8>, lo: nat, hi: nat)
    requires at <= lo <= hi <= at + |r| <= |s|
    ensures Splice(s, at, r)[lo..hi] == r[lo - at..hi - at]
  {
    var t := Splice(s, at, r);
    forall k | lo <= k < hi
      ensures t[k] == r[k - at]
    {
      assert t[k] == (s[..at] + r)[k];
    }
  }

  /** The first `n` bytes of row `y` of a buffer of `h` rows laid out
      `stride` bytes apart. */
  function Row(s: seq<bv8>, stride: nat, h: nat, y: nat, n: nat): (r: seq<bv8>)
    requires y < h && h * stride <= |s| && n <= stride
    ensures |r| == n
  {
    RowInside(y, h, stride);
    s[y * stride .. y * stride + n]
  }

  /** The first `n` bytes of a row are a prefix of the whole row. */
  lemma RowPrefix(s: seq<bv8>, stride: nat, h: nat, y: nat, n: nat)
    requires y < h && h * stride <= |s| && n <= stride
    ensures Row(s, stride, h, y, n) == Row(s, stride, h, y, stride)[..n]
  {
    RowInside(y, h, stride);
    MulMono(0, y, stride);
  }

  /** Two buffers that differ at most in the first `n` bytes of row `y0`
      agree on every other row and on the bytes after the last row. */
  lemma RowsApart(a: seq<bv8>, b: seq<bv8>, stride: nat, h: nat, y0: nat, n: nat)
    requires y0 < h && h * stride <= |a| == |b| && n <= stride
    requires y0 * stride + stride <= h * stride
    requires a[..y0 * stride] == b[..y0 * stride] && a[y0 * stride + n..] == b[y0 * stride + n..]
    ensures forall y :: 0 <= y < h && y != y0 ==> Row(a, stride, h, y, stride) == Row(b, stride, h, y, stride)
    ensures a[h * stride..] == b[h * stride..]
  {
    forall y | 0 <= y < h && y != y0
      ensures Row(a, stride, h, y, stride) == Row(b, stride, h, y, stride)
    {
      RowApart(a, b, stride, h, y0, n, y);
    }
    SubSlice(a, b, y0 * stride + n, |a|, h * stride, |a|);
  }

  /** One row of RowsApart. */
  lemma RowApart(a: seq<bv8>, b: seq<bv8>, stride: nat, h: nat, y0: nat, n: nat, y: nat)
    requires y0 < h && h * stride <= |a| == |b| && n <= stride
    requires y0 * stride + stride <= h * stride
    requires a[..y0 * stride] == b[..y0 * stride] && a[y0 * stride + n..] == b[y0 * stride + n..]
    requires y < h && y != y0
    ensures Row(a, stride, h, y, stride) == Row(b, stride, h, y, stride)
  {
    RowInside(y, h, stride);
    var lo := y * stride;
    if y < y0 {
      RowBefore(y, y0, stride);
      SubSlice(a, b, 0, y0 * stride, lo, lo + stride);
    } else {
      RowBefore(y0, y, stride);
      var from := y0 * stride + n;
      assert a[from..|a|] == b[from..|b|];
      SubSlice(a, b, from, |a|, lo, lo + stride);
    }
  }

  /** Splicing a region that was itself edited by a splice is splicing
      the edit at the combined offset. */
  lemma SpliceNest(s: seq<bv8>, at: nat, q: seq<bv8>, k: nat, r: seq<bv8>)
    requires at + |q| <= |s| && k + |r| <= |q|
    ensures Splice(s, at, Splice(q, k, r)) == Splice(Splice(s, at, q), at + k, r)
  {
    var a, b := Splice(s, at, Splice(q, k, r)), Splice(Splice(s, at, q), at + k, r);
    forall i | 0 <= i < |s|
      ensures a[i] == b[i]
    {
      SpliceAt(s, at, Splice(q, k, r), i);
      SpliceAt(Splice(s, at, q), at + k, r, i);
      SpliceAt(s, at, q, i);
      if at <= i < at + |q| {
        SpliceAt(q, k, r, i - at);
      }
    }
  }

  /** Splicing in what is already there changes nothing. */
  lemma SpliceSelf(s: seq<bv8>, at: nat, n: nat)
    requires at + n <= |s|
    ensures Splice(s, at, s[at..at + n]) == s
  {
  }

  /** Row `cur` replaced by `r`: row `cur` is now `r`, every other row and
      the bytes after the last row are as they were. */
  lemma RowSpliced(s: seq<bv8>, stride: nat, h: nat, cur: nat, r: seq<bv8>, y: nat)
    requires cur < h && y < h && h * stride <= |s| && |r| == stride
    ensures cur * stride + stride <= h * stride
    ensures var t := Splice(s, cur * stride, r);
      && (y == cur ==> Row(t, stride, h, y, stride) == r)
      && (y != cur ==> Row(t, stride, h, y, stride) == Row(s, stride, h, y, stride))
      && t[h * stride..] == s[h * stride..]
  {
    RowInside(cur, h, stride);
    RowInside(y, h, stride);
    MulMono(0, cur, stride);
    var at := cur * stride;
    if y == cur {
      SpliceInside(s, at, r, at, at + stride);
    } else if y < cur {
      RowBefore(y, cur, stride);
      SpliceOutside(s, at, r, y * stride, y * stride + stride);
    } else {
      RowBefore(cur, y, stride);
      SpliceOutside(s, at, r, y * stride, y * stride + stride);
    }
    SpliceOutside(s, at, r, h * stride, |s|);
  }

  /** Rows laid out `stride` bytes apart: row `y` of `h` rows ends inside the
      region of `h * stride` bytes, and a row before `y` ends where row `y`
      starts at the latest. */
  lemma RowInside(y: nat, h: nat, stride: nat)
    requires y < h
    ensures y * stride + stride <= h * stride
  {
    assert (y + 1) * stride == y * stride + stride;
    MulMono(y + 1, h, stride);
  }

  lemma RowBefore(y0: nat, y: nat, stride: nat)
    requires y0 < y
    ensures y0 * stride + stride <= y * stride
  {
    RowInside(y0, y, stride);
  }

  lemma MulMono(a: nat, b: nat, c: nat)
    requires a <= b
    ensures a * c <= b * c
  {
    assert b * c == a * c + (b - a) * c;
  }
}
