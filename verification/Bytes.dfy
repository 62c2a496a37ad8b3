/**
 Byte strings, fixed-width integers and slices, as every reader and writer of the
 repository uses them. A byte is an `int` in 0..255, so that wrap-around and
 truncation are always written out.
 */
module Bytes {
  type byte = b: int | 0 <= b < 256

  datatype Option<+T> = None | Some(value: T)

  /** 256 to the power `w`: the first value that does not fit in `w` bytes. */
  function Pow256(w: nat): (p: nat)
    ensures p >= 1
  {
    if w == 0 then 1 else 256 * Pow256(w - 1)
  }

  /** `int.from_bytes(s, "little")` */
  function LE(s: seq<byte>): nat {
    if s == [] then 0 else s[0] + 256 * LE(s[1..])
  }

  /** `n.to_bytes(w, "little")`, the low `w` bytes of `n` */
  function ToLE(n: nat, w: nat): (s: seq<byte>)
    ensures |s| == w
  {
    if w == 0 then [] else [n % 256] + ToLE(n / 256, w - 1)
  }

  /** `int.from_bytes(s, "big")` */
  function BE(s: seq<byte>): nat {
    if s == [] then 0 else 256 * BE(s[..|s| - 1]) + s[|s| - 1]
  }

  /** `n.to_bytes(w, "big")`, the low `w` bytes of `n` */
  function ToBE(n: nat, w: nat): (s: seq<byte>)
    ensures |s| == w
  {
    if w == 0 then [] else ToBE(n / 256, w - 1) + [n % 256]
  }

  function Min(a: int, b: int): int {
    if a <= b then a else b
  }

  /** `s[lo:hi]` with Python's clipping of both bounds. */
  function Slice<T>(s: seq<T>, lo: nat, hi: nat): seq<T> {
    if lo <= hi then s[Min(lo, |s|)..Min(hi, |s|)] else []
  }

  /** `e` stands at offset `off` of `buf`. */
  ghost predicate At(buf: seq<byte>, off: nat, e: seq<byte>) {
    off + |e| <= |buf| && buf[off..off + |e|] == e
  }

  /** `b ^ 0x01` */
  function FlipLow(b: byte): (r: byte)
    ensures r != b && r / 2 == b / 2
  {
    if b % 2 == 0 then b + 1 else b - 1
  }

  function Concat<T>(parts: seq<seq<T>>): seq<T> {
    if parts == [] then [] else parts[0] + Concat(parts[1..])
  }

  function Sum(ns: seq<nat>): nat {
    if ns == [] then 0 else ns[0] + Sum(ns[1..])
  }

  lemma {:induction false} LERoundTrip(n: nat, w: nat)
    requires n < Pow256(w)
    ensures LE(ToLE(n, w)) == n
  {
    if w > 0 {
      LERoundTrip(n / 256, w - 1);
    }
  }

  lemma {:induction false} ToLERoundTrip(s: seq<byte>)
    ensures LE(s) < Pow256(|s|) && ToLE(LE(s), |s|) == s
  {
    if s != [] {
      ToLERoundTrip(s[1..]);
      var n := LE(s);
      assert n == s[0] + 256 * LE(s[1..]);
      assert n / 256 == LE(s[1..]) && n % 256 == s[0];
      assert Pow256(|s|) == 256 * Pow256(|s| - 1);
    }
  }

  lemma {:induction false} BERoundTrip(n: nat, w: nat)
    requires n < Pow256(w)
    ensures BE(ToBE(n, w)) == n
  {
    if w > 0 {
      BERoundTrip(n / 256, w - 1);
      var s := ToBE(n, w);
      assert s[..|s| - 1] == ToBE(n / 256, w - 1);
    }
  }

  lemma {:induction false} ToBERoundTrip(s: seq<byte>)
    ensures BE(s) < Pow256(|s|) && ToBE(BE(s), |s|) == s
  {
    if s != [] {
      ToBERoundTrip(s[..|s| - 1]);
      var n := BE(s);
      assert n / 256 == BE(s[..|s| - 1]) && n % 256 == s[|s| - 1];
      assert Pow256(|s|) == 256 * Pow256(|s| - 1);
    }
  }

  /** Byte `i` of a little-endian number, and byte `i` from the end of a big-endian one, counts 256^i. */
  lemma {:induction false} ByteOrder(n: nat, w: nat, i: nat)
    requires i < w
    ensures ToLE(n, w)[i] == n / Pow256(i) % 256 && ToBE(n, w)[w - 1 - i] == n / Pow256(i) % 256
  {
    if i > 0 {
      ByteOrder(n / 256, w - 1, i - 1);
      DivideTwice(n, Pow256(i - 1));
    }
  }

  lemma {:induction false} QuotientIs(a: nat, p: nat, q: nat)
    requires p > 0 && p * q <= a < p * q + p
    ensures a / p == q
  {
    var d := a / p - q;
    assert a == p * (a / p) + a % p;
    assert p * (a / p) == p * q + p * d;
  }

  lemma {:induction false} DivideTwice(n: nat, p: nat)
    requires p > 0
    ensures n / 256 / p == n / (256 * p)
  {
    var m := 256 * p;
    var q := n / m;
    assert n == m * q + n % m && m * q == 256 * (p * q);
    QuotientIs(n / 256, p, q);
  }

  /** The widths the formats use. */
  lemma {:induction false} Widths()
    ensures Pow256(1) == 0x100 && Pow256(2) == 0x1_0000 && Pow256(3) == 0x100_0000
    ensures Pow256(4) == 0x1_0000_0000 && Pow256(8) == 0x1_0000_0000_0000_0000
  {
    assert Pow256(5) == 256 * Pow256(4);
    assert Pow256(6) == 256 * Pow256(5);
  }

  lemma {:induction false} ConcatAppend<T>(a: seq<seq<T>>, b: seq<seq<T>>)
    ensures Concat(a + b) == Concat(a) + Concat(b)
  {
    if a == [] {
      assert a + b == b;
    } else {
      ConcatAppend(a[1..], b);
      assert (a + b)[0] == a[0] && (a + b)[1..] == a[1..] + b;
      Assoc(a[0], Concat(a[1..]), Concat(b));
    }
  }

  lemma {:induction false} SumAppend(a: seq<nat>, b: seq<nat>)
    ensures Sum(a + b) == Sum(a) + Sum(b)
  {
    if a == [] {
      assert a + b == b;
    } else {
      SumAppend(a[1..], b);
      assert (a + b)[1..] == a[1..] + b;
    }
  }

  lemma {:induction false} ConsInjective<T>(x: T, xs: seq<T>, y: T, ys: seq<T>)
    requires [x] + xs == [y] + ys
    ensures x == y && xs == ys
  {
    assert ([x] + xs)[0] == x && ([y] + ys)[0] == y;
    assert ([x] + xs)[1..] == xs && ([y] + ys)[1..] == ys;
  }

  lemma {:induction false} Assoc<T>(a: seq<T>, b: seq<T>, c: seq<T>)
    ensures (a + b) + c == a + (b + c)
  {
  }

  /** `math.ceil(a / b)` */
  function CeilDiv(a: nat, b: nat): nat
    requires b > 0
  {
    (a + b - 1) / b
  }

  /** A ceiling is the least number of pieces of size `b` that cover `a`. */
  lemma {:induction false} CeilDivIsLeast(a: nat, b: nat, n: nat)
    requires b > 0
    ensures CeilDiv(a, b) <= n <==> a <= n * b
  {
    var q := CeilDiv(a, b);
    assert q * b + (a + b - 1) % b == a + b - 1;
    if q <= n {
      assert q * b <= n * b;
    } else {
      assert (n + 1) * b <= q * b;
    }
  }

  lemma {:induction false} CeilDivOneMore(a: nat, b: nat)
    requires b > 0
    ensures 1 + CeilDiv(a, b) == CeilDiv(a + b, b)
  {
    var n, m := CeilDiv(a, b), CeilDiv(a + b, b);
    CeilDivIsLeast(a, b, n);
    assert (n + 1) * b == n * b + b;
    CeilDivIsLeast(a + b, b, n + 1);
    CeilDivIsLeast(a + b, b, m);
    CeilDivIsLeast(a + b, b, 0);
    assert (m - 1) * b == m * b - b;
    CeilDivIsLeast(a, b, m - 1);
  }

  lemma {:induction false} SliceOfSlice<T>(s: seq<T>, a: nat, b: nat, c: nat, d: nat)
    requires a <= b <= |s| && c <= d <= b - a
    ensures s[a..b][c..d] == s[a + c..a + d]
  {
    var whole, part := s[a + c..a + d], s[a..b];
    forall i | 0 <= i < d - c
      ensures part[c..d][i] == whole[i]
    {
      assert part[c..d][i] == part[c + i] == s[a + c + i];
    }
    assert part[c..d] == whole;
  }
}
