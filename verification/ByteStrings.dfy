/** Byte strings: the lexicographic order RocksDB uses for keys, and the fixed-width big- and
    little-endian integer encodings that keys, patch IDs and blob IDs are built from. */
module ByteStrings {

  type byte = b: int | 0 <= b < 256
  type bytes = seq<byte>
  type u64 = n: nat | n < 0x1_0000_0000_0000_0000

  datatype Option<+T> = None | Some(value: T)
  datatype Result<+T, +E> = Ok(value: T) | Err(error: E)

  /** Strict lexicographic order on byte strings. */
  predicate LexLess(a: bytes, b: bytes) {
    b != [] && (a == [] || a[0] < b[0] || (a[0] == b[0] && LexLess(a[1..], b[1..])))
  }

  predicate LexLessEq(a: bytes, b: bytes) {
    a == b || LexLess(a, b)
  }

  lemma {:induction false} LexTotal(a: bytes, b: bytes)
    ensures LexLess(a, b) || a == b || LexLess(b, a)
    ensures !(LexLess(a, b) && (a == b || LexLess(b, a)))
  {
    if a != [] && b != [] {
      LexTotal(a[1..], b[1..]);
      assert a == [a[0]] + a[1..] && b == [b[0]] + b[1..];
    } else if a == b {
    }
  }

  lemma {:induction false} LexTransitive(a: bytes, b: bytes, c: bytes)
    requires LexLess(a, b) && LexLess(b, c)
    ensures LexLess(a, c)
  {
    if a != [] && a[0] == b[0] && b[0] == c[0] {
      LexTransitive(a[1..], b[1..], c[1..]);
    }
  }

  /** A common prefix does not influence the order. */
  lemma {:induction false} LexCommonPrefix(p: bytes, a: bytes, b: bytes)
    ensures LexLess(p + a, p + b) <==> LexLess(a, b)
  {
    if p == [] {
      assert p + a == a && p + b == b;
    } else {
      assert (p + a)[1..] == p[1..] + a && (p + b)[1..] == p[1..] + b;
      LexCommonPrefix(p[1..], a, b);
    }
  }

  /** The half-open interval `[p·c, p·(c+1))` holds exactly the strings that start with `p·c`. */
  lemma {:induction false} PrefixInterval(p: bytes, c: byte, s: bytes)
    requires c < 255
    ensures LexLessEq(p + [c], s) && LexLess(s, p + [c + 1]) <==> p + [c] <= s
  {
    if p == [] {
      assert p + [c] == [c] && p + [c + 1] == [c + 1];
      if s != [] {
        assert LexLess(s, [c + 1]) <==> s[0] <= c;
        assert [c][1..] == [];
        assert LexLess([c], s) <==> c < s[0] || (c == s[0] && s[1..] != []);
        assert s == [s[0]] + s[1..];
      }
    } else if s != [] && s[0] == p[0] {
      PrefixInterval(p[1..], c, s[1..]);
      assert (p + [c])[1..] == p[1..] + [c] && (p + [c + 1])[1..] == p[1..] + [c + 1];
      assert s == [s[0]] + s[1..] && p + [c] == [p[0]] + (p[1..] + [c]);
    }
  }

  // ----- sequence algebra -----

  lemma ConcatAssociative<T>(a: seq<T>, b: seq<T>, c: seq<T>)
    ensures (a + b) + c == a + (b + c)
  {
  }

  lemma ConcatSlices<T>(a: seq<T>, b: seq<T>)
    ensures (a + b)[..|a|] == a && (a + b)[|a|..] == b
  {
  }

  lemma DropDrop<T>(s: seq<T>, m: nat, n: nat)
    requires m + n <= |s|
    ensures s[m..][n..] == s[m + n..]
  {
  }

  lemma PrefixExtends<T>(s: seq<T>, m: nat, n: nat)
    requires m <= n <= |s|
    ensures s[..m] + s[m..n] == s[..n]
  {
  }

  lemma SubsetSize<T>(a: set<T>, b: set<T>)
    requires a <= b
    ensures |a| <= |b|
  {
    assert b == a + (b - a);
  }

  function Elements<T>(s: seq<T>): set<T> {
    set x | x in s
  }

  lemma {:induction false} ElementsCount<T>(s: seq<T>)
    ensures |Elements(s)| <= |s|
    ensures (forall i, j | 0 <= i < j < |s| :: s[i] != s[j]) ==> |Elements(s)| == |s|
  {
    if s != [] {
      var init, last := s[..|s| - 1], s[|s| - 1];
      ElementsCount(init);
      assert Elements(s) == Elements(init) + {last};
    }
  }

  // ----- big-endian integers -----

  /** The number a byte string denotes when read most significant byte first. */
  function BeValue(s: bytes): nat {
    if s == [] then 0 else BeValue(s[..|s| - 1]) * 256 + s[|s| - 1]
  }

  /** `n` as `width` bytes, most significant byte first, dropping what does not fit. */
  function ToBe(n: nat, width: nat): (s: bytes)
    ensures |s| == width
  {
    if width == 0 then [] else ToBe(n / 256, width - 1) + [n % 256]
  }

  function Pow256(width: nat): nat {
    if width == 0 then 1 else 256 * Pow256(width - 1)
  }

  lemma {:induction false} BeRoundTrip(n: nat, width: nat)
    requires n < Pow256(width)
    ensures BeValue(ToBe(n, width)) == n
  {
    if width > 0 {
      BeRoundTrip(n / 256, width - 1);
      assert ToBe(n, width)[..width - 1] == ToBe(n / 256, width - 1);
    }
  }

  lemma {:induction false} BeValueRoundTrip(s: bytes)
    ensures ToBe(BeValue(s), |s|) == s
    ensures BeValue(s) < Pow256(|s|)
  {
    if s != [] {
      BeValueRoundTrip(s[..|s| - 1]);
      assert s == s[..|s| - 1] + [s[|s| - 1]];
    }
  }

  lemma {:induction false} LexSnoc(a: bytes, x: byte, b: bytes, y: byte)
    requires |a| == |b|
    ensures LexLess(a + [x], b + [y]) <==> LexLess(a, b) || (a == b && x < y)
  {
    if a != [] {
      assert (a + [x])[1..] == a[1..] + [x] && (b + [y])[1..] == b[1..] + [y];
      LexSnoc(a[1..], x, b[1..], y);
      assert a == [a[0]] + a[1..] && b == [b[0]] + b[1..];
    }
  }

  /** On strings of one width the byte order is the numeric order. */
  lemma {:induction false} LexIsNumeric(a: bytes, b: bytes)
    requires |a| == |b|
    ensures LexLess(a, b) <==> BeValue(a) < BeValue(b)
  {
    if a != [] {
      var n := |a| - 1;
      LexIsNumeric(a[..n], b[..n]);
      LexSnoc(a[..n], a[n], b[..n], b[n]);
      assert a == a[..n] + [a[n]] && b == b[..n] + [b[n]];
      BeValueRoundTrip(a[..n]);
      BeValueRoundTrip(b[..n]);
    }
  }

  // ----- little-endian integers -----

  function LeValue(s: bytes): nat {
    if s == [] then 0 else s[0] + 256 * LeValue(s[1..])
  }

  function ToLe(n: nat, width: nat): (s: bytes)
    ensures |s| == width
  {
    if width == 0 then [] else [n % 256] + ToLe(n / 256, width - 1)
  }

  lemma {:induction false} LeRoundTrip(n: nat, width: nat)
    requires n < Pow256(width)
    ensures LeValue(ToLe(n, width)) == n
  {
    if width > 0 {
      LeRoundTrip(n / 256, width - 1);
      assert ToLe(n, width)[1..] == ToLe(n / 256, width - 1);
    }
  }

  lemma LowByte(b: byte, n: nat)
    ensures (b + 256 * n) % 256 == b && (b + 256 * n) / 256 == n
  {
  }

  lemma {:induction false} LeValueRoundTrip(s: bytes)
    ensures ToLe(LeValue(s), |s|) == s
    ensures LeValue(s) < Pow256(|s|)
  {
    if s != [] {
      LeValueRoundTrip(s[1..]);
      LowByte(s[0], LeValue(s[1..]));
      assert s == [s[0]] + s[1..];
    }
  }

  /** The number with these bytes, low byte first. */
  function LowFirst(a: int, b: int, c: int, d: int, e: int, f: int, g: int, h: int): int {
    a + 0x100 * b + 0x1_0000 * c + 0x100_0000 * d + 0x1_0000_0000 * e + 0x100_0000_0000 * f
    + 0x1_0000_0000_0000 * g + 0x100_0000_0000_0000 * h
  }

  lemma LeValueOfEight(s: bytes)
    requires |s| == 8
    ensures LeValue(s) == LowFirst(s[0], s[1], s[2], s[3], s[4], s[5], s[6], s[7])
  {
    LeValueOfFour(s[4..]);
    LeValueOfFour(s[..4]);
    LeValueSplit(s);
  }

  lemma LeValueSplit(s: bytes)
    requires |s| == 8
    ensures LeValue(s) == LeValue(s[..4]) + 0x1_0000_0000 * LeValue(s[4..])
  {
    assert s[1..][1..] == s[2..] && s[2..][1..] == s[3..] && s[3..][1..] == s[4..];
    LeValueOfFour(s[..4]);
    assert LeValue(s[1..]) == s[1] + 256 * LeValue(s[2..]);
    assert LeValue(s[2..]) == s[2] + 256 * LeValue(s[3..]);
    assert LeValue(s[3..]) == s[3] + 256 * LeValue(s[4..]);
  }

  lemma LeValueOfFour(s: bytes)
    requires |s| == 4
    ensures LeValue(s) == LowFirst(s[0], s[1], s[2], s[3], 0, 0, 0, 0)
  {
    assert s[1..][1..] == s[2..] && s[2..][1..] == s[3..] && s[3..][1..] == [];
    assert LeValue(s[1..]) == s[1] + 256 * LeValue(s[2..]);
    assert LeValue(s[2..]) == s[2] + 256 * LeValue(s[3..]);
  }
}
