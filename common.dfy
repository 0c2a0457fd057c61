/** Shared vocabulary: optional values and error results, bytes, powers,
    byte-order conversions and the two pieces of Python string behaviour the
    model relies on (slicing with clamped bounds and `str.split`). */
module Common {

  datatype Option<+T> = None | Some(value: T)

  datatype Result<+T, +E> = Success(value: T) | Failure(error: E)

  /** The outcome of a Python call that returns nothing but may raise. */
  datatype Outcome<+E> = Pass | Fail(error: E)

  type Byte = b: int | 0 <= b < 256

  /** An Arduino `unsigned long`. */
  type U32 = x: int | 0 <= x < 0x1_0000_0000

  function Pow(base: nat, n: nat): (r: nat)
    ensures base > 0 ==> r > 0
  {
    if n == 0 then 1 else base * Pow(base, n - 1)
  }

  lemma {:induction false} PowMonotone(base: nat, m: nat, n: nat)
    requires base > 0 && m <= n
    ensures Pow(base, m) <= Pow(base, n)
  {
    if m < n {
      PowMonotone(base, m, n - 1);
      assert Pow(base, n) == base * Pow(base, n - 1);
    }
  }

  lemma {:induction false} PowOfFour(n: nat)
    ensures Pow(4, n) == Pow(2, 2 * n)
  {
    if n > 0 {
      PowOfFour(n - 1);
      assert Pow(2, 2 * n) == 2 * (2 * Pow(2, 2 * n - 2));
    }
  }

  lemma {:induction false} PowAdd(base: nat, m: nat, n: nat)
    ensures Pow(base, m + n) == Pow(base, m) * Pow(base, n)
  {
    if m > 0 {
      PowAdd(base, m - 1, n);
      assert Pow(base, m + n) == base * Pow(base, m - 1 + n);
    }
  }

  /** The powers the wire formats use. */
  lemma PowValues()
    ensures Pow(2, 8) == 256 && Pow(256, 2) == 0x1_0000
    ensures Pow(256, 3) == 0x100_0000 && Pow(256, 4) == 0x1_0000_0000
    ensures Pow(2, 24) == 0x100_0000 && Pow(4, 12) == 0x100_0000
    ensures Pow(4, 16) == 0x1_0000_0000
  {
    assert Pow(2, 4) == 16;
    PowAdd(2, 4, 4);
    assert Pow(256, 2) == 256 * 256;
    PowAdd(256, 2, 1);
    PowAdd(256, 2, 2);
    PowAdd(2, 8, 8);
    PowAdd(2, 16, 8);
    PowAdd(2, 16, 16);
    PowOfFour(12);
    PowOfFour(16);
  }

  /** Integer division by a product is division in two steps, and the
      remainder splits accordingly. */
  lemma DivMod(x: nat, a: nat, b: nat)
    requires a > 0 && b > 0
    ensures x / a / b == x / (a * b)
    ensures x % (a * b) == x % a + a * ((x / a) % b)
  {
    var y := x / a;
    var q, r2, r1 := y / b, y % b, x % a;
    TwoDigits(x, a, b, y, q, r2, r1);
    DivisionUnique(x, a * b, q, a * r2 + r1);
  }

  /** `x` written with digits `r1 < a` and `r2 < b` and the rest `q`. */
  lemma TwoDigits(x: int, a: int, b: int, y: int, q: int, r2: int, r1: int)
    requires a > 0 && b > 0 && 0 <= r2 < b && 0 <= r1 < a
    requires y == b * q + r2 && x == a * y + r1
    ensures x == (a * b) * q + (a * r2 + r1) && 0 <= a * r2 + r1 < a * b
  {
    assert a * y == (a * b) * q + a * r2 by {
      assert a * (b * q + r2) == a * (b * q) + a * r2;
    }
    assert a * r2 <= a * (b - 1) by { MulLeMono(a, r2, b - 1); }
    assert a * (b - 1) == a * b - a;
  }

  lemma MulLeMono(a: nat, x: nat, y: nat)
    requires x <= y
    ensures a * x <= a * y
  {
  }

  lemma DivisionUnique(x: nat, d: nat, q: nat, r: nat)
    requires d > 0 && x == d * q + r && r < d
    ensures x / d == q && x % d == r
  {
    var q', r' := x / d, x % d;
    assert x == d * q' + r';
    if q' < q {
      assert d * q' + d <= d * q by { MulLeMono(d, q' + 1, q); }
    } else if q' > q {
      assert d * q + d <= d * q' by { MulLeMono(d, q + 1, q'); }
    }
  }

  /** The value of bytes read least significant first, as Python's
      `int.from_bytes(bs, 'little')`. */
  function LittleEndian(bs: seq<Byte>): (r: nat)
    ensures r < Pow(256, |bs|)
  {
    if bs == [] then 0 else bs[0] + 256 * LittleEndian(bs[1..])
  }

  /** The `n` low bytes of `x`, least significant first. */
  function LittleEndianBytes(x: nat, n: nat): (r: seq<Byte>)
    ensures |r| == n
  {
    if n == 0 then [] else [x % 256] + LittleEndianBytes(x / 256, n - 1)
  }

  /** The value of bytes read most significant first. */
  function BigEndian(bs: seq<Byte>): (r: nat)
    ensures r < Pow(256, |bs|)
  {
    if bs == [] then 0 else BigEndian(bs[..|bs| - 1]) * 256 + bs[|bs| - 1]
  }

  /** The `n` low bytes of `x`, most significant first, as Python's
      `x.to_bytes(n, 'big')` for an `x` that fits. */
  function BigEndianBytes(x: nat, n: nat): (r: seq<Byte>)
    ensures |r| == n
  {
    if n == 0 then [] else BigEndianBytes(x / 256, n - 1) + [x % 256]
  }

  lemma {:induction false} LittleEndianRoundTrip(x: nat, n: nat)
    ensures LittleEndian(LittleEndianBytes(x, n)) == x % Pow(256, n)
  {
    if n > 0 {
      LittleEndianRoundTrip(x / 256, n - 1);
      DivMod(x, 256, Pow(256, n - 1));
    }
  }

  lemma {:induction false} BigEndianRoundTrip(x: nat, n: nat)
    ensures BigEndian(BigEndianBytes(x, n)) == x % Pow(256, n)
  {
    if n > 0 {
      var bs := BigEndianBytes(x, n);
      assert bs[..n - 1] == BigEndianBytes(x / 256, n - 1);
      BigEndianRoundTrip(x / 256, n - 1);
      DivMod(x, 256, Pow(256, n - 1));
    }
  }

  /** The low `n` bytes are the first `n` of the low `n + 1`. */
  lemma {:induction false} LittleEndianBytesPrefix(x: nat, n: nat)
    ensures LittleEndianBytes(x, n + 1)[..n] == LittleEndianBytes(x, n)
  {
    if n > 0 {
      LittleEndianBytesPrefix(x / 256, n - 1);
    }
  }

  /** `n` copies of `x`. */
  function Repeat<T>(x: T, n: nat): (r: seq<T>)
    ensures |r| == n && forall i :: 0 <= i < n ==> r[i] == x
  {
    if n == 0 then [] else [x] + Repeat(x, n - 1)
  }

  lemma RepeatSnoc<T>(x: T, n: nat)
    ensures Repeat(x, n) + [x] == Repeat(x, n + 1)
  {
    assert forall i :: 0 <= i < n + 1 ==> (Repeat(x, n) + [x])[i] == x;
  }

  /** The concatenation of a sequence of sequences. */
  function Flatten<T>(ss: seq<seq<T>>): seq<T>
  {
    if ss == [] then [] else ss[0] + Flatten(ss[1..])
  }

  lemma {:induction false} FlattenAppend<T>(ss: seq<seq<T>>, s: seq<T>)
    ensures Flatten(ss + [s]) == Flatten(ss) + s
  {
    if ss != [] {
      assert (ss + [s])[1..] == ss[1..] + [s];
      FlattenAppend(ss[1..], s);
    }
  }

  /** Python's normalisation of a slice bound against a length `n`. */
  function SliceBound(i: int, n: nat): (r: nat)
    ensures r <= n
    ensures 0 <= i <= n ==> r == i
    ensures i < 0 && -i <= n ==> r == n + i
  {
    if i < 0 then (if n + i < 0 then 0 else n + i) else if i > n then n else i
  }

  /** Python's `s[i:j]`: out-of-range bounds are clamped, never an error. */
  function PySlice<T>(s: seq<T>, i: int, j: int): (r: seq<T>)
    ensures |r| <= |s|
  {
    var a, b := SliceBound(i, |s|), SliceBound(j, |s|);
    if a <= b then s[a..b] else []
  }

  /** Python's `s.split(sep)` for a one-character separator: the pieces
      between separators, including empty ones. */
  function Split(s: string, sep: char): (parts: seq<string>)
    ensures |parts| >= 1
  {
    if s == [] then [""]
    else
      var rest := Split(s[1..], sep);
      if s[0] == sep then [""] + rest else [[s[0]] + rest[0]] + rest[1..]
  }

  /** The number of occurrences of `c` in `s`. */
  function Count(s: string, c: char): nat
  {
    if s == [] then 0 else (if s[0] == c then 1 else 0) + Count(s[1..], c)
  }

  /** Splitting yields one piece more than there are separators, no piece
      contains the separator, and joining the pieces with it gives `s`
      back. */
  lemma {:induction false} SplitSpec(s: string, sep: char)
    ensures |Split(s, sep)| == Count(s, sep) + 1
    ensures forall i :: 0 <= i < |Split(s, sep)| ==> sep !in Split(s, sep)[i]
    ensures Join(Split(s, sep), sep) == s
  {
    if s != [] {
      SplitSpec(s[1..], sep);
      var rest := Split(s[1..], sep);
      if s[0] == sep {
        assert Split(s, sep)[1..] == rest;
      } else {
        var parts := Split(s, sep);
        assert parts[0] == [s[0]] + rest[0];
        assert parts[1..] == rest[1..];
        forall i | 0 <= i < |parts| ensures sep !in parts[i] {
          if i > 0 { assert parts[i] == rest[i]; }
        }
        if |rest| == 1 {
          assert Join(parts, sep) == [s[0]] + rest[0];
        } else {
          assert Join(rest, sep) == rest[0] + [sep] + Join(rest[1..], sep);
          assert Join(parts, sep) == parts[0] + [sep] + Join(parts[1..], sep);
        }
      }
    }
  }

  /** `sep.join(parts)`. */
  function Join(parts: seq<string>, sep: char): string
  {
    if parts == [] then ""
    else if |parts| == 1 then parts[0]
    else parts[0] + [sep] + Join(parts[1..], sep)
  }

  lemma {:induction false} SplitNoSeparator(s: string, sep: char)
    requires sep !in s
    ensures Split(s, sep) == [s]
  {
    if s != [] {
      assert sep !in s[1..];
      SplitNoSeparator(s[1..], sep);
      assert [s[0]] + s[1..] == s;
    }
  }

  /** A separator splits the text into the pieces of what lies on either
      side of it. */
  lemma {:induction false} SplitAround(a: string, sep: char, b: string)
    ensures Split(a + [sep] + b, sep) == Split(a, sep) + Split(b, sep)
  {
    if a == [] {
      assert a + [sep] + b == [sep] + b;
      SplitCons(sep, b, sep);
    } else {
      SplitAround(a[1..], sep, b);
      assert a + [sep] + b == [a[0]] + (a[1..] + [sep] + b);
      assert a == [a[0]] + a[1..];
      SplitCons(a[0], a[1..] + [sep] + b, sep);
      SplitCons(a[0], a[1..], sep);
      ConsPieceAppend(a[0], sep, Split(a[1..], sep), Split(b, sep));
    }
  }

  /** The pieces of `[c] + t` from the pieces of `t`: a separator starts a
      new empty piece, any other character joins the first piece. */
  function ConsPiece(c: char, sep: char, parts: seq<string>): seq<string>
    requires |parts| >= 1
  {
    if c == sep then [""] + parts else [[c] + parts[0]] + parts[1..]
  }

  lemma SplitCons(c: char, t: string, sep: char)
    ensures Split([c] + t, sep) == ConsPiece(c, sep, Split(t, sep))
  {
    assert ([c] + t)[0] == c && ([c] + t)[1..] == t;
  }

  lemma ConsPieceAppend(c: char, sep: char, parts: seq<string>, more: seq<string>)
    requires |parts| >= 1
    ensures ConsPiece(c, sep, parts + more) == ConsPiece(c, sep, parts) + more
  {
    if c == sep {
      assert [""] + (parts + more) == ([""] + parts) + more;
    } else {
      assert (parts + more)[0] == parts[0];
      assert (parts + more)[1..] == parts[1..] + more;
      var head := [[c] + parts[0]];
      assert head + (parts[1..] + more) == (head + parts[1..]) + more;
    }
  }



}
