/**
 Octet sequences, their unsigned lexicographic order, and fixed-width positional notation.

 Repository paths, digests and encoded text are all octet sequences ordered lexicographically;
 counts, spans and 128-bit identities are fixed-width big-endian digit strings.
 */
module Bytes {

  type Byte = b: int | 0 <= b < 256

  type Octets = seq<Byte>

  // Numbers of values of the unsigned integers of 16, 32 and 64 bits.
  const U16: nat := 0x1_0000
  const U32: nat := 0x1_0000_0000
  const U64: nat := 0x1_0000_0000_0000_0000

  /* Unsigned lexicographic order; a proper prefix is smaller. */
  predicate LexLess(a: seq<int>, b: seq<int>)
  {
    b != [] && (a == [] || a[0] < b[0] || (a[0] == b[0] && LexLess(a[1..], b[1..])))
  }

  predicate LexLessOrEqual(a: seq<int>, b: seq<int>)
  {
    a == b || LexLess(a, b)
  }

  lemma {:induction false} LexTrichotomy(a: seq<int>, b: seq<int>)
    ensures LexLess(a, b) || a == b || LexLess(b, a)
    ensures LexLess(a, b) ==> a != b && !LexLess(b, a)
  {
    if a != [] && b != [] {
      LexTrichotomy(a[1..], b[1..]);
      if a[0] == b[0] && a[1..] == b[1..] {
        assert a == [a[0]] + a[1..];
        assert b == [b[0]] + b[1..];
      }
    }
  }

  lemma {:induction false} LexTransitive(a: seq<int>, b: seq<int>, c: seq<int>)
    requires LexLess(a, b) && LexLess(b, c)
    ensures LexLess(a, c)
  {
    if a != [] && a[0] == b[0] && b[0] == c[0] {
      LexTransitive(a[1..], b[1..], c[1..]);
    }
  }

  /* The first difference decides: a common prefix can be dropped. */
  lemma {:induction false} LexCommonPrefix(p: seq<int>, a: seq<int>, b: seq<int>)
    ensures LexLess(p + a, p + b) <==> LexLess(a, b)
  {
    if p == [] {
      assert p + a == a && p + b == b;
    } else {
      assert (p + a)[1..] == p[1..] + a;
      assert (p + b)[1..] == p[1..] + b;
      LexCommonPrefix(p[1..], a, b);
    }
  }

  lemma LexPrefix(a: seq<int>, b: seq<int>)
    requires a <= b && a != b
    ensures LexLess(a, b)
  {
    var rest := b[|a|..];
    assert b == a + rest && a == a + [];
    LexCommonPrefix(a, [], rest);
  }

  // Positional notation, most significant digit first.

  function Power(base: nat, exponent: nat): (p: nat)
    requires base > 0
    ensures p > 0
    decreases exponent
  {
    if exponent == 0 then 1 else Power(base, exponent - 1) * base
  }

  predicate AreDigits(digits: seq<int>, base: nat)
  {
    forall i :: 0 <= i < |digits| ==> 0 <= digits[i] < base
  }

  function FromDigits(digits: seq<int>, base: nat): int
    requires base > 0
    decreases |digits|
  {
    if digits == [] then 0
    else FromDigits(digits[..|digits| - 1], base) * base + digits[|digits| - 1]
  }

  function ToDigits(value: nat, base: nat, width: nat): (digits: seq<int>)
    requires base > 0
    ensures |digits| == width && AreDigits(digits, base)
    decreases width
  {
    if width == 0 then [] else ToDigits(value / base, base, width - 1) + [value % base]
  }

  lemma MultiplyMonotone(x: int, y: int, base: nat)
    requires x <= y
    ensures x * base <= y * base
  {
  }

  lemma QuotientUnique(q: int, high: int, base: nat, r: int, low: int)
    requires q * base + r == high * base + low
    requires 0 <= r < base && 0 <= low < base
    ensures q == high && r == low
  {
    if q < high {
      MultiplyMonotone(q + 1, high, base);
    } else if q > high {
      MultiplyMonotone(high + 1, q, base);
    }
  }

  lemma DivModStep(high: nat, base: nat, low: nat)
    requires base > 0 && low < base
    ensures (high * base + low) / base == high
    ensures (high * base + low) % base == low
  {
    var v := high * base + low;
    QuotientUnique(v / base, high, base, v % base, low);
  }

  /* Appending a digit to two prefixes keeps their order. */
  lemma AppendDigit(x: int, y: int, base: nat, d: int)
    requires x < y && 0 <= d < base
    ensures x * base + d < y * base
  {
    MultiplyMonotone(x + 1, y, base);
  }

  lemma {:induction false} DigitsBound(digits: seq<int>, base: nat)
    requires base > 0 && AreDigits(digits, base)
    ensures 0 <= FromDigits(digits, base) < Power(base, |digits|)
  {
    if digits != [] {
      var init := digits[..|digits| - 1];
      DigitsBound(init, base);
      AppendDigit(FromDigits(init, base), Power(base, |init|), base, digits[|init|]);
      MultiplyMonotone(0, FromDigits(init, base), base);
    }
  }

  lemma QuotientBound(value: nat, base: nat, width: nat)
    requires base > 0 && width > 0 && value < Power(base, width)
    ensures value / base < Power(base, width - 1)
  {
    var p := Power(base, width - 1);
    if value / base >= p {
      MultiplyMonotone(p, value / base, base);
    }
  }

  /* Writing a value of the right size and reading it back gives the value. */
  lemma {:induction false} FromToDigits(value: nat, base: nat, width: nat)
    requires (base == 256 || base == 32) && value < Power(base, width)
    ensures FromDigits(ToDigits(value, base, width), base) == value
  {
    if width > 0 {
      QuotientBound(value, base, width);
      FromToDigits(value / base, base, width - 1);
      FromToDigitsStep(value, base, width);
    }
  }

  lemma FromToDigitsStep(value: nat, base: nat, width: nat)
    requires (base == 256 || base == 32) && width > 0
    requires FromDigits(ToDigits(value / base, base, width - 1), base) == value / base
    ensures FromDigits(ToDigits(value, base, width), base) == value
  {
    FromDigitsAppend(ToDigits(value / base, base, width - 1), value % base, base);
    DivModSum(value, base);
  }

  lemma FromDigitsAppend(digits: seq<int>, last: int, base: nat)
    requires base > 0
    ensures FromDigits(digits + [last], base) == FromDigits(digits, base) * base + last
  {
    assert (digits + [last])[..|digits|] == digits;
  }

  lemma DivModSum(value: nat, base: nat)
    requires base > 0
    ensures (value / base) * base + value % base == value
  {
  }

  /* Reading a digit string and writing it back gives the digit string. */
  lemma {:induction false} ToFromDigits(digits: seq<int>, base: nat)
    requires base > 0 && AreDigits(digits, base)
    ensures FromDigits(digits, base) >= 0
    ensures ToDigits(FromDigits(digits, base), base, |digits|) == digits
  {
    DigitsBound(digits, base);
    if digits != [] {
      var init, last := digits[..|digits| - 1], digits[|digits| - 1];
      DigitsBound(init, base);
      DivModStep(FromDigits(init, base), base, last);
      ToFromDigits(init, base);
      assert digits == init + [last];
    }
  }

  /* For strings of one width, lexicographic order is numeric order. */
  lemma {:induction false} DigitsOrder(a: seq<int>, b: seq<int>, base: nat)
    requires base > 0 && |a| == |b| && AreDigits(a, base) && AreDigits(b, base)
    ensures LexLess(a, b) <==> FromDigits(a, base) < FromDigits(b, base)
    decreases |a|
  {
    if a != [] {
      var n := |a| - 1;
      var x, y := FromDigits(a[..n], base), FromDigits(b[..n], base);
      DigitsOrder(a[..n], b[..n], base);
      DigitsOrder(b[..n], a[..n], base);
      LexTrichotomy(a[..n], b[..n]);
      LexAppend(a[..n], b[..n], a[n], b[n]);
      assert a == a[..n] + [a[n]] && b == b[..n] + [b[n]];
      if x < y {
        AppendDigit(x, y, base, a[n]);
      } else if y < x {
        AppendDigit(y, x, base, b[n]);
      }
    }
  }

  lemma {:induction false} LexAppend(a: seq<int>, b: seq<int>, x: int, y: int)
    requires |a| == |b|
    ensures LexLess(a + [x], b + [y]) <==> LexLess(a, b) || (a == b && x < y)
  {
    if a == [] {
      assert a + [x] == [x] && b + [y] == [y];
    } else {
      LexAppend(a[1..], b[1..], x, y);
      assert (a + [x])[1..] == a[1..] + [x];
      assert (b + [y])[1..] == b[1..] + [y];
      assert a == [a[0]] + a[1..] && b == [b[0]] + b[1..];
    }
  }

  // Fixed-width big-endian integers.

  function BigEndian(value: nat, width: nat): (octets: Octets)
    ensures |octets| == width
  {
    ToDigits(value, 256, width)
  }

  lemma BigEndianInjective(x: nat, y: nat, width: nat)
    requires x < Power(256, width) && y < Power(256, width)
    requires BigEndian(x, width) == BigEndian(y, width)
    ensures x == y
  {
    FromToDigits(x, 256, width);
    FromToDigits(y, 256, width);
  }

  /* Two equal concatenations whose first parts have one length agree part by part. */
  lemma SplitEqual<T>(a: seq<T>, x: seq<T>, b: seq<T>, y: seq<T>)
    requires a + x == b + y && |a| == |b|
    ensures a == b && x == y
  {
    assert a == (a + x)[..|a|] && b == (b + y)[..|b|];
    assert x == (a + x)[|a|..] && y == (b + y)[|b|..];
  }

  /* Octets of an ASCII literal. */
  function Ascii(s: string): (octets: Octets)
    requires forall i :: 0 <= i < |s| ==> s[i] as int < 128
    ensures |octets| == |s|
    ensures forall i :: 0 <= i < |s| ==> octets[i] == s[i] as int
  {
    seq(|s|, i requires 0 <= i < |s| => s[i] as int)
  }
}
