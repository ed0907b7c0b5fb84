/** Decimal digits of natural numbers, most significant first. */
module Digits {
  import opened Rounding

  predicate IsDigit(c: char) { '0' <= c <= '9' }

  function DigitChar(d: nat): (c: char)
    requires d < 10
    ensures IsDigit(c) && DigitValue(c) == d
  {
    '0' + d as char
  }

  function DigitValue(c: char): (d: nat)
    requires IsDigit(c)
    ensures d < 10
  {
    c as int - '0' as int
  }

  predicate AllDigits(s: string) { forall c | c in s :: IsDigit(c) }

  /** `str(n)`. */
  function Render(n: nat): (s: string)
    ensures s != "" && AllDigits(s)
  {
    if n < 10 then [DigitChar(n)] else Render(n / 10) + [DigitChar(n % 10)]
  }

  /** The number that a string of digits writes; "" writes 0. */
  function ValueOf(s: string): nat
    requires AllDigits(s)
  {
    if s == "" then 0 else 10 * ValueOf(s[..|s| - 1]) + DigitValue(s[|s| - 1])
  }

  lemma {:induction false} RenderValue(n: nat)
    ensures ValueOf(Render(n)) == n
  {
    var s := Render(n);
    if n < 10 {
      assert s[..0] == "";
    } else {
      RenderValue(n / 10);
      assert s[..|s| - 1] == Render(n / 10);
    }
  }

  lemma {:induction false} RenderIsInjective(m: nat, n: nat)
    requires Render(m) == Render(n)
    ensures m == n
  {
    RenderValue(m);
    RenderValue(n);
  }

  /** The last `width` digits of `n`, zero-filled. */
  function Padded(n: nat, width: nat): (s: string)
    ensures |s| == width && AllDigits(s)
  {
    if width == 0 then "" else Padded(n / 10, width - 1) + [DigitChar(n % 10)]
  }

  lemma {:induction false} ValueOfJoined(a: string, b: string)
    requires AllDigits(a) && AllDigits(b)
    ensures AllDigits(a + b) && ValueOf(a + b) == ValueOf(a) * Pow10(|b|) + ValueOf(b)
  {
    if b == "" {
      assert a + b == a;
    } else {
      var n := |b| - 1;
      ValueOfJoined(a, b[..n]);
      assert (a + b)[..|a + b| - 1] == a + b[..n];
      assert ValueOf(a + b) == 10 * ValueOf(a + b[..n]) + DigitValue(b[n]);
      assert ValueOf(b) == 10 * ValueOf(b[..n]) + DigitValue(b[n]);
      assert Pow10(|b|) == 10 * Pow10(n);
      hide *;
      Product3(10, ValueOf(a), Pow10(n));
    }
  }

  /** What stands before the last `width` digits of `n`. */
  function WholePart(n: nat, width: nat): nat { if width == 0 then n else WholePart(n / 10, width - 1) }

  lemma {:induction false} PartsMakeWhole(n: nat, width: nat)
    ensures n == WholePart(n, width) * Pow10(width) + ValueOf(Padded(n, width))
  {
    if width > 0 {
      PartsMakeWhole(n / 10, width - 1);
      assert Padded(n, width)[..width - 1] == Padded(n / 10, width - 1);
      Product3(10, WholePart(n, width), Pow10(width - 1));
    }
  }

  function Zeros(n: nat): (s: string)
    ensures |s| == n && AllDigits(s)
  {
    if n == 0 then "" else Zeros(n - 1) + "0"
  }

  /** The digits of a number, cut before the last `width` of them. */
  lemma {:induction false} CutDigits(n: nat, width: nat)
    requires width < |Render(n)|
    ensures var s := Render(n);
            s[..|s| - width] == Render(WholePart(n, width)) && s[|s| - width..] == Padded(n, width)
  {
    var s := Render(n);
    if width > 0 {
      var t := Render(n / 10);
      CutDigits(n / 10, width - 1);
      assert s == t + [DigitChar(n % 10)];
      assert s[..|s| - width] == t[..|t| - (width - 1)];
      assert s[|s| - width..] == t[|t| - (width - 1)..] + [DigitChar(n % 10)];
    }
  }

  lemma {:induction false} ZeroFilled(n: nat, width: nat)
    requires |Render(n)| <= width
    ensures Padded(n, width) == Zeros(width - |Render(n)|) + Render(n) && WholePart(n, width) == 0
  {
    if n < 10 {
      PaddedZero(width - 1);
    } else {
      ZeroFilled(n / 10, width - 1);
      assert width - |Render(n)| == width - 1 - |Render(n / 10)|;
    }
  }

  lemma {:induction false} PaddedZero(width: nat)
    ensures Padded(0, width) == Zeros(width) && WholePart(0, width) == 0
  {
    if width > 0 {
      PaddedZero(width - 1);
    }
  }

  /** A number is written without zeros in front. */
  lemma {:induction false} NoLeadingZero(n: nat)
    ensures Render(n) != "" && (n > 0 ==> Render(n)[0] != '0') && (n == 0 ==> Render(n) == "0")
  {
    if n >= 10 {
      NoLeadingZero(n / 10);
    }
  }
}
