/** Decimal printing and reading of naturals, as `%d` and zero-padded date fields print them. */
module Decimal {
  import opened Ordering

  predicate IsDigit(c: char) {
    '0' <= c <= '9'
  }

  ghost predicate AllDigits(s: string) {
    forall i | 0 <= i < |s| :: IsDigit(s[i])
  }

  function Digit(d: nat): (c: char)
    requires d < 10
    ensures IsDigit(c)
  {
    ('0' as int + d) as char
  }

  function Dec(n: nat): (s: string)
    ensures s != [] && AllDigits(s)
  {
    if n < 10 then [Digit(n)] else Dec(n / 10) + [Digit(n % 10)]
  }

  /** The number a digit string denotes; None when another character occurs. */
  function ReadNat(s: string): (r: int)
    ensures r >= -1
    ensures AllDigits(s) <==> r >= 0
  {
    if s == [] then 0
    else
      var init := ReadNat(s[..|s| - 1]);
      var c := s[|s| - 1];
      assert s == s[..|s| - 1] + [c];
      if init < 0 || !IsDigit(c) then -1 else init * 10 + (c as int - '0' as int)
  }

  lemma {:induction false} ReadOfDec(n: nat)
    ensures ReadNat(Dec(n)) == n
  {
    if n >= 10 {
      ReadOfDec(n / 10);
      assert (Dec(n / 10) + [Digit(n % 10)])[..|Dec(n)| - 1] == Dec(n / 10);
    } else {
      assert [Digit(n)][..0] == [];
    }
  }

  /** Decimal notation: one digit below ten, and from there on the tenth and then the last digit. */
  lemma DecExactly(n: nat, d: nat)
    requires d < 10
    ensures Dec(d) == ["0123456789"[d]]
    ensures n > 0 ==> Dec(10 * n + d) == Dec(n) + ["0123456789"[d]]
  {
  }

  function Pow10(w: nat): nat {
    if w == 0 then 1 else 10 * Pow10(w - 1)
  }

  /** At least `w` digits, padded with zeros on the left; longer when `n` needs more. */
  function ZeroPad(n: nat, w: nat): string
    decreases n + w
  {
    if n < 10 && w <= 1 then [Digit(n)]
    else ZeroPad(n / 10, if w == 0 then 0 else w - 1) + [Digit(n % 10)]
  }

  lemma {:induction false} ZeroPadWidth(n: nat, w: nat)
    requires 0 < w && n < Pow10(w)
    ensures |ZeroPad(n, w)| == w && AllDigits(ZeroPad(n, w))
  {
    if w > 1 {
      ZeroPadWidth(n / 10, w - 1);
    }
  }

  /** Fixed-width numerals sort as strings exactly as their numbers do. */
  lemma {:induction false} ZeroPadOrder(m: nat, n: nat, w: nat)
    requires 0 < w && m < Pow10(w) && n < Pow10(w)
    ensures Less(ZeroPad(m, w), ZeroPad(n, w)) <==> m < n
    ensures ZeroPad(m, w) == ZeroPad(n, w) <==> m == n
  {
    if w > 1 {
      ZeroPadOrder(m / 10, n / 10, w - 1);
      ZeroPadWidth(m / 10, w - 1);
      ZeroPadWidth(n / 10, w - 1);
      var p, q := ZeroPad(m / 10, w - 1), ZeroPad(n / 10, w - 1);
      var a, b := [Digit(m % 10)], [Digit(n % 10)];
      LessOfConcat(p, q, a, b);
      assert (p + a)[..|p|] == p && (q + b)[..|q|] == q;
      assert (p + a)[|p|..] == a && (q + b)[|q|..] == b;
    }
  }
}
