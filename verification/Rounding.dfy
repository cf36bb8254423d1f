/** Rounding of suggested requests and printing them as Kubernetes quantities. Exact reals stand
    for float64; the epsilon and the step change at one core are the program's own. */
module Rounding {
  import opened Decimal
  import opened Reports

  const EPSILON: real := 0.000000001
  const MI: int := 1048576
  const STEP: int := 33554432

  function Max(a: real, b: real): real {
    if a >= b then a else b
  }

  function Ceil(x: real): int {
    -((-x).Floor)
  }

  lemma CeilMonotone(x: real, y: real)
    requires x <= y
    ensures Ceil(x) <= Ceil(y)
  {
  }

  /** An integer less the epsilon rounds back up to itself. */
  lemma CeilOfInteger(n: int)
    ensures Ceil(n as real - EPSILON) == n
  {
  }

  /** `roundCPU`: steps of 10m below one core, of 100m above. */
  function RoundCPU(cores: real): real {
    if cores < 1.0 then Ceil(cores * 100.0 - EPSILON) as real / 100.0
    else Ceil(cores * 10.0 - EPSILON) as real / 10.0
  }

  /** `roundMem`: steps of 32Mi. */
  function RoundMem(bytes: real): real {
    (Ceil(bytes / STEP as real - EPSILON) * STEP) as real
  }

  lemma RoundCPUMonotone(a: real, b: real)
    requires a <= b
    ensures RoundCPU(a) <= RoundCPU(b)
  {
    if b < 1.0 {
      CeilMonotone(a * 100.0 - EPSILON, b * 100.0 - EPSILON);
    } else if a < 1.0 {
      CeilMonotone(a * 100.0 - EPSILON, 100 as real - EPSILON);
      CeilMonotone(10 as real - EPSILON, b * 10.0 - EPSILON);
      CeilOfInteger(100);
      CeilOfInteger(10);
    } else {
      CeilMonotone(a * 10.0 - EPSILON, b * 10.0 - EPSILON);
    }
  }

  /** Never below the input by more than the scaled epsilon, less than one step above it. */
  lemma RoundCPUTight(c: real)
    ensures c < 1.0 ==> c - EPSILON / 100.0 <= RoundCPU(c) < c + 0.01
    ensures c >= 1.0 ==> c - EPSILON / 10.0 <= RoundCPU(c) < c + 0.1
  {
  }

  /** A rounded amount is a whole number of its steps. */
  lemma RoundCPUGrid(c: real) returns (n: int)
    ensures c < 1.0 ==> n <= 100 && RoundCPU(c) == n as real / 100.0
    ensures c >= 1.0 ==> n >= 10 && RoundCPU(c) == n as real / 10.0
    ensures c >= 0.01 ==> n >= 1
  {
    if c < 1.0 {
      n := Ceil(c * 100.0 - EPSILON);
      CeilMonotone(c * 100.0 - EPSILON, 100 as real - EPSILON);
      CeilOfInteger(100);
      if c >= 0.01 {
        CeilMonotone(1 as real - EPSILON, c * 100.0 - EPSILON);
        CeilOfInteger(1);
      }
    } else {
      n := Ceil(c * 10.0 - EPSILON);
      CeilMonotone(10 as real - EPSILON, c * 10.0 - EPSILON);
      CeilOfInteger(10);
    }
  }

  lemma RoundCPUIdempotent(c: real)
    ensures RoundCPU(RoundCPU(c)) == RoundCPU(c)
  {
    var n := RoundCPUGrid(c);
    CeilOfInteger(n);
    CeilOfInteger(10);
    if c < 1.0 && n < 100 {
      assert RoundCPU(c) * 100.0 == n as real;
    } else if c >= 1.0 {
      assert RoundCPU(c) * 10.0 == n as real;
    }
  }

  lemma RoundMemMonotone(a: real, b: real)
    requires a <= b
    ensures RoundMem(a) <= RoundMem(b)
  {
    CeilMonotone(a / STEP as real - EPSILON, b / STEP as real - EPSILON);
  }

  lemma RoundMemTight(b: real)
    ensures b - EPSILON * STEP as real <= RoundMem(b) < b + STEP as real
  {
  }

  lemma RoundMemIdempotent(b: real)
    ensures RoundMem(RoundMem(b)) == RoundMem(b)
  {
    var n := Ceil(b / STEP as real - EPSILON);
    assert RoundMem(b) / STEP as real == n as real;
    CeilOfInteger(n);
  }

  // Printing.

  /** Rounds to the nearest integer, halves away from zero. */
  function Round(x: real): int {
    if x >= 0.0 then (x + 0.5).Floor else -((0.5 - x).Floor)
  }

  function PrintInt(n: int): string {
    if n < 0 then "-" + Dec(-n) else Dec(n)
  }

  /** Thousandths to tenths as `%.1f` prints them, exact ties to even. */
  function Tenths(m: nat): nat {
    var q, r := m / 100, m % 100;
    if r < 50 || (r == 50 && q % 2 == 0) then q else q + 1
  }

  /** Thousandths of a core as a quantity. */
  function FormatMilli(m: int): string {
    if m < 1000 then PrintInt(m) + "m"
    else if m % 1000 == 0 then Dec(m / 1000)
    else Dec(Tenths(m) / 10) + "." + [Digit(Tenths(m) % 10)]
  }

  function FormatCPU(cores: real): string {
    FormatMilli(Round(cores * 1000.0))
  }

  function FormatMem(bytes: real): string {
    var mi := Ceil(bytes / MI as real);
    if mi >= 1024 && mi % 1024 == 0 then PrintInt(mi / 1024) + "Gi" else PrintInt(mi) + "Mi"
  }

  /** The printed tenths are the nearest ones, the even one of two that are equally near. */
  lemma TenthsNearest(m: nat)
    ensures m - 50 <= 100 * Tenths(m) <= m + 50
    ensures 100 * Tenths(m) == m - 50 || 100 * Tenths(m) == m + 50 ==> Tenths(m) % 2 == 0
  {
  }

  lemma RoundOfInteger(x: real, m: nat)
    requires x == m as real
    ensures Round(x) == m
  {
  }

  lemma WholeTenths(m: nat)
    requires m % 100 == 0
    ensures Tenths(m) == m / 100 && Tenths(m) / 10 == m / 1000
  {
  }

  /** Below one core in thousandths, from there on as whole cores or with one decimal. */
  lemma FormatCPUExactly(cores: real, m: nat)
    requires cores * 1000.0 == m as real
    ensures m < 1000 ==> FormatCPU(cores) == Dec(m) + "m"
    ensures m >= 1000 && m % 1000 == 0 ==> FormatCPU(cores) == Dec(m / 1000)
    ensures m >= 1000 && m % 1000 != 0 && m % 100 == 0 ==>
              FormatCPU(cores) == Dec(m / 1000) + "." + ["0123456789"[m / 100 % 10]]
  {
    RoundOfInteger(cores * 1000.0, m);
    if m % 100 == 0 {
      WholeTenths(m);
    }
  }

  /** In units of 1024 times 1048576 bytes when it is a whole number of them, else of 1048576. */
  lemma FormatMemExactly(mi: nat, gi: nat)
    ensures mi < 1024 || mi % 1024 != 0 ==> FormatMem((mi * 1048576) as real) == Dec(mi) + "Mi"
    ensures gi >= 1 ==> FormatMem((gi * 1024 * 1048576) as real) == Dec(gi) + "Gi"
  {
    assert Ceil((mi * MI) as real / MI as real) == mi by {
      assert (mi * MI) as real / MI as real == mi as real;
    }
    assert Ceil((gi * 1024 * MI) as real / MI as real) == gi * 1024 by {
      assert (gi * 1024 * MI) as real / MI as real == (gi * 1024) as real;
    }
    assert gi * 1024 % 1024 == 0 && gi * 1024 / 1024 == gi;
  }

  // Reading quantities back: "250m", "2", "1.5"; "96Mi", "2Gi".

  function Whole(s: string): Option<int> {
    if s != [] && ReadNat(s) >= 0 then Some(ReadNat(s)) else None
  }

  function Scaled(v: Option<int>, k: int): Option<int> {
    if v.Some? then Some(v.value * k) else None
  }

  /** A CPU quantity in thousandths of a core. */
  function ParseCPU(s: string): Option<int> {
    var n := |s|;
    if n >= 1 && s[n - 1] == 'm' then Whole(s[..n - 1])
    else if n >= 2 && s[n - 2] == '.' then
      var whole, tenth := Whole(s[..n - 2]), Whole(s[n - 1..]);
      if whole.Some? && tenth.Some? then Some(whole.value * 1000 + tenth.value * 100) else None
    else Scaled(Whole(s), 1000)
  }

  /** A memory quantity in bytes. */
  function ParseMem(s: string): Option<int> {
    var n := |s|;
    if n >= 2 && s[n - 2..] == "Mi" then Scaled(Whole(s[..n - 2]), MI)
    else if n >= 2 && s[n - 2..] == "Gi" then Scaled(Whole(s[..n - 2]), 1024 * MI)
    else Whole(s)
  }

  lemma WholeOfDec(n: nat)
    ensures Whole(Dec(n)) == Some(n)
  {
    ReadOfDec(n);
  }

  lemma TenthsReadBack(t: nat)
    ensures ParseCPU(Dec(t / 10) + "." + [Digit(t % 10)]) == Some(t * 100)
  {
    var s := Dec(t / 10) + "." + [Digit(t % 10)];
    WholeOfDec(t / 10);
    WholeOfDec(t % 10);
    assert s[..|s| - 2] == Dec(t / 10);
    assert s[|s| - 1..] == Dec(t % 10);
    assert s[|s| - 2] == '.';
  }

  lemma MilliReadBack(m: nat)
    ensures ParseCPU(PrintInt(m) + "m") == Some(m)
  {
    WholeOfDec(m);
    assert (Dec(m) + "m")[..|Dec(m)|] == Dec(m);
  }

  lemma CoresReadBack(k: nat)
    ensures ParseCPU(Dec(k)) == Some(k * 1000)
  {
    var cores := Dec(k);
    WholeOfDec(k);
    assert IsDigit(cores[|cores| - 1]) && (|cores| >= 2 ==> IsDigit(cores[|cores| - 2]));
  }

  lemma PrintedReadsBack(cores: real, m: nat)
    requires cores * 1000.0 == m as real && Round(m as real) == m && (m < 1000 || m % 100 == 0)
    ensures ParseCPU(FormatCPU(cores)) == Some(m)
  {
    if m < 1000 {
      MilliReadBack(m);
    } else if m % 1000 == 0 {
      CoresReadBack(m / 1000);
    } else {
      TenthsReadBack(m / 100);
    }
  }

  /** A suggested CPU request reads back from its printed form as exactly itself. */
  lemma CPUReadsBack(c: real)
    requires c >= 0.01
    ensures var q := ParseCPU(FormatCPU(RoundCPU(c)));
            q.Some? && q.value as real / 1000.0 == RoundCPU(c)
  {
    var n := RoundCPUGrid(c);
    var m := if c < 1.0 then n * 10 else n * 100;
    assert RoundCPU(c) * 1000.0 == m as real;
    assert Round(RoundCPU(c) * 1000.0) == m;
    PrintedReadsBack(RoundCPU(c), m);
  }

  lemma MemReadsBackInt(mi: nat)
    ensures ParseMem(FormatMem((mi * MI) as real)) == Some(mi * MI)
  {
    assert Ceil((mi * MI) as real / MI as real) == mi by {
      assert (mi * MI) as real / MI as real == mi as real;
    }
    if mi >= 1024 && mi % 1024 == 0 {
      WholeOfDec(mi / 1024);
      var s := Dec(mi / 1024) + "Gi";
      assert s[..|s| - 2] == Dec(mi / 1024) && s[|s| - 2..] == "Gi";
      assert "Gi"[0] != "Mi"[0];
    } else {
      WholeOfDec(mi);
      var s := Dec(mi) + "Mi";
      assert s[..|s| - 2] == Dec(mi) && s[|s| - 2..] == "Mi";
    }
  }

  /** A suggested memory amount reads back from its printed form as exactly itself. */
  lemma MemReadsBack(b: real)
    requires b >= 0.0
    ensures var q := ParseMem(FormatMem(RoundMem(b)));
            q.Some? && q.value as real == RoundMem(b)
  {
    var n := Ceil(b / STEP as real - EPSILON);
    CeilMonotone(0 as real - EPSILON, b / STEP as real - EPSILON);
    CeilOfInteger(0);
    assert STEP == 32 * MI;
    assert n * STEP == (n * 32) * MI;
    MemReadsBackInt(n * 32);
  }

  /** The bytes a rounded amount prints as. */
  function PrintedMem(b: real): Option<int> {
    ParseMem(FormatMem(RoundMem(b)))
  }

  lemma PrintedMemOrder(a: real, b: real)
    requires a >= 0.0 && b >= 0.0
    ensures PrintedMem(a).Some? && PrintedMem(b).Some?
    ensures PrintedMem(a).value <= PrintedMem(b).value <==> RoundMem(a) <= RoundMem(b)
  {
    MemReadsBack(a);
    MemReadsBack(b);
  }
}
