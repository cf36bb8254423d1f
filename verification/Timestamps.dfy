/** History file names: "report-" + GeneratedAt as 20060102T150405.000 + "Z.json".
    An instant is its UTC calendar fields; `nano` is what the three-digit fraction drops. */
module Timestamps {
  import opened Ordering
  import opened Decimal

  datatype Instant = Instant(year: nat, month: nat, day: nat, hour: nat, minute: nat,
                             second: nat, milli: nat, nano: nat)

  ghost predicate ValidInstant(t: Instant) {
    && 1 <= t.month <= 12 && 1 <= t.day <= 31
    && t.hour < 24 && t.minute < 60 && t.second < 60
    && t.milli < 1000 && t.nano < 1000000
  }

  /** Chronological order at millisecond resolution. */
  ghost predicate Before(a: Instant, b: Instant) {
    || a.year < b.year
    || (a.year == b.year && (
      || a.month < b.month
      || (a.month == b.month && (
        || a.day < b.day
        || (a.day == b.day && (
          || a.hour < b.hour
          || (a.hour == b.hour && (
            || a.minute < b.minute
            || (a.minute == b.minute && (
              || a.second < b.second
              || (a.second == b.second && a.milli < b.milli)))))))))))
  }

  ghost predicate SameMilli(a: Instant, b: Instant) {
    a.(nano := 0) == b.(nano := 0)
  }

  function Prefix(): string { "report-" }

  function Suffix(): string { ".json" }

  function Clock(t: Instant): string {
    ZeroPad(t.hour, 2) + (ZeroPad(t.minute, 2) + (ZeroPad(t.second, 2) + ("." + (ZeroPad(t.milli, 3) + "Z.json"))))
  }

  function Stamp(t: Instant): string {
    ZeroPad(t.year, 4) + (ZeroPad(t.month, 2) + (ZeroPad(t.day, 2) + ("T" + Clock(t))))
  }

  function FileName(t: Instant): string {
    Prefix() + Stamp(t)
  }

  /** The glob `report-*.json`. */
  predicate IsReportName(name: string) {
    |name| >= |Prefix()| + |Suffix()| && Prefix() <= name && name[|name| - |Suffix()|..] == Suffix()
  }

  lemma FileNameMatchesGlob(t: Instant)
    ensures IsReportName(FileName(t))
  {
    var name := FileName(t);
    var head := Prefix() + (ZeroPad(t.year, 4) + (ZeroPad(t.month, 2) + (ZeroPad(t.day, 2) + ("T" +
      (ZeroPad(t.hour, 2) + (ZeroPad(t.minute, 2) + (ZeroPad(t.second, 2) + ("." + (ZeroPad(t.milli, 3) + "Z")))))))));
    assert "Z.json" == "Z" + Suffix();
    assert name == head + Suffix();
    assert name[|name| - 5..] == Suffix();
  }

  /** One fixed-width field in front of the rest of a name. */
  lemma FieldOrder(m: nat, n: nat, w: nat, a: string, b: string)
    requires 0 < w && m < Pow10(w) && n < Pow10(w)
    ensures Less(ZeroPad(m, w) + a, ZeroPad(n, w) + b) <==> m < n || (m == n && Less(a, b))
  {
    ZeroPadOrder(m, n, w);
    ZeroPadWidth(m, w);
    ZeroPadWidth(n, w);
    LessOfConcat(ZeroPad(m, w), ZeroPad(n, w), a, b);
  }

  lemma ClockOrder(a: Instant, b: Instant)
    requires ValidInstant(a) && ValidInstant(b)
    ensures Less(Clock(a), Clock(b)) <==>
            || a.hour < b.hour
            || (a.hour == b.hour && (
              || a.minute < b.minute
              || (a.minute == b.minute && (
                || a.second < b.second
                || (a.second == b.second && a.milli < b.milli)))))
  {
    var ma, mb := ZeroPad(a.milli, 3) + "Z.json", ZeroPad(b.milli, 3) + "Z.json";
    FieldOrder(a.milli, b.milli, 3, "Z.json", "Z.json");
    LessOfConcat(".", ".", ma, mb);
    FieldOrder(a.second, b.second, 2, "." + ma, "." + mb);
    var sa, sb := ZeroPad(a.second, 2) + ("." + ma), ZeroPad(b.second, 2) + ("." + mb);
    FieldOrder(a.minute, b.minute, 2, sa, sb);
    FieldOrder(a.hour, b.hour, 2, ZeroPad(a.minute, 2) + sa, ZeroPad(b.minute, 2) + sb);
  }

  /** File names sort lexicographically in chronological order, for every year up to 9999. */
  lemma FileNameOrder(a: Instant, b: Instant)
    requires ValidInstant(a) && ValidInstant(b) && a.year < 10000 && b.year < 10000
    ensures Less(FileName(a), FileName(b)) <==> Before(a, b)
  {
    ClockOrder(a, b);
    LessOfConcat("T", "T", Clock(a), Clock(b));
    var da, db := ZeroPad(a.day, 2) + ("T" + Clock(a)), ZeroPad(b.day, 2) + ("T" + Clock(b));
    FieldOrder(a.day, b.day, 2, "T" + Clock(a), "T" + Clock(b));
    FieldOrder(a.month, b.month, 2, da, db);
    FieldOrder(a.year, b.year, 4, ZeroPad(a.month, 2) + da, ZeroPad(b.month, 2) + db);
    LessOfConcat(Prefix(), Prefix(), Stamp(a), Stamp(b));
  }

  /** Two reports share a history file exactly when they agree to the millisecond. */
  lemma FileNameCollision(a: Instant, b: Instant)
    requires ValidInstant(a) && ValidInstant(b) && a.year < 10000 && b.year < 10000
    ensures FileName(a) == FileName(b) <==> SameMilli(a, b)
  {
    FileNameOrder(a, b);
    FileNameOrder(b, a);
    LeqTotal(FileName(a), FileName(b));
    if FileName(a) == FileName(b) {
      assert !Before(a, b) && !Before(b, a);
    }
  }

  /** A five-digit year breaks the order, so the bound on the year is needed. */
  lemma FiveDigitYearSortsFirst()
    ensures var a := Instant(9999, 1, 1, 0, 0, 0, 0, 0);
            var b := Instant(10000, 1, 1, 0, 0, 0, 0, 0);
            Before(a, b) && Less(FileName(b), FileName(a))
  {
    var a := Instant(9999, 1, 1, 0, 0, 0, 0, 0);
    var b := Instant(10000, 1, 1, 0, 0, 0, 0, 0);
    assert ZeroPad(9999, 4) == "9999" by {
      assert ZeroPad(9, 1) == "9" && ZeroPad(99, 2) == "99" && ZeroPad(999, 3) == "999";
    }
    assert ZeroPad(10000, 4) == "10000" by {
      assert ZeroPad(1, 0) == "1" && ZeroPad(10, 1) == "10" && ZeroPad(100, 2) == "100" && ZeroPad(1000, 3) == "1000";
    }
    assert Stamp(b) == "10000" + Stamp(b)[5..] && Stamp(a) == "9999" + Stamp(a)[4..];
    LessOfConcat(Prefix(), Prefix(), Stamp(b), Stamp(a));
  }
}
