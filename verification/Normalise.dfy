/** Number normalisation of finding messages: every maximal digit run becomes '#'. */
module Normalise {
  import opened Decimal

  /** `s` without its leading digits. */
  function AfterDigits(s: string): (r: string)
    ensures |r| <= |s| && (r != [] ==> !IsDigit(r[0]))
    ensures s != [] && IsDigit(s[0]) ==> |r| < |s|
  {
    if s != [] && IsDigit(s[0]) then AfterDigits(s[1..]) else s
  }

  function Normalised(s: string): string
    decreases |s|
  {
    if s == [] then []
    else if IsDigit(s[0]) then ['#'] + Normalised(AfterDigits(s))
    else [s[0]] + Normalised(s[1..])
  }

  lemma {:induction false} NoDigitsLeft(s: string)
    ensures forall i | 0 <= i < |Normalised(s)| :: !IsDigit(Normalised(s)[i])
    decreases |s|
  {
    if s == [] {
    } else if IsDigit(s[0]) {
      NoDigitsLeft(AfterDigits(s));
    } else {
      NoDigitsLeft(s[1..]);
    }
  }

  lemma {:induction false} DigitFreeUnchanged(s: string)
    requires forall i | 0 <= i < |s| :: !IsDigit(s[i])
    ensures Normalised(s) == s
  {
    if s != [] {
      DigitFreeUnchanged(s[1..]);
      assert s == [s[0]] + s[1..];
    }
  }

  lemma NormalisedTwice(s: string)
    ensures Normalised(Normalised(s)) == Normalised(s)
  {
    NoDigitsLeft(s);
    DigitFreeUnchanged(Normalised(s));
  }

  // A left-to-right reading with one bit of memory: are we inside a number?

  function Scan(s: string, inside: bool): string {
    if s == [] then []
    else if IsDigit(s[0]) then (if inside then [] else ['#']) + Scan(s[1..], true)
    else [s[0]] + Scan(s[1..], false)
  }

  function Inside(s: string, inside: bool): bool {
    if s == [] then inside else Inside(s[1..], IsDigit(s[0]))
  }

  lemma {:induction false} ScanNormalises(s: string, inside: bool)
    ensures Scan(s, inside) == Normalised(if inside then AfterDigits(s) else s)
    decreases |s|
  {
    if s != [] {
      ScanNormalises(s[1..], IsDigit(s[0]));
    }
  }

  /** What one character contributes. */
  function ScanChar(c: char, inside: bool): string {
    if !IsDigit(c) then [c] else if inside then [] else ['#']
  }

  lemma ScanOne(c: char, s: string, inside: bool)
    ensures Scan([c] + s, inside) == ScanChar(c, inside) + Scan(s, IsDigit(c))
    ensures Inside([c] + s, inside) == Inside(s, IsDigit(c))
  {
    assert ([c] + s)[1..] == s;
  }

  lemma {:induction false} ScanConcat(p: string, q: string, inside: bool)
    ensures Scan(p + q, inside) == Scan(p, inside) + Scan(q, Inside(p, inside))
    ensures Inside(p + q, inside) == Inside(q, Inside(p, inside))
  {
    if p == [] {
      assert p + q == q;
    } else {
      var c, rest := p[0], p[1..];
      assert p == [c] + rest && p + q == [c] + (rest + q);
      ScanConcat(rest, q, IsDigit(c));
      ScanOne(c, rest, inside);
      ScanOne(c, rest + q, inside);
      Ordering.Regroup(ScanChar(c, inside), Scan(rest, IsDigit(c)), Scan(q, Inside(p, inside)));
    }
  }

  lemma {:induction false} ScanDigits(d: string, inside: bool)
    requires d != [] && AllDigits(d)
    ensures Scan(d, inside) == if inside then [] else ['#']
    ensures Inside(d, inside)
  {
    if |d| > 1 {
      ScanDigits(d[1..], true);
    }
  }

  /** Replacing one number by another never changes the normal form, even when the
      surrounding text touches the number with digits. */
  lemma NumberIrrelevant(p: string, m: nat, n: nat, q: string)
    ensures Normalised(p + Dec(m) + q) == Normalised(p + Dec(n) + q)
  {
    NumberScanned(p, m, q);
    NumberScanned(p, n, q);
  }

  lemma NumberScanned(p: string, n: nat, q: string)
    ensures Normalised(p + Dec(n) + q)
         == Scan(p, false) + (if Inside(p, false) then [] else ['#']) + Scan(q, true)
  {
    ScanNormalises(p + Dec(n) + q, false);
    ScanConcat(p + Dec(n), q, false);
    ScanConcat(p, Dec(n), false);
    ScanDigits(Dec(n), Inside(p, false));
  }

  // What the normal form identifies.

  /** A character that a normal form shows as '#'. */
  predicate Hashed(c: char) {
    IsDigit(c) || c == '#'
  }

  /** The text after a leading number or '#'. */
  function AfterToken(s: string): (r: string)
    requires s != [] && Hashed(s[0])
    ensures |r| < |s|
  {
    if s[0] == '#' then s[1..] else AfterDigits(s)
  }

  /** Equal except that a number or a '#' in one may be any number or a '#' in the other. */
  ghost predicate SameUpToHashes(s: string, t: string)
    decreases |s|
  {
    if s == [] || t == [] then s == t
    else if Hashed(s[0]) then Hashed(t[0]) && SameUpToHashes(AfterToken(s), AfterToken(t))
    else s[0] == t[0] && SameUpToHashes(s[1..], t[1..])
  }

  /** Two texts normalise alike exactly when they agree outside numbers and '#'s and have these in the same places. */
  lemma {:induction false} NormalFormsAgree(s: string, t: string)
    ensures Normalised(s) == Normalised(t) <==> SameUpToHashes(s, t)
    decreases |s|
  {
    if s != [] && t != [] {
      if Hashed(s[0]) && Hashed(t[0]) {
        NormalFormsAgree(AfterToken(s), AfterToken(t));
        CancelHead('#', Normalised(AfterToken(s)), Normalised(AfterToken(t)));
      } else if !Hashed(s[0]) && s[0] == t[0] {
        NormalFormsAgree(s[1..], t[1..]);
        CancelHead(s[0], Normalised(s[1..]), Normalised(t[1..]));
      } else {
        assert Normalised(s)[0] == if Hashed(s[0]) then '#' else s[0];
        assert Normalised(t)[0] == if Hashed(t[0]) then '#' else t[0];
      }
    }
  }

  /** Equal except that a number in one may be another number in the other. */
  ghost predicate SameUpToNumbers(s: string, t: string)
    decreases |s|
  {
    if s == [] || t == [] then s == t
    else if IsDigit(s[0]) then IsDigit(t[0]) && SameUpToNumbers(AfterDigits(s), AfterDigits(t))
    else s[0] == t[0] && SameUpToNumbers(s[1..], t[1..])
  }

  /** Without a literal '#' only numbers can differ. */
  lemma {:induction false} NumbersOnly(s: string, t: string)
    requires '#' !in s && '#' !in t
    ensures Normalised(s) == Normalised(t) <==> SameUpToNumbers(s, t)
    ensures SameUpToHashes(s, t) == SameUpToNumbers(s, t)
    decreases |s|
  {
    NormalFormsAgree(s, t);
    if s != [] && t != [] {
      AfterDigitsIsSuffix(s);
      AfterDigitsIsSuffix(t);
      if IsDigit(s[0]) && IsDigit(t[0]) {
        NumbersOnly(AfterDigits(s), AfterDigits(t));
      } else if !IsDigit(s[0]) && s[0] == t[0] {
        NumbersOnly(s[1..], t[1..]);
      }
    }
  }

  /** A text shares its normal form with no other exactly when it has neither a digit nor a '#'. */
  lemma KeyIsLiteral(s: string)
    ensures (forall t :: Normalised(t) == Normalised(s) ==> t == s) <==> forall c | c in s :: !Hashed(c)
  {
    if forall c | c in s :: !Hashed(c) {
      forall t | Normalised(t) == Normalised(s)
        ensures t == s
      {
        NormalFormsAgree(t, s);
        LiteralAlone(t, s);
      }
    } else {
      var t := Confused(s);
      assert Normalised(t) == Normalised(s) && t != s;
    }
  }

  lemma {:induction false} LiteralAlone(t: string, s: string)
    requires SameUpToHashes(t, s) && forall c | c in s :: !Hashed(c)
    ensures t == s
    decreases |t|
  {
    if t != [] && s != [] {
      assert s[0] in s;
      LiteralAlone(t[1..], s[1..]);
      assert t == [t[0]] + t[1..] && s == [s[0]] + s[1..];
    }
  }

  /** Another text of the same normal form: the normal form itself, or with a '#' made a number. */
  lemma Confused(s: string) returns (t: string)
    requires exists c :: c in s && Hashed(c)
    ensures Normalised(t) == Normalised(s) && t != s
  {
    NormalisedTwice(s);
    NoDigitsLeft(s);
    t := Normalised(s);
    if t == s {
      var i :| 0 <= i < |s| && Hashed(s[i]);
      t := SevenAt(s, i);
    }
  }

  lemma SevenAt(s: string, i: nat) returns (t: string)
    requires i < |s| && s[i] == '#' && forall k | 0 <= k < |s| :: !IsDigit(s[k])
    ensures Normalised(t) == Normalised(s) && t != s
  {
    var p, q := s[..i], s[i + 1..];
    t := p + ['7'] + q;
    assert s == p + ['#'] + q && t[i] == '7';
    HashTwin(p, q);
  }

  /** Between texts without digits a '#' reads like a number. */
  lemma {:induction false} HashTwin(p: string, q: string)
    requires forall i | 0 <= i < |p| :: !IsDigit(p[i])
    requires forall i | 0 <= i < |q| :: !IsDigit(q[i])
    ensures Normalised(p + ['#'] + q) == Normalised(p + ['7'] + q)
  {
    var s, t := p + ['#'] + q, p + ['7'] + q;
    if p == [] {
      assert s[1..] == q && t[1..] == q;
      assert AfterDigits(t) == q;
    } else {
      assert s[1..] == p[1..] + ['#'] + q && t[1..] == p[1..] + ['7'] + q;
      HashTwin(p[1..], q);
    }
  }

  lemma CancelHead(c: char, a: string, b: string)
    ensures [c] + a == [c] + b <==> a == b
  {
    assert ([c] + a)[1..] == a && ([c] + b)[1..] == b;
  }

  lemma {:induction false} AfterDigitsIsSuffix(s: string)
    ensures forall c | c in AfterDigits(s) :: c in s
  {
    if s != [] && IsDigit(s[0]) {
      AfterDigitsIsSuffix(s[1..]);
    }
  }

  /** A literal '#' is confused with a number. */
  lemma HashReadsAsNumber()
    ensures Normalised("#") == Normalised("7") && !SameUpToNumbers("#", "7")
  {
    assert Normalised("") == "" && AfterDigits("7") == "" && Normalised("7") == "#" + Normalised("");
  }

  // Counted messages, "3 Pods missing requests".

  function Plural(n: nat, one: string, many: string): string {
    if n == 1 then one else many
  }

  function Counted(n: nat, one: string, many: string, rest: string): string {
    Dec(n) + (Plural(n, one, many) + rest)
  }

  /** A pluralised count keeps its normal form unless it crosses between 1 and another count
      and the two words themselves normalise apart. The words start with a non-digit. */
  lemma CountedStable(m: nat, n: nat, one: string, many: string, rest: string)
    requires one != [] && many != [] && !IsDigit(one[0]) && !IsDigit(many[0])
    ensures Normalised(Counted(m, one, many, rest)) == Normalised(Counted(n, one, many, rest))
       <==> ((m == 1) == (n == 1) || Normalised(one + rest) == Normalised(many + rest))
  {
    CountedForm(m, one, many, rest);
    CountedForm(n, one, many, rest);
    CancelHead('#', Normalised(Plural(m, one, many) + rest), Normalised(Plural(n, one, many) + rest));
  }

  lemma CountedForm(n: nat, one: string, many: string, rest: string)
    requires one != [] && many != [] && !IsDigit(one[0]) && !IsDigit(many[0])
    ensures Normalised(Counted(n, one, many, rest)) == ['#'] + Normalised(Plural(n, one, many) + rest)
  {
    var q := Plural(n, one, many) + rest;
    NumberScanned("", n, q);
    assert "" + Dec(n) + q == Dec(n) + q;
    ScanNormalises(q, true);
    assert q[0] == Plural(n, one, many)[0];
    assert AfterDigits(q) == q;
  }

  /** A count of one takes the singular and every other count the plural, whatever the number. */
  lemma CountedReads(n: nat, one: string, many: string, rest: string)
    requires one != [] && many != [] && !IsDigit(one[0]) && !IsDigit(many[0])
    ensures n == 1 ==> Counted(n, one, many, rest) == Dec(n) + one + rest
                       && Normalised(Counted(n, one, many, rest)) == "#" + Normalised(one + rest)
    ensures n != 1 ==> Counted(n, one, many, rest) == Dec(n) + many + rest
                       && Normalised(Counted(n, one, many, rest)) == "#" + Normalised(many + rest)
  {
    CountedForm(n, one, many, rest);
    assert Counted(n, one, many, rest) == Dec(n) + Plural(n, one, many) + rest;
  }

  /** "1 Pod" becoming "2 Pods" changes the normal form. */
  lemma OneToManyChanges()
    ensures Counted(1, " Pod", " Pods", "") == "1 Pod" && Counted(2, " Pod", " Pods", "") == "2 Pods"
    ensures Normalised("1 Pod") != Normalised("2 Pods")
  {
    assert Dec(1) == "1" && Dec(2) == "2";
    CountedStable(1, 2, " Pod", " Pods", "");
    DigitFreeUnchanged(" Pod" + "");
    DigitFreeUnchanged(" Pods" + "");
  }
}
