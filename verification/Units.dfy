/** Numbers with unit suffixes: the sizes of `tail`, and the sizes and ages of `find`. */
module Units {

  const MAX_INT64: int := 0x7FFF_FFFF_FFFF_FFFF
  const TWO_64: int := 0x1_0000_0000_0000_0000

  /** A product as Go computes it in 64 bits. */
  function Wrap64(x: int): (r: int)
    ensures -MAX_INT64 - 1 <= r <= MAX_INT64
    ensures r == x <==> -MAX_INT64 - 1 <= x <= MAX_INT64
    ensures (r - x) % 0x1_0000_0000_0000_0000 == 0
  {
    (x + MAX_INT64 + 1) % TWO_64 - MAX_INT64 - 1
  }

  datatype Parsed = Error | Number(value: int)

  predicate IsDigit(c: char) {
    '0' <= c <= '9'
  }

  function Digit(d: nat): (c: char)
    requires d < 10
    ensures IsDigit(c)
  {
    d as char + '0'
  }

  /** The value of a non-empty string of digits. */
  function ParseDigits(s: string): (r: Parsed)
    ensures r.Number? ==> r.value >= 0
  {
    if s == "" || !IsDigit(s[|s| - 1]) then Error
    else
      var d := (s[|s| - 1] - '0') as int;
      if |s| == 1 then Number(d)
      else
        match ParseDigits(s[..|s| - 1])
        case Error => Error
        case Number(v) => Number(v * 10 + d)
  }

  /** strconv.Atoi and ParseInt in base 10: an optional sign, digits, and the range of 64 bits. */
  function ParseInt(s: string): Parsed {
    var r :=
      if s != "" && s[0] == '-' then
        match ParseDigits(s[1..]) case Error => Error case Number(v) => Number(-v)
      else ParseDigits(if s != "" && s[0] == '+' then s[1..] else s);
    if r.Number? && !(-MAX_INT64 - 1 <= r.value <= MAX_INT64) then Error else r
  }

  function PrintNat(n: nat): (s: string)
    ensures s != "" && forall i :: 0 <= i < |s| ==> IsDigit(s[i])
  {
    if n < 10 then [Digit(n)] else PrintNat(n / 10) + [Digit(n % 10)]
  }

  function PrintInt(n: int): string {
    if n < 0 then "-" + PrintNat(-n) else PrintNat(n)
  }

  lemma DigitValue(d: nat)
    requires d < 10
    ensures (Digit(d) - '0') as int == d
  {}

  lemma {:induction false} PrintNatParses(n: nat)
    ensures ParseDigits(PrintNat(n)) == Number(n)
  {
    DigitValue(n % 10);
    if n >= 10 {
      PrintNatParses(n / 10);
      var s := PrintNat(n);
      assert s[..|s| - 1] == PrintNat(n / 10) && s[|s| - 1] == Digit(n % 10);
    }
  }

  predicate AllDigits(s: string) {
    s != "" && forall i :: 0 <= i < |s| ==> s[i] in "0123456789"
  }

  function Power10(k: nat): nat {
    if k == 0 then 1 else 10 * Power10(k - 1)
  }

  /** The decimal value of a string of digits, the first weighing most. */
  function Decimal(s: string): nat
    requires forall i :: 0 <= i < |s| ==> s[i] in "0123456789"
  {
    if s == "" then 0 else (s[0] as int - 48) * Power10(|s| - 1) + Decimal(s[1..])
  }

  lemma {:induction false} DecimalSnoc(s: string, c: char)
    requires forall i :: 0 <= i < |s| ==> s[i] in "0123456789"
    requires c in "0123456789"
    ensures Decimal(s + [c]) == 10 * Decimal(s) + (c as int - 48)
  {
    if s == "" {
      assert Decimal([c]) == (c as int - 48) * Power10(0) + Decimal([]);
    } else {
      var d, k := s[0] as int - 48, |s| - 1;
      DecimalSnoc(s[1..], c);
      assert (s + [c])[1..] == s[1..] + [c];
      Tenfold(d, k);
    }
  }

  lemma Tenfold(d: int, k: nat)
    ensures d * Power10(k + 1) == 10 * (d * Power10(k))
  {}

  lemma {:induction false} ParseDigitsIs(s: string)
    ensures ParseDigits(s) == if AllDigits(s) then Number(Decimal(s)) else Error
  {
    if s != "" {
      var n := |s| - 1;
      var front, c := s[..n], s[n];
      assert s == front + [c];
      assert IsDigit(c) <==> c in "0123456789";
      ParseDigitsIs(front);
      if front != "" && AllDigits(front) && IsDigit(c) { DecimalSnoc(front, c); }
      if front == "" && IsDigit(c) { DecimalSnoc("", c); }
    }
  }

  /** The digits of a number: what follows its sign. */
  function Unsigned(s: string): string {
    if s != "" && (s[0] == '-' || s[0] == '+') then s[1..] else s
  }

  /** A number is accepted exactly if it has a sign or none and then digits, and its value fits; "-" negates. */
  lemma ParseIntIs(s: string)
    ensures var digits, minus := Unsigned(s), s != "" && s[0] == '-';
            ParseInt(s) ==
            if AllDigits(digits) && Decimal(digits) <= (if minus then 0x8000_0000_0000_0000 else 0x7FFF_FFFF_FFFF_FFFF)
            then Number(Decimal(digits) * if minus then -1 else 1)
            else Error
  {
    ParseDigitsIs(Unsigned(s));
  }

  /** Parsing inverts printing for every 64-bit number. */
  lemma PrintParses(n: int)
    requires -MAX_INT64 - 1 <= n <= MAX_INT64
    ensures ParseInt(PrintInt(n)) == Number(n)
  {
    if n < 0 {
      PrintNatParses(-n);
      assert PrintInt(n)[1..] == PrintNat(-n);
    } else {
      PrintNatParses(n);
      assert IsDigit(PrintNat(n)[0]);
    }
  }

  datatype Outcome = Panic | Value(n: int)

  /** `tail`'s sizes: an optional k or m, an optional b; -1 for anything else. A lone "b" indexes before the string. */
  function ParseCompany(c: string): Outcome {
    if c == "" then Value(0)
    else
      var c := if c[|c| - 1] != 'b' then c + "b" else c;
      if |c| == 1 then Panic
      else
        var index := |c| - 2;
        var company := if c[index] == 'k' then 1024 else if c[index] == 'm' then 1024 * 1024 else 1;
        match ParseInt(c[..if company == 1 then index + 1 else index])
        case Error => Value(-1)
        case Number(size) => Value(Wrap64(size * company))
  }

  /** The suffixes and what they multiply by. */
  function CompanyUnit(suffix: string): nat {
    if suffix == "k" || suffix == "kb" then 1024 else if suffix == "m" || suffix == "mb" then 1024 * 1024 else 1
  }

  /** Whatever ends in a digit is parsed by itself, whichever unit follows it. */
  lemma CompanyNumber(s: string, suffix: string)
    requires s != "" && IsDigit(s[|s| - 1]) && suffix in {"", "b", "k", "kb", "m", "mb"}
    ensures ParseCompany(s + suffix) ==
            match ParseInt(s) case Error => Value(-1) case Number(n) => Value(Wrap64(n * CompanyUnit(suffix)))
  {
    var c := s + suffix;
    var d := if c[|c| - 1] != 'b' then c + "b" else c;
    var k := if CompanyUnit(suffix) == 1 then "b" else [suffix[0], 'b'];
    assert d == s + k;
    assert d[..|s|] == s;
  }

  /** A printed number with a unit is parsed as that many units, in 64 bits; exactly so when the product fits. */
  lemma CompanyOfPrinted(n: int, suffix: string)
    requires -MAX_INT64 - 1 <= n <= MAX_INT64 && suffix in {"", "b", "k", "kb", "m", "mb"}
    ensures ParseCompany(PrintInt(n) + suffix) == Value(Wrap64(n * CompanyUnit(suffix)))
    ensures ParseCompany(PrintInt(n) + suffix) == Value(n * CompanyUnit(suffix)) <==>
            -MAX_INT64 - 1 <= n * CompanyUnit(suffix) <= MAX_INT64
    ensures CompanyUnit(suffix) ==
            if suffix in {"k", "kb"} then 1024 else if suffix in {"m", "mb"} then 1_048_576 else 1
  {
    PrintParses(n);
    LastIsDigit(n);
    CompanyNumber(PrintInt(n), suffix);
  }

  lemma LastIsDigit(n: int)
    ensures PrintInt(n) != "" && IsDigit(PrintInt(n)[|PrintInt(n)| - 1])
  {
    var s := if n < 0 then PrintNat(-n) else PrintNat(n);
    assert PrintInt(n)[|PrintInt(n)| - 1] == s[|s| - 1];
  }

  /** The panic is that of the lone unit. */
  lemma PanicIff(c: string)
    ensures ParseCompany(c) == Panic <==> c == "b"
  {}

  const SECOND: int := 1_000_000_000
  const HOUR: int := 3600 * SECOND

  /** The units of `find -size`. */
  function SizeUnit(u: char): int {
    if u == 'K' || u == 'k' then 1024
    else if u == 'M' || u == 'm' then 1024 * 1024
    else if u == 'G' || u == 'g' then 1024 * 1024 * 1024
    else 1
  }

  /**
   The units of `find -mtime`, in nanoseconds. Without a unit the number counts nanoseconds, and a
   year has 30 * 365 days.
   */
  function AgeUnit(u: char): int {
    if u == 'M' then 60 * SECOND
    else if u == 'H' then HOUR
    else if u == 'd' then 24 * HOUR
    else if u == 'm' then 24 * 30 * HOUR
    else if u == 'y' then 24 * 30 * 365 * HOUR
    else 1
  }

  predicate IsSizeUnit(u: char) {
    u in {'K', 'k', 'M', 'm', 'G', 'g'}
  }

  predicate IsAgeUnit(u: char) {
    u in {'M', 'H', 'd', 'm', 'y'}
  }

  /** The number in front of the unit, or the whole text if it has none. */
  function Count(s: string, hasUnit: bool): Parsed
    requires s != ""
  {
    ParseInt(if hasUnit then s[..|s| - 1] else s)
  }

  const TWO_53: nat := 0x20_0000_0000_0000

  /** The distance between neighbouring 64-bit floats at `n`: `u` doubled until 53 bits reach up to `n`. */
  function Spacing(n: nat, u: nat): (r: nat)
    requires u >= 1
    ensures r >= u && n < TWO_53 * r
    decreases n - TWO_53 * u
  {
    if n < TWO_53 * u then u else Spacing(n, 2 * u)
  }

  /** A whole number as a 64-bit float: rounded to the nearest one, halves to the even one. */
  function Float(n: nat): nat {
    var u := Spacing(n, 1);
    var q, r := n / u, n % u;
    if 2 * r < u || (2 * r == u && q % 2 == 0) then q * u else (q + 1) * u
  }

  /** Back to 64 bits; out of range a processor of the amd64 kind gives the least number. */
  function Truncate(f: nat): int {
    if f <= MAX_INT64 then f else -MAX_INT64 - 1
  }

  /** The magnitude as the source takes it, by way of a float. */
  function FloatAbs(n: int): int {
    Truncate(Float(if n < 0 then -n else n))
  }

  /**
   A number survives the way through a float exactly when it is a multiple of the floats' spacing; up
   to 2^53 all do.
   */
  lemma {:induction false} FloatAbsIff(n: int)
    requires -MAX_INT64 <= n <= MAX_INT64
    ensures var a: nat := if n < 0 then -n else n;
            && (FloatAbs(n) == a <==> a % Spacing(a, 1) == 0)
            && (a <= TWO_53 ==> FloatAbs(n) == a)
  {
    var a: nat := if n < 0 then -n else n;
    var u := Spacing(a, 1);
    RoundIff(a, u);
    if a == TWO_53 {
      assert Spacing(a, 1) == Spacing(a, 2) == 2;
    }
  }

  lemma RoundIff(n: nat, u: nat)
    requires u >= 1
    ensures n == n / u * u + n % u
    ensures n / u * u == n <==> n % u == 0
    ensures (n / u + 1) * u == n / u * u + u > n
  {
    var q := n / u;
    assert n == u * q + n % u;
  }

  datatype MatchSize = BadSize | MatchSize(less: bool, size: int) {
    predicate Match(size: int)
      requires MatchSize?
    {
      if less then size <= this.size else size >= this.size
    }
  }

  function ParseSize(s: string): MatchSize
    requires s != ""
  {
    var u := s[|s| - 1];
    match Count(s, IsSizeUnit(u))
    case Error => BadSize
    case Number(n) => MatchSize(n < 0, Wrap64((if n < 0 then FloatAbs(n) else n) * SizeUnit(u)))
  }

  datatype MatchTime = BadTime | MatchTime(less: bool, time: int) {
    predicate Match(mtime: int)
      requires MatchTime?
    {
      if less then time < mtime else time > mtime
    }
  }

  /** The cut-off lies one nanosecond further back than the age, for the complement negates and takes one off. */
  function ParseMtime(s: string, now: int): MatchTime
    requires s != ""
  {
    var u := s[|s| - 1];
    match Count(s, IsAgeUnit(u))
    case Error => BadTime
    case Number(n) => MatchTime(n < 0, now + (-Wrap64(FloatAbs(n) * AgeUnit(u)) - 1))
  }

  /** A unit, or none at all. */
  predicate SizeSuffix(suffix: string) {
    suffix == "" || (|suffix| == 1 && IsSizeUnit(suffix[0]))
  }

  predicate AgeSuffix(suffix: string) {
    suffix == "" || (|suffix| == 1 && IsAgeUnit(suffix[0]))
  }

  /** A bare number counts single bytes. */
  function SizeScale(suffix: string): (k: int)
    requires SizeSuffix(suffix)
    ensures k >= 1
  {
    if suffix == "" then 1 else SizeUnit(suffix[0])
  }

  /** A bare number counts single nanoseconds. */
  function AgeScale(suffix: string): (k: int)
    requires AgeSuffix(suffix)
    ensures k >= 1
  {
    if suffix == "" then 1 else AgeUnit(suffix[0])
  }

  lemma CountOfPrinted(n: int, suffix: string)
    requires -MAX_INT64 - 1 <= n <= MAX_INT64 && |suffix| <= 1
    ensures var s := PrintInt(n) + suffix;
            && s != "" && Count(s, suffix != "") == Number(n)
            && (if suffix == "" then IsDigit(s[|s| - 1]) else s[|s| - 1] == suffix[0])
  {
    PrintParses(n);
    LastIsDigit(n);
    var s := PrintInt(n) + suffix;
    if suffix == "" { assert s == PrintInt(n); } else { assert s[..|s| - 1] == PrintInt(n); }
  }

  lemma SizeOfPrinted(n: int, suffix: string)
    requires -MAX_INT64 - 1 <= n <= MAX_INT64 && SizeSuffix(suffix)
    ensures PrintInt(n) != ""
    ensures ParseSize(PrintInt(n) + suffix) ==
            MatchSize(n < 0, Wrap64((if n < 0 then FloatAbs(n) else n) * SizeScale(suffix)))
  {
    LastIsDigit(n);
    CountOfPrinted(n, suffix);
    var s := PrintInt(n) + suffix;
    var u := s[|s| - 1];
    assert IsSizeUnit(u) == (suffix != "") && SizeUnit(u) == SizeScale(suffix);
  }

  lemma AgeOfPrinted(n: int, suffix: string, now: int)
    requires -MAX_INT64 - 1 <= n <= MAX_INT64 && AgeSuffix(suffix)
    ensures PrintInt(n) != ""
    ensures ParseMtime(PrintInt(n) + suffix, now) ==
            MatchTime(n < 0, now + (-Wrap64(FloatAbs(n) * AgeScale(suffix)) - 1))
  {
    LastIsDigit(n);
    CountOfPrinted(n, suffix);
    var s := PrintInt(n) + suffix;
    var u := s[|s| - 1];
    assert IsAgeUnit(u) == (suffix != "") && AgeUnit(u) == AgeScale(suffix);
  }

  /**
   "nU" accepts exactly the sizes from n units on and "-nU" exactly those up to n units, with or
   without a unit, as long as the product fits; for "-nU" n is taken through a float first.
   */
  lemma SizeRange(n: int, suffix: string, size: int)
    requires 0 < n && SizeSuffix(suffix) && n * SizeScale(suffix) <= MAX_INT64
    ensures PrintInt(n) != "" && PrintInt(-n) != ""
    ensures var below, above := ParseSize(PrintInt(-n) + suffix), ParseSize(PrintInt(n) + suffix);
            && below.MatchSize? && above.MatchSize?
            && (below.Match(size) <==> size <= FloatAbs(n) * SizeScale(suffix))
            && (above.Match(size) <==> size >= n * SizeScale(suffix))
    ensures SizeScale(suffix) == if suffix in {"K", "k"} then 1024
                                 else if suffix in {"M", "m"} then 1_048_576
                                 else if suffix in {"G", "g"} then 1_073_741_824
                                 else 1
    ensures FloatAbs(n) == n <==> n % Spacing(n, 1) == 0
    ensures n <= TWO_53 || suffix != "" ==> FloatAbs(n) == n
  {
    NotAboveProduct(n, SizeScale(suffix));
    FloatAbsIff(n);
    SizeOfPrinted(-n, suffix);
    SizeOfPrinted(n, suffix);
    SizeScaleIs(suffix);
    if suffix != "" { AtLeast(n, SizeScale(suffix), 1024); }
  }

  lemma SizeScaleIs(suffix: string)
    requires SizeSuffix(suffix)
    ensures SizeScale(suffix) == if suffix in {"K", "k"} then 1024
                                 else if suffix in {"M", "m"} then 1_048_576
                                 else if suffix in {"G", "g"} then 1_073_741_824
                                 else 1
  {
    if suffix != "" { assert suffix == [suffix[0]]; }
  }

  lemma AgeScaleIs(suffix: string)
    requires AgeSuffix(suffix)
    ensures AgeScale(suffix) == if suffix == "M" then 60_000_000_000
                                else if suffix == "H" then 3_600_000_000_000
                                else if suffix == "d" then 86_400_000_000_000
                                else if suffix == "m" then 2_592_000_000_000_000
                                else if suffix == "y" then 946_080_000_000_000_000
                                else 1
  {
    if suffix != "" { assert suffix == [suffix[0]]; }
  }

  /** Every number with a unit whose product fits is below 2^53; a bare "-n" is right exactly when n is a float. */
  lemma {:induction false} SizeRangeIff(n: int, suffix: string)
    requires 0 < n && SizeSuffix(suffix) && n * SizeScale(suffix) <= MAX_INT64
    ensures PrintInt(-n) != ""
    ensures suffix != "" ==> n < TWO_53
    ensures ParseSize(PrintInt(-n) + suffix) == MatchSize(true, n * SizeScale(suffix)) <==> n % Spacing(n, 1) == 0
  {
    NotAboveProduct(n, SizeScale(suffix));
    FloatAbsIff(-n);
    SizeOfPrinted(-n, suffix);
    if suffix != "" { AtLeast(n, SizeScale(suffix), 1024); }
  }

  lemma AtLeast(n: int, k: int, least: int)
    requires n >= 0 && k >= least
    ensures n * k >= n * least
  {}

  /**
   "-nU" accepts exactly the ages up to n units, "nU" exactly those above n units and a nanosecond:
   they exclude each other and miss the one age in between. Without a unit n counts nanoseconds; it is
   taken through a float first.
   */
  lemma AgeRange(n: int, suffix: string, now: int, mtime: int)
    requires 0 < n && AgeSuffix(suffix) && n * AgeScale(suffix) <= MAX_INT64
    ensures PrintInt(n) != "" && PrintInt(-n) != ""
    ensures var young, old' := ParseMtime(PrintInt(-n) + suffix, now), ParseMtime(PrintInt(n) + suffix, now);
            var age, limit := now - mtime, FloatAbs(n) * AgeScale(suffix);
            && young.MatchTime? && old'.MatchTime?
            && (young.Match(mtime) <==> age <= limit)
            && (old'.Match(mtime) <==> age > limit + 1)
            && (!young.Match(mtime) && !old'.Match(mtime) <==> age == limit + 1)
    ensures AgeScale(suffix) == if suffix == "M" then 60_000_000_000
                                else if suffix == "H" then 3_600_000_000_000
                                else if suffix == "d" then 86_400_000_000_000
                                else if suffix == "m" then 2_592_000_000_000_000
                                else if suffix == "y" then 946_080_000_000_000_000
                                else 1
    ensures FloatAbs(n) == n <==> n % Spacing(n, 1) == 0
    ensures n <= TWO_53 || suffix != "" ==> FloatAbs(n) == n
  {
    NotAboveProduct(n, AgeScale(suffix));
    FloatAbsIff(n);
    AgeOfPrinted(-n, suffix, now);
    AgeOfPrinted(n, suffix, now);
    AgeScaleIs(suffix);
    if suffix != "" { AtLeast(n, AgeScale(suffix), SECOND); }
  }

  lemma NotAboveProduct(n: int, k: int)
    requires n >= 0 && k >= 1
    ensures n <= n * k
  {}

  /**
   The cut-off of "nU" or "-nU" is where it should be exactly when n units fit in 64 bits and n is a
   float; ten years do not fit.
   */
  lemma {:induction false} AgeCutOffIff(n: int, suffix: string, now: int)
    requires -MAX_INT64 - 1 <= n <= MAX_INT64 && AgeSuffix(suffix)
    ensures PrintInt(n) != ""
    ensures var a: nat := if n < 0 then -n else n;
            ParseMtime(PrintInt(n) + suffix, now) == MatchTime(n < 0, now - a * AgeScale(suffix) - 1) <==>
            a * AgeScale(suffix) <= MAX_INT64 && a % Spacing(a, 1) == 0
    ensures 9 * AgeUnit('y') <= MAX_INT64 < 10 * AgeUnit('y')
  {
    var a: nat := if n < 0 then -n else n;
    var wrapped, product := Wrap64(FloatAbs(a) * AgeScale(suffix)), a * AgeScale(suffix);
    assert PrintInt(n) != "" && ParseMtime(PrintInt(n) + suffix, now) == MatchTime(n < 0, now - wrapped - 1) by {
      AgeOfPrinted(n, suffix, now);
      assert FloatAbs(n) == FloatAbs(a);
    }
    assert wrapped == product <==> product <= MAX_INT64 && a % Spacing(a, 1) == 0 by { AgeProductIff(a, suffix); }
  }

  lemma {:induction false} AgeProductIff(n: nat, suffix: string)
    requires n <= MAX_INT64 + 1 && AgeSuffix(suffix)
    ensures Wrap64(FloatAbs(n) * AgeScale(suffix)) == n * AgeScale(suffix) <==>
            n * AgeScale(suffix) <= MAX_INT64 && n % Spacing(n, 1) == 0
  {
    AgeFactor(n, suffix);
    WrapIff(FloatAbs(n), n, AgeScale(suffix));
    NotAboveProduct(n, AgeScale(suffix));
  }

  lemma AgeFactor(n: nat, suffix: string)
    requires n <= MAX_INT64 + 1 && AgeSuffix(suffix)
    ensures n <= MAX_INT64 ==> (FloatAbs(n) == n <==> n % Spacing(n, 1) == 0)
    ensures FloatAbs(n) == n || AgeScale(suffix) == 1 || n * AgeScale(suffix) > MAX_INT64
    ensures -MAX_INT64 - 1 <= FloatAbs(n) <= MAX_INT64
  {
    if n <= MAX_INT64 { FloatAbsIff(n); }
    if suffix != "" { AtLeast(n, AgeScale(suffix), SECOND); }
  }

  /** Scaling in 64 bits gives the exact product exactly when that fits and the factor was right. */
  lemma WrapIff(f: int, n: nat, k: int)
    requires k >= 1 && (f == n || k == 1 || n * k > MAX_INT64)
    requires -MAX_INT64 - 1 <= f <= MAX_INT64
    ensures Wrap64(f * k) == n * k <==> n * k <= MAX_INT64 && f == n
  {
    if f == n {
      NotAboveProduct(n, k);
    } else if k == 1 {
      assert f * k == f && n * k == n;
    }
  }
}
