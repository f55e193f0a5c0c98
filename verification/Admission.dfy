/** The native-review clock: decimal nanoseconds, the window an authority request may ask for, and the
    admission check in machine arithmetic against the same check on integers. */
module Admission {
  import opened Alphabet

  const TWO_63: int := 0x8000_0000_0000_0000
  const TWO_64: int := 0x1_0000_0000_0000_0000

  const MAX_WINDOW_NS := 60_000_000_000
  const BUDGET_NS := 1_000_000_000
  const CUTOFF_MARGIN_NS := 100_000_000
  const SKEW_NS := 5_000_000

  type Uint64 = n: int | 0 <= n < TWO_64
  type Int64 = n: int | -TWO_63 <= n < TWO_63

  // ----- Go's wrapping operators: one sum, difference, negation or conversion leaves the range by at most 2^64 -----

  function Add(a: Uint64, b: Uint64): Uint64 {
    if a + b >= TWO_64 then a + b - TWO_64 else a + b
  }

  function Sub(a: Uint64, b: Uint64): Uint64 {
    if a < b then a - b + TWO_64 else a - b
  }

  /** The signed 64-bit value congruent to n modulo 2^64. */
  function Signed(n: int): Int64
    requires -TWO_64 <= n < TWO_64
  {
    if n >= TWO_63 then n - TWO_64 else if n < -TWO_63 then n + TWO_64 else n
  }

  function Unsigned(n: Int64): Uint64 {
    if n < 0 then n + TWO_64 else n
  }

  // ----- decimal nanoseconds -----

  function DigitValue(c: char): nat
    requires IsDigit(c)
  {
    c as int - '0' as int
  }

  function DecimalValue(s: string): (v: nat)
    requires forall c | c in s :: IsDigit(c)
  {
    if s == [] then 0 else 10 * DecimalValue(s[..|s| - 1]) + DigitValue(s[|s| - 1])
  }

  /** The pattern (0|[1-9][0-9]{0,18}), whole text. */
  predicate IsCanonical(s: string) {
    && 1 <= |s| <= 19
    && (forall c | c in s :: IsDigit(c))
    && (s[0] == '0' ==> |s| == 1)
  }

  datatype Parsed = Value(ns: Uint64) | NotCanonical | Overflow

  /** ParseNS: the pattern first, then strconv.ParseUint with its own range check. */
  function ParseNS(s: string): Parsed {
    if !IsCanonical(s) then NotCanonical
    else if DecimalValue(s) >= TWO_64 then Overflow
    else Value(DecimalValue(s))
  }

  function Pow10(k: nat): nat { if k == 0 then 1 else 10 * Pow10(k - 1) }

  lemma {:induction false} DecimalBound(s: string)
    requires forall c | c in s :: IsDigit(c)
    ensures DecimalValue(s) < Pow10(|s|)
  {
    if s != [] {
      DecimalBound(s[..|s| - 1]);
      assert DigitValue(s[|s| - 1]) <= 9;
    }
  }

  lemma {:induction false} Pow10Grows(j: nat, k: nat)
    requires j <= k
    ensures 1 <= Pow10(j) <= Pow10(k)
  {
    if j < k { Pow10Grows(j, k - 1); } else if j > 0 { Pow10Grows(j - 1, j - 1); }
  }

  lemma {:induction false} DecimalAtLeast(s: string)
    requires s != [] && (forall c | c in s :: IsDigit(c)) && s[0] != '0'
    ensures Pow10(|s| - 1) <= DecimalValue(s)
  {
    if |s| > 1 {
      DecimalAtLeast(s[..|s| - 1]);
    } else {
      assert s[..0] == [];
    }
  }

  /** The pattern keeps every value below 10^19, so the overflow refusal cannot happen. */
  lemma ParseNeverOverflows(s: string)
    ensures ParseNS(s) != Overflow
    ensures ParseNS(s).Value? ==> ParseNS(s).ns < 10_000_000_000_000_000_000
  {
    if IsCanonical(s) {
      DecimalBound(s);
      Pow10Grows(|s|, 19);
      assert Pow10(19) == 10_000_000_000_000_000_000 by {
        assert Pow10(4) == 10_000;
        assert Pow10(8) == 10_000 * Pow10(4);
        assert Pow10(12) == 10_000 * Pow10(8);
        assert Pow10(16) == 10_000 * Pow10(12);
      }
    }
  }

  /** Each time has one canonical spelling. */
  lemma ParseIsInjective(s: string, t: string)
    requires ParseNS(s).Value? && ParseNS(s) == ParseNS(t)
    ensures s == t
  {
    CanonicalLength(s, t);
    CanonicalLength(t, s);
    SameDigits(s, t);
  }

  lemma CanonicalLength(s: string, t: string)
    requires IsCanonical(s) && IsCanonical(t) && DecimalValue(s) == DecimalValue(t)
    ensures |s| <= |t|
  {
    if |t| < |s| {
      DecimalAtLeast(s);
      DecimalBound(t);
      Pow10Grows(|t|, |s| - 1);
    }
  }

  lemma {:induction false} SameDigits(s: string, t: string)
    requires |s| == |t| && (forall c | c in s :: IsDigit(c)) && (forall c | c in t :: IsDigit(c))
    requires DecimalValue(s) == DecimalValue(t)
    ensures s == t
  {
    if s != [] {
      var n := |s| - 1;
      assert DigitValue(s[n]) == DigitValue(t[n]) && DecimalValue(s[..n]) == DecimalValue(t[..n]);
      SameDigits(s[..n], t[..n]);
      assert s == s[..n] + [s[n]] && t == t[..n] + [t[n]];
    }
  }

  // ----- the window of an authority request -----

  /** The window part of NativeAuthorityRequest.Validate. */
  function WindowValid(notBefore: string, expires: string): bool {
    match (ParseNS(notBefore), ParseNS(expires))
    case (Value(nb), Value(ex)) => !(nb == 0 || nb >= ex || ex >= TWO_63 || Sub(ex, nb) > MAX_WINDOW_NS)
    case _ => false
  }

  // ----- admission -----

  datatype ClockEvidence = ClockEvidence(
    binding: string,
    outerMono: string,
    outerWall: string,
    sampleMono: string,
    sampleWall: string)

  datatype Verdict =
    | Admitted
    | ClockBindingMismatch | NsNotCanonical | NsOverflow | WindowClosed | WindowCutoff | ClockRegressed | ClockSkew

  /** The machine arithmetic of CheckAdmission, behind the parsing. */
  function Check(nb: Uint64, ex: Uint64, om: Uint64, ow: Uint64, sm: Uint64, sw: Uint64): Verdict {
    if nb > ow || ow >= ex then WindowClosed
    else if ow > TWO_63 || om > TWO_63 || sm > TWO_63 || sw > TWO_63 then NsOverflow
    else
      var budgetEnd := Add(om, BUDGET_NS);
      var rem := Add(om, Sub(ex, ow));
      var end := if rem < budgetEnd then rem else budgetEnd;
      if end < CUTOFF_MARGIN_NS then WindowCutoff
      else
        var cutoff := Sub(end, CUTOFF_MARGIN_NS);
        if sm < om then ClockRegressed
        else
          var wallDelta := Signed(Signed(sw) - Signed(ow));
          var monoDelta := Signed(Signed(sm) - Signed(om));
          var skew: int := Signed(wallDelta - monoDelta);
          var size := if skew < 0 then Signed(-skew) else skew;
          if Unsigned(size) > SKEW_NS then ClockSkew
          else if sm >= cutoff || Sub(cutoff, sm) < CUTOFF_MARGIN_NS then WindowCutoff
          else Admitted
  }

  function ParseError(p: Parsed): Verdict
    requires !p.Value?
  {
    if p.NotCanonical? then NsNotCanonical else NsOverflow
  }

  /** CheckAdmission: the binding, then the six times in the order the source parses them, then the check. */
  function CheckAdmission(e: ClockEvidence, notBefore: string, expires: string, bindingWant: string): Verdict {
    if e.binding == "" || e.binding != bindingWant then ClockBindingMismatch
    else
      var nb, ex := ParseNS(notBefore), ParseNS(expires);
      var om, ow, sm, sw := ParseNS(e.outerMono), ParseNS(e.outerWall), ParseNS(e.sampleMono), ParseNS(e.sampleWall);
      if !nb.Value? then ParseError(nb)
      else if !ex.Value? then ParseError(ex)
      else if !om.Value? then ParseError(om)
      else if !ow.Value? then ParseError(ow)
      else if !sm.Value? then ParseError(sm)
      else if !sw.Value? then ParseError(sw)
      else Check(nb.ns, ex.ns, om.ns, ow.ns, sm.ns, sw.ns)
  }

  /** The same predicate on integers: nothing wraps, and nothing is compared after truncation. */
  predicate Ideal(nb: int, ex: int, om: int, ow: int, sm: int, sw: int) {
    && nb <= ow < ex
    && ow <= TWO_63 && om <= TWO_63 && sm <= TWO_63 && sw <= TWO_63
    && om <= sm
    && -SKEW_NS <= (sw - ow) - (sm - om) <= SKEW_NS
    && sm + 2 * CUTOFF_MARGIN_NS <= om + BUDGET_NS
    && sm + 2 * CUTOFF_MARGIN_NS <= om + (ex - ow)
  }

  /** For clocks the range check lets through, the wrapped skew test accepts exactly the skews within the bound and the
      one family that wraps back into it: wall and monotonic time apart by 2^64, up to the bound. */
  lemma SkewTest(om: int, ow: int, sm: int, sw: int)
    requires 0 <= om <= sm <= TWO_63 && 0 <= ow <= TWO_63 && 0 <= sw <= TWO_63
    ensures var skew: int := Signed(Signed(Signed(sw) - Signed(ow)) - Signed(Signed(sm) - Signed(om)));
            var size := if skew < 0 then Signed(-skew) else skew;
            var apart := (sw - ow) - (sm - om);
            Unsigned(size) <= SKEW_NS <==> -SKEW_NS <= apart <= SKEW_NS || apart <= SKEW_NS - TWO_64
  {}

  /** Exactly when the machine check admits: the integer predicate holds and the remaining window does not wrap. */
  lemma AdmittedIff(nb: Uint64, ex: Uint64, om: Uint64, ow: Uint64, sm: Uint64, sw: Uint64)
    ensures Check(nb, ex, om, ow, sm, sw) == Admitted <==>
            Ideal(nb, ex, om, ow, sm, sw) && om + (ex - ow) < TWO_64
  {
    if nb <= ow < ex && ow <= TWO_63 && om <= sm <= TWO_63 && sw <= TWO_63 && sm - om <= BUDGET_NS {
      SkewTest(om, ow, sm, sw);
    }
  }

  /** A request whose window passed Validate: machine check and integer predicate are the same. */
  lemma ValidWindowMeansIdeal(e: ClockEvidence, notBefore: string, expires: string, bindingWant: string)
    requires WindowValid(notBefore, expires)
    requires ParseNS(e.outerMono).Value? && ParseNS(e.outerWall).Value?
    requires ParseNS(e.sampleMono).Value? && ParseNS(e.sampleWall).Value?
    ensures CheckAdmission(e, notBefore, expires, bindingWant) == Admitted <==>
            && e.binding != "" && e.binding == bindingWant
            && Ideal(ParseNS(notBefore).ns, ParseNS(expires).ns, ParseNS(e.outerMono).ns, ParseNS(e.outerWall).ns,
                     ParseNS(e.sampleMono).ns, ParseNS(e.sampleWall).ns)
  {
    hide Check, ParseNS;
    AdmittedIff(ParseNS(notBefore).ns, ParseNS(expires).ns, ParseNS(e.outerMono).ns, ParseNS(e.outerWall).ns,
                ParseNS(e.sampleMono).ns, ParseNS(e.sampleWall).ns);
  }

  /** Any admission, validated window or not, is sound: bound to the authority, inside the window, the sample at most
      800 ms after the outer start and its wall time at least 195 ms before expiry. */
  lemma AdmissionIsSound(e: ClockEvidence, notBefore: string, expires: string, bindingWant: string)
    requires CheckAdmission(e, notBefore, expires, bindingWant) == Admitted
    ensures e.binding != "" && e.binding == bindingWant
    ensures ParseNS(notBefore).Value? && ParseNS(expires).Value? && ParseNS(e.outerMono).Value?
    ensures ParseNS(e.outerWall).Value? && ParseNS(e.sampleMono).Value? && ParseNS(e.sampleWall).Value?
    ensures var nb, ex, om := ParseNS(notBefore).ns, ParseNS(expires).ns, ParseNS(e.outerMono).ns;
            var ow, sm, sw := ParseNS(e.outerWall).ns, ParseNS(e.sampleMono).ns, ParseNS(e.sampleWall).ns;
            && Ideal(nb, ex, om, ow, sm, sw)
            && nb <= ow < ex
            && om <= sm <= om + 800_000_000
            && sw <= ex - 195_000_000
  {
    hide Check, ParseNS;
    AdmittedIff(ParseNS(notBefore).ns, ParseNS(expires).ns, ParseNS(e.outerMono).ns, ParseNS(e.outerWall).ns,
                ParseNS(e.sampleMono).ns, ParseNS(e.sampleWall).ns);
  }

  /** Without the window check the machine arithmetic refuses more than the integers do: here om + (ex - ow) wraps. */
  lemma UnvalidatedWindowRefusesMore()
    ensures var nb, ex, om, ow := 1, 9_999_999_999_999_999_999, TWO_63, 1;
            && Ideal(nb, ex, om, ow, om, ow)
            && Check(nb, ex, om, ow, om, ow) == WindowCutoff
  {}
}
