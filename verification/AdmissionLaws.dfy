/** Admission in plain integers: which text is a time, which window may be asked for, and which verdict is given. */
module AdmissionLaws {
  import opened Alphabet
  import opened Admission

  // ----- texts -----

  /** One to nineteen decimal digits, the first of them 0 only when it stands alone. */
  predicate Numeral(s: string) {
    && 1 <= |s| <= 19
    && (forall i | 0 <= i < |s| :: '0' <= s[i] <= '9')
    && (|s| > 1 ==> s[0] != '0')
  }

  /** Its value, from the first digit on. */
  function ValueOf(s: string): int {
    if s == [] then 0 else (s[0] as int - 48) * Pow10(|s| - 1) + ValueOf(s[1..])
  }

  lemma {:induction false} FirstDigitCounts(s: string)
    requires s != [] && forall c | c in s :: IsDigit(c)
    ensures forall c | c in s[1..] :: IsDigit(c)
    ensures DecimalValue(s) == (s[0] as int - 48) * Pow10(|s| - 1) + DecimalValue(s[1..])
  {
    var n := |s| - 1;
    if n > 0 {
      var front := s[..n];
      FirstDigitCounts(front);
      assert s[1..][..n - 1] == front[1..] && s[1..][n - 1] == s[n];
      Tenfold(s[0] as int - 48, Pow10(n - 1));
    } else {
      assert s[1..] == [] && s[..0] == [] && Pow10(0) == 1;
    }
  }

  lemma Tenfold(d: int, p: int)
    ensures 10 * (d * p) == d * (10 * p)
  {}

  lemma {:induction false} DecimalIsValue(s: string)
    requires forall c | c in s :: IsDigit(c)
    ensures DecimalValue(s) == ValueOf(s)
  {
    hide DecimalValue, Pow10;
    if s != [] {
      FirstDigitCounts(s);
      DecimalIsValue(s[1..]);
    } else {
      NoDigits();
    }
  }

  lemma NoDigits()
    ensures DecimalValue([]) == 0
  {}

  /** The times are exactly the numerals, each with its value. */
  lemma TimesAreNumerals(s: string)
    ensures ParseNS(s).Value? <==> Numeral(s)
    ensures ParseNS(s).Value? ==> ParseNS(s).ns == ValueOf(s)
    ensures !ParseNS(s).Value? ==> ParseNS(s).NotCanonical?
  {
    ParseNeverOverflows(s);
    assert IsCanonical(s) <==> Numeral(s) by {
      if IsCanonical(s) { assert forall i | 0 <= i < |s| :: s[i] in s; }
    }
    if Numeral(s) {
      DecimalIsValue(s);
      hide DecimalValue, ValueOf;
    }
  }

  // ----- the window -----

  /** A window starts after 0, is not empty, ends below 2^63 ns and is at most a minute long. */
  lemma WindowInNumbers(notBefore: string, expires: string)
    ensures WindowValid(notBefore, expires) <==>
              && Numeral(notBefore) && Numeral(expires)
              && 0 < ValueOf(notBefore) < ValueOf(expires) < 9_223_372_036_854_775_808
              && ValueOf(expires) - ValueOf(notBefore) <= 60_000_000_000
  {
    TimesAreNumerals(notBefore);
    TimesAreNumerals(expires);
    hide ParseNS, Numeral, ValueOf;
  }

  // ----- the verdict -----

  /** The verdict in integers: the window closed, a clock out of range, the cutoff before the start, a clock that ran back,
      clocks apart by more than 5 ms, or less than 200 ms left of a second or of the window. What is left of a window falls
      short by 2^64 where its end lies beyond the machine's range. */
  ghost function VerdictInNumbers(nb: int, ex: int, om: int, ow: int, sm: int, sw: int): Verdict {
    var apart := (sw - ow) - (sm - om);
    var span := ex - ow - if om + (ex - ow) < 18_446_744_073_709_551_616 then 0 else 18_446_744_073_709_551_616;
    var left := if span < 1_000_000_000 then span else 1_000_000_000;
    if ow < nb || ex <= ow then WindowClosed
    else if ow > 9_223_372_036_854_775_808 || om > 9_223_372_036_854_775_808 || sm > 9_223_372_036_854_775_808
            || sw > 9_223_372_036_854_775_808 then NsOverflow
    else if om + left < 100_000_000 then WindowCutoff
    else if sm < om then ClockRegressed
    else if (apart < -5_000_000 || 5_000_000 < apart) && apart > 5_000_000 - 18_446_744_073_709_551_616 then ClockSkew
    else if (sm - om) + 200_000_000 > left then WindowCutoff
    else Admitted
  }

  lemma CheckInNumbers(nb: Uint64, ex: Uint64, om: Uint64, ow: Uint64, sm: Uint64, sw: Uint64)
    ensures Check(nb, ex, om, ow, sm, sw) == VerdictInNumbers(nb, ex, om, ow, sm, sw)
  {
    if nb <= ow < ex && om <= TWO_63 && sm <= TWO_63 && sw <= TWO_63 {
      if ow <= TWO_63 && om <= sm { SkewTest(om, ow, sm, sw); }
    }
  }

  /** Any window, validated or not: what admission means. */
  lemma AdmittedInNumbers(nb: Uint64, ex: Uint64, om: Uint64, ow: Uint64, sm: Uint64, sw: Uint64)
    ensures Check(nb, ex, om, ow, sm, sw) == Admitted <==>
              && nb <= ow < ex && om <= sm
              && ow <= 9_223_372_036_854_775_808 && om <= 9_223_372_036_854_775_808
              && sm <= 9_223_372_036_854_775_808 && sw <= 9_223_372_036_854_775_808
              && -5_000_000 <= (sw - ow) - (sm - om) <= 5_000_000
              && sm - om <= 800_000_000 && (sm - om) + 200_000_000 <= ex - ow
              && om + (ex - ow) < 18_446_744_073_709_551_616
  {
    AdmittedIff(nb, ex, om, ow, sm, sw);
    hide Check;
    assert TWO_63 == 9_223_372_036_854_775_808;
  }

  /** The binding first, then the six texts, then the clocks. */
  lemma AdmissionInNumbers(e: ClockEvidence, notBefore: string, expires: string, bindingWant: string)
    ensures CheckAdmission(e, notBefore, expires, bindingWant) ==
              if e.binding == "" || bindingWant != e.binding then ClockBindingMismatch
              else if exists s | s in {notBefore, expires, e.outerMono, e.outerWall, e.sampleMono, e.sampleWall} :: !Numeral(s)
              then NsNotCanonical
              else VerdictInNumbers(ValueOf(notBefore), ValueOf(expires), ValueOf(e.outerMono), ValueOf(e.outerWall),
                                    ValueOf(e.sampleMono), ValueOf(e.sampleWall))
  {
    TimesAreNumerals(notBefore);
    TimesAreNumerals(expires);
    TimesAreNumerals(e.outerMono);
    TimesAreNumerals(e.outerWall);
    TimesAreNumerals(e.sampleMono);
    TimesAreNumerals(e.sampleWall);
    hide ParseNS, Numeral, ValueOf, Check, VerdictInNumbers;
    if ParseNS(notBefore).Value? && ParseNS(expires).Value? && ParseNS(e.outerMono).Value? && ParseNS(e.outerWall).Value?
       && ParseNS(e.sampleMono).Value? && ParseNS(e.sampleWall).Value? {
      CheckInNumbers(ParseNS(notBefore).ns, ParseNS(expires).ns, ParseNS(e.outerMono).ns, ParseNS(e.outerWall).ns,
                     ParseNS(e.sampleMono).ns, ParseNS(e.sampleWall).ns);
    }
  }
}
