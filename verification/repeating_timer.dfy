/** The ordinal-suffix rule of the repeating-timer example (examples/repeating_timer.rs). */
module RepeatingTimer {
  import opened Prelude
  import opened CTypes

  predicate IsTeen(n: u32) {
    10 <= n < 20
  }

  /** The suffix chosen by the last decimal digit alone. */
  function LastDigitSuffix(n: u32): Option<string> {
    match n % 10
    case 1 => Some("st")
    case 2 => Some("nd")
    case 3 => Some("rd")
    case _ => None
  }

  /**
   * `ordinal_suffix`: "th" for 10 to 19; otherwise "st", "nd" or "rd" for a
   * last digit of 1, 2 or 3; "th" for everything else.
   */
  function OrdinalSuffix(n: u32): (s: string)
    ensures s == "st" || s == "nd" || s == "rd" || s == "th"
    ensures IsTeen(n) ==> s == "th"
    ensures !IsTeen(n) && n % 10 == 1 ==> s == "st"
    ensures !IsTeen(n) && n % 10 == 2 ==> s == "nd"
    ensures !IsTeen(n) && n % 10 == 3 ==> s == "rd"
    ensures n % 10 !in {1, 2, 3} ==> s == "th"
  {
    (if IsTeen(n) then Some("th") else None).OrElse(LastDigitSuffix(n)).UnwrapOr("th")
  }

  /** The suffix depends only on the last digit and on whether the number is 10 to 19. */
  lemma OrdinalSuffixDependsOnLastDigit(n: u32, m: u32)
    requires n % 10 == m % 10 && IsTeen(n) == IsTeen(m)
    ensures OrdinalSuffix(n) == OrdinalSuffix(m)
  {
  }

  /** Only 10 to 19 are special-cased: 111, 112 and 113 take the last digit's suffix. */
  lemma OrdinalSuffixExamples()
    ensures OrdinalSuffix(1) == "st" && OrdinalSuffix(2) == "nd" && OrdinalSuffix(3) == "rd"
    ensures OrdinalSuffix(4) == "th" && OrdinalSuffix(11) == "th" && OrdinalSuffix(12) == "th"
    ensures OrdinalSuffix(13) == "th" && OrdinalSuffix(21) == "st" && OrdinalSuffix(24) == "th"
    ensures OrdinalSuffix(111) == "st" && OrdinalSuffix(112) == "nd" && OrdinalSuffix(113) == "rd"
  {
  }
}
