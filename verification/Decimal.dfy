/** Decimal digits and the numbers they denote. */
module Decimal {
  predicate IsDigit(c: char) { '0' <= c <= '9' }

  predicate AllDigits(s: string) { forall c :: c in s ==> IsDigit(c) }

  function DigitValue(c: char): nat { if IsDigit(c) then c as int - '0' as int else 0 }

  /** `str::parse` digit by digit: ten times what came before, plus the digit. */
  function Value(digits: string): nat {
    if digits == "" then 0
    else 10 * Value(digits[..|digits| - 1]) + DigitValue(digits[|digits| - 1])
  }

  lemma DigitCodes(c: char)
    ensures IsDigit(c) <==> 48 <= c as int <= 57
  {
  }

  // ---- by place, independently

  function Tens(k: nat): nat { if k == 0 then 1 else 10 * Tens(k - 1) }

  /** Each digit, by its code, times the power of ten of its place. */
  function ByPlace(digits: string): int {
    if digits == "" then 0 else (digits[0] as int - 48) * Tens(|digits| - 1) + ByPlace(digits[1..])
  }

  lemma {:induction false} ByPlaceOfLast(front: string, last: char)
    ensures ByPlace(front + [last]) == 10 * ByPlace(front) + (last as int - 48)
  {
    var s := front + [last];
    if front == "" {
      assert s[1..] == "" && Tens(0) == 1;
      assert ByPlace(s) == (s[0] as int - 48) * Tens(0) + ByPlace(s[1..]);
    } else {
      assert s[1..] == front[1..] + [last];
      ByPlaceOfLast(front[1..], last);
      var first, place := front[0] as int - 48, Tens(|front| - 1);
      assert Tens(|s| - 1) == 10 * place;
      assert first * (10 * place) == 10 * (first * place);
    }
  }

  /** Both readings agree. */
  lemma {:induction false} ValueByPlace(digits: string)
    requires AllDigits(digits)
    ensures Value(digits) == ByPlace(digits)
  {
    if digits != "" {
      var n := |digits| - 1;
      ValueByPlace(digits[..n]);
      ByPlaceOfLast(digits[..n], digits[n]);
      assert digits == digits[..n] + [digits[n]];
    }
  }
}
