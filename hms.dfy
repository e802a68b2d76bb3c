/** Splitting a number of seconds into hours, minutes and seconds. */
module Hms {

  /** Division by 60 has one quotient and remainder. */
  lemma DivMod60(a: int, q: int, r: int)
    requires 0 <= r < 60 && a == q * 60 + r
    ensures a / 60 == q && a % 60 == r
  {
  }

  /** With Euclidean `/` and `%`, `s / 3600`, `(s % 3600) / 60` and `s % 60` add up to s again. */
  lemma HmsArithmetic(seconds: int)
    ensures (seconds % 3600) / 60 < 60 && seconds % 60 < 60
    ensures (seconds / 3600) * 3600 + ((seconds % 3600) / 60) * 60 + seconds % 60 == seconds
  {
    var q, r := seconds / 3600, seconds % 3600;
    DivMod60(r, r / 60, r % 60);
    DivMod60(seconds, q * 60 + r / 60, r % 60);
  }
}
