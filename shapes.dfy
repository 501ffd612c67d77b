/**
 * The three lexical date shapes of the scanner's regular expression
 *   \d{4}-\d{2}-\d{2} | \d{2}[/-]\d{2}[/-]\d{4} | \d{2}[/-]\d{2}[/-]\d{2}
 * stated on a candidate string of exactly the shape's width.
 * Only the ASCII digits '0'..'9' count as digits here.
 */
module Shapes {
  predicate IsDigit(c: char) { '0' <= c <= '9' }

  /** The separator class [/-] of the second and third shapes. */
  predicate IsSep(c: char) { c == '/' || c == '-' }

  /** DDDD-DD-DD, the shape meant for YYYY-MM-DD. */
  predicate IsoShape(w: string) {
    && |w| == 10
    && IsDigit(w[0]) && IsDigit(w[1]) && IsDigit(w[2]) && IsDigit(w[3])
    && w[4] == '-'
    && IsDigit(w[5]) && IsDigit(w[6])
    && w[7] == '-'
    && IsDigit(w[8]) && IsDigit(w[9])
  }

  /** DD[/-]DD[/-]DDDD, the shape meant for DD/MM/YYYY and DD-MM-YYYY. */
  predicate DmyLongShape(w: string) {
    && |w| == 10
    && IsDigit(w[0]) && IsDigit(w[1])
    && IsSep(w[2])
    && IsDigit(w[3]) && IsDigit(w[4])
    && IsSep(w[5])
    && IsDigit(w[6]) && IsDigit(w[7]) && IsDigit(w[8]) && IsDigit(w[9])
  }

  /** DD[/-]DD[/-]DD, the shape meant for two-digit-year dates. */
  predicate DmyShortShape(w: string) {
    && |w| == 8
    && IsDigit(w[0]) && IsDigit(w[1])
    && IsSep(w[2])
    && IsDigit(w[3]) && IsDigit(w[4])
    && IsSep(w[5])
    && IsDigit(w[6]) && IsDigit(w[7])
  }
}
