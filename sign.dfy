/** The per-axis polarity of a point relative to a center (src/sign.rs). */
module Signs {

  /** `Positive` means "at or above the center", `Negative` "below it". */
  datatype Sign = Positive | Negative

  /** A sign per axis, x then y then z: Rust's `[Sign; 3]`. */
  type SignTriple = s: seq<Sign> | |s| == 3 witness [Positive, Positive, Positive]

  /** `From<Sign> for u8`. */
  function SignToByte(s: Sign): (b: bv8)
    ensures b <= 1
    ensures b == 0 <==> s == Positive
  {
    match s
    case Positive => 0
    case Negative => 1
  }

  /** The conversion loses nothing: distinct signs give distinct bytes. */
  lemma SignToByteInjective(a: Sign, b: Sign)
    ensures SignToByte(a) == SignToByte(b) ==> a == b
  {
  }

  /** There are exactly two signs. */
  lemma OnlyTwoSigns(s: Sign)
    ensures s == Positive || s == Negative
  {
  }

  /** The position of a variant in the declaration, on which the derived order rests. */
  function Ordinal(s: Sign): nat
  {
    match s
    case Positive => 0
    case Negative => 1
  }

  /** The derived `PartialOrd`/`Ord`: variants compare by declaration order. */
  predicate Below(a: Sign, b: Sign)
  {
    Ordinal(a) < Ordinal(b)
  }

  /** The derived order puts `Positive` first and agrees with the byte conversion. */
  lemma OrderMatchesByte(a: Sign, b: Sign)
    ensures Below(a, b) <==> SignToByte(a) < SignToByte(b)
    ensures Below(a, b) <==> a == Positive && b == Negative
  {
  }

  /** The derived order is a strict total order. */
  lemma OrderIsStrictTotal(a: Sign, b: Sign, c: Sign)
    ensures !Below(a, a)
    ensures Below(a, b) && Below(b, c) ==> Below(a, c)
    ensures a != b ==> Below(a, b) || Below(b, a)
  {
  }
}
