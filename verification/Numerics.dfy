/** The stored form of a numeric: one header word, then base-10000 digits. */
module Numerics {
  import opened Wrappers

  const NBASE := 10000

  /** The payload of a datum: out of line or compressed, or 16-bit words. */
  datatype Stored = Toasted | Inline(words: seq<bv16>)

  datatype Numeric = Numeric(neg: bool, weight: int, dscale: nat, digits: seq<int>)

  function Weight(header: bv16): (w: int)
    ensures -64 <= w < 64
  {
    var low := (header & 0x003f) as int;
    if header & 0x0040 != 0 then low - 64 else low
  }

  function Dscale(header: bv16): (s: nat)
    ensures s < 64
  {
    ((header & 0x1f80) >> 7) as int
  }

  /** A digit is a signed 16-bit word. */
  function Digit(word: bv16): int {
    if word < 0x8000 then word as int else word as int - 0x1_0000
  }

  function Digits(words: seq<bv16>): (ds: seq<int>)
    ensures |ds| == |words|
    ensures forall i | 0 <= i < |ds| :: ds[i] == Digit(words[i])
  {
    seq(|words|, i requires 0 <= i < |words| => Digit(words[i]))
  }

  /** numeric_parse_datum: only plain, finite numerics with a short header. */
  function Parse(s: Stored): Option<Numeric> {
    if s.Toasted? || s.words == [] || s.words[0] & 0xc000 != 0x8000 then None
    else
      var header := s.words[0];
      Some(Numeric(header & 0x2000 != 0, Weight(header), Dscale(header), Digits(s.words[1..])))
  }

  // ---- The value ----

  predicate ProperDigits(digits: seq<int>) {
    forall i | 0 <= i < |digits| :: 0 <= digits[i] < NBASE
  }

  /** What the server stores: a first digit that is not zero, and one form of zero. */
  predicate Canonical(x: Numeric) {
    && ProperDigits(x.digits)
    && (x.digits != [] ==> x.digits[0] != 0)
    && (x.digits == [] ==> x.weight == 0 && !x.neg)
  }

  /** digits[i] + digits[i + 1] / 10000 + ... */
  function Frac(digits: seq<int>, i: nat): real
    decreases |digits| - i
  {
    if i >= |digits| then 0.0 else digits[i] as real + Frac(digits, i + 1) / 10000.0
  }

  /** x * 10000 ^ w */
  function Scale(x: real, w: int): real
    decreases if w < 0 then -w else w
  {
    if w > 0 then 10000.0 * Scale(x, w - 1)
    else if w < 0 then Scale(x, w + 1) / 10000.0
    else x
  }

  function Magnitude(x: Numeric): real {
    Scale(Frac(x.digits, 0), x.weight)
  }

  function Value(x: Numeric): real {
    if x.neg then -Magnitude(x) else Magnitude(x)
  }

  // ---- Laws of the value ----

  lemma {:induction false} FracBounds(digits: seq<int>, i: nat)
    requires ProperDigits(digits)
    ensures 0.0 <= Frac(digits, i) < 10000.0
    decreases |digits| - i
  {
    if i < |digits| {
      FracBounds(digits, i + 1);
    }
  }

  lemma {:induction false} ScaleKeepsOrder(x: real, y: real, w: int)
    ensures x < y <==> Scale(x, w) < Scale(y, w)
    ensures x == y <==> Scale(x, w) == Scale(y, w)
    decreases if w < 0 then -w else w
  {
    if w > 0 {
      ScaleKeepsOrder(x, y, w - 1);
    } else if w < 0 {
      ScaleKeepsOrder(x, y, w + 1);
    }
  }

  lemma {:induction false} ScaleAdds(x: real, y: real, w: int)
    ensures Scale(x + y, w) == Scale(x, w) + Scale(y, w)
    ensures Scale(-x, w) == -Scale(x, w)
    ensures Scale(0.0, w) == 0.0
    decreases if w < 0 then -w else w
  {
    if w > 0 {
      ScaleAdds(x, y, w - 1);
    } else if w < 0 {
      ScaleAdds(x, y, w + 1);
    }
  }

  lemma {:induction false} ScaleGrows(x: real, w: int, k: nat)
    requires x >= 0.0
    ensures Scale(x, w + k) >= Scale(x, w) >= 0.0
    decreases k
  {
    ScaleKeepsOrder(0.0, x, w);
    ScaleAdds(0.0, 0.0, w);
    if k > 0 {
      ScaleGrows(x, w, k - 1);
    }
  }

  /** A numeric with digits is worth at least 10000 ^ weight and less than 10000 times that. */
  lemma MagnitudeBounds(x: Numeric)
    requires Canonical(x) && x.digits != []
    ensures Scale(1.0, x.weight) <= Magnitude(x) < Scale(10000.0, x.weight)
    ensures Magnitude(x) > 0.0
  {
    FracBounds(x.digits, 0);
    FracBounds(x.digits, 1);
    ScaleKeepsOrder(1.0, Frac(x.digits, 0), x.weight);
    ScaleKeepsOrder(Frac(x.digits, 0), 10000.0, x.weight);
    ScaleKeepsOrder(0.0, Frac(x.digits, 0), x.weight);
    ScaleAdds(0.0, 0.0, x.weight);
  }

  /** The larger weight is the larger magnitude. */
  lemma WeightDecides(x: Numeric, y: Numeric)
    requires Canonical(x) && Canonical(y) && x.digits != [] && y.digits != []
    requires x.weight < y.weight
    ensures Magnitude(x) < Magnitude(y)
  {
    MagnitudeBounds(x);
    MagnitudeBounds(y);
    ScaleShift(x.weight);
    ScaleGrows(1.0, x.weight + 1, y.weight - x.weight - 1);
  }

  lemma {:induction false} ScaleShift(w: int)
    ensures Scale(10000.0, w) == Scale(1.0, w + 1)
    decreases if w < 0 then -w else w
  {
    if w > 0 {
      ScaleShift(w - 1);
    } else if w < 0 {
      ScaleShift(w + 1);
    }
  }
}
