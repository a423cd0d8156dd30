/** Writing a numeric in its stored form, and reading it back; and what its digits are worth. */
module NumericForm {
  import opened Numerics
  import opened NumericAccum
  import opened NumericCompare
  import opened Wrappers

  // ---- The header ----

  /** A short header: a mark, the sign, six bits of display scale and seven bits of weight. */
  function Header(neg: bool, dscale: bv16, weight: bv16): bv16
    requires dscale < 64 && weight < 128
  {
    0x8000 + (if neg then 0x2000 else 0) + 128 * dscale + weight
  }

  /** Seven bits as a number in two's complement. */
  function Seven(weight: bv16): int {
    if weight < 64 then weight as int else weight as int - 128
  }

  lemma TimesIsShift(dscale: bv16)
    requires dscale < 64
    ensures 128 * dscale == dscale << 7
  {
  }

  lemma PartsAreApart(sign: bv16, dscale: bv16, weight: bv16)
    requires (sign == 0 || sign == 0x2000) && dscale < 64 && weight < 128
    ensures 0x8000 + sign + (dscale << 7) + weight == 0x8000 | sign | (dscale << 7) | weight
  {
  }

  lemma HeaderBits(neg: bool, dscale: bv16, weight: bv16)
    requires dscale < 64 && weight < 128
    ensures var h := Header(neg, dscale, weight);
            && h & 0xc000 == 0x8000 && (h & 0x2000 != 0 <==> neg) && (h & 0x1f80) >> 7 == dscale
            && h & 0x003f == weight & 0x003f && (h & 0x0040 != 0 <==> weight >= 64)
            && (weight < 64 ==> weight & 0x003f == weight) && (weight >= 64 ==> weight & 0x003f == weight - 64)
  {
    TimesIsShift(dscale);
    PartsAreApart(if neg then 0x2000 else 0, dscale, weight);
  }

  lemma LowerHalf(weight: bv16)
    requires 64 <= weight < 128
    ensures (weight - 64) as int == weight as int - 64
  {
  }

  lemma HeaderReads(neg: bool, dscale: bv16, weight: bv16)
    requires dscale < 64 && weight < 128
    ensures var h := Header(neg, dscale, weight);
            Dscale(h) == dscale as int && Weight(h) == Seven(weight)
  {
    HeaderBits(neg, dscale, weight);
    if weight >= 64 {
      LowerHalf(weight);
    }
  }

  // ---- The whole numeric ----

  /** Sign, display scale, weight and digits come back as they were written. */
  lemma ParseWritten(neg: bool, dscale: bv16, weight: bv16, words: seq<bv16>)
    requires dscale < 64 && weight < 128 && forall i | 0 <= i < |words| :: words[i] < 10000
    ensures var r := Parse(Inline([Header(neg, dscale, weight)] + words));
            && r.Some? && r.value.neg == neg && r.value.dscale == dscale as int && r.value.weight == Seven(weight)
            && |r.value.digits| == |words| && forall i | 0 <= i < |words| :: r.value.digits[i] == words[i] as int
  {
    HeaderBits(neg, dscale, weight);
    HeaderReads(neg, dscale, weight);
    assert ([Header(neg, dscale, weight)] + words)[1..] == words;
  }

  /** Only short headers are read: those from 0x8000 to 0xBFFF. */
  lemma ParsesExactlyWhen(s: Stored)
    ensures Parse(s).Some? <==> s.Inline? && s.words != [] && 0x8000 <= s.words[0] <= 0xbfff
  {
  }

  /** 1 and 2, as they are stored. */
  lemma OneAndTwo()
    ensures Parse(Inline([0x8000, 1])) == Some(Numeric(false, 0, 0, [1]))
    ensures Parse(Inline([0x8000, 2])) == Some(Numeric(false, 0, 0, [2]))
    ensures Compare(Numeric(false, 0, 0, [1]), Numeric(false, 0, 0, [2])) == -1
  {
    ParseWritten(false, 0, 0, [1]);
    ParseWritten(false, 0, 0, [2]);
    assert [0x8000 as bv16] + [1] == [0x8000, 1] && [0x8000 as bv16] + [2] == [0x8000, 2];
    assert Parse(Inline([0x8000, 1])).value.digits == [1];
    assert Parse(Inline([0x8000, 2])).value.digits == [2];
  }

  // ---- What digits are worth ----

  /** Three digits around the point. */
  lemma DigitsAreDecimal(neg: bool, dscale: nat, a: int, b: int, c: int)
    ensures var r := 10000.0 * (a as real) + (b as real) + (c as real) / 10000.0;
            Value(Numeric(neg, 1, dscale, [a, b, c])) == if neg then -r else r
  {
    var d := [a, b, c];
    assert Frac(d, 2) == (c as real) + Frac(d, 3) / 10000.0;
    assert Frac(d, 1) == (b as real) + Frac(d, 2) / 10000.0;
    assert Scale(Frac(d, 0), 1) == 10000.0 * Scale(Frac(d, 0), 0);
  }

  /** One digit more in front is ten thousand times its place. */
  lemma DigitInFront(d: int, digits: seq<int>)
    ensures Frac([d] + digits, 0) == (d as real) + Frac(digits, 0) / 10000.0
  {
    ShiftedFrac(d, digits, 0);
  }

  lemma {:induction false} ShiftedFrac(d: int, digits: seq<int>, i: nat)
    ensures Frac([d] + digits, i + 1) == Frac(digits, i)
    decreases |digits| - i
  {
    if i < |digits| {
      ShiftedFrac(d, digits, i + 1);
    }
  }

  lemma IntDigitsExample()
    ensures IntDigits(123456789) == [1, 2345, 6789]
  {
    assert IntDigits(1) == [1];
    assert IntDigits(12345) == [1, 2345];
  }

  /** The fast path takes digits exactly when fewer than 9999 additions are waiting for a carry, and
      the first and the last digit have a position. */
  lemma RoomMeans(a: Accum, weight: int, count: nat)
    requires count > 0
    ensures HasRoom(a, weight, count) <==>
            && a.uncarried < 9999
            && 0 <= a.weight - weight && a.weight - weight + (count - 1) < |a.pos|
  {
  }

  /** What is taken: a zero always; an integer when its digits have their positions in the sum and,
      where squares are kept, the digits of its square in the squares. */
  lemma TakesMeans(s: Aggregate, x: Numeric, v: int)
    ensures TakesNumeric(s, x) <==> |x.digits| == 0 || HasRoom(s.sum, x.weight, |x.digits|)
    ensures TakesInt(s, 0)
    ensures v != 0 ==>
              (TakesInt(s, v) <==>
               && s.sum.uncarried < 9999 && |IntDigits(Abs(v))| - 1 <= s.sum.weight < |s.sum.pos|
               && (s.withSquares ==>
                     s.squares.uncarried < 9999 && |IntDigits(v * v)| - 1 <= s.squares.weight < |s.squares.pos|))
  {
    if v != 0 {
      NoZeroSquare(v);
      RoomMeans(s.sum, |IntDigits(Abs(v))| - 1, |IntDigits(Abs(v))|);
      RoomMeans(s.squares, |IntDigits(v * v)| - 1, |IntDigits(v * v)|);
    }
  }
}
