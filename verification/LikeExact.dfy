/** For which patterns the compiled matcher is LIKE: complete for every accepted pattern,
    and exact if and only if no floating word can reach into the end-anchored word after
    the limit was lost. */
module LikeExact {
  import opened LikePattern
  import opened LikeWords
  import opened LikeSegments
  import opened LikeMatch
  import opened Wrappers

  // ---- Widths ----

  lemma {:induction false} TotalWidthConcat(a: seq<seq<Token>>, b: seq<seq<Token>>)
    ensures TotalWidth(a + b) == TotalWidth(a) + TotalWidth(b)
  {
    if a == [] {
      assert a + b == b;
    } else {
      assert (a + b)[1..] == a[1..] + b;
      TotalWidthConcat(a[1..], b);
    }
  }

  lemma {:induction false} PlacedNeedsRoom(text: seq<Byte>, pos: int, lim: int, ws: seq<seq<Token>>)
    requires Placed(text, pos, lim, ws)
    ensures pos + TotalWidth(ws) <= lim
    decreases |ws|
  {
    if ws != [] {
      var j: int :| pos <= j && j + |ws[0]| <= lim && WordAt(text, j, ws[0]) &&
                    Placed(text, j + |ws[0]|, lim, ws[1..]);
      PlacedNeedsRoom(text, j + |ws[0]|, lim, ws[1..]);
    }
  }

  lemma WidthOfOne(w: seq<Token>)
    ensures TotalWidth([w]) == |w|
  {
    assert [w][1..] == [];
  }

  /** The words in three parts. */
  lemma Parts(sh: Shape)
    requires sh.words != [] && sh.Valid()
    ensures sh.words == sh.words[..sh.First()] + (sh.Floating() + sh.words[sh.Last()..])
    ensures sh.words[..sh.First()] == if sh.anchoredStart then [sh.words[0]] else []
    ensures sh.words[sh.Last()..] == if sh.Last() < |sh.words| then [sh.words[sh.Last()]] else []
  {
    var first, last := sh.First(), sh.Last();
    assert first <= last <= |sh.words|;
    assert sh.Floating() == sh.words[first..last];
    assert sh.words == sh.words[..first] + (sh.words[first..last] + sh.words[last..]);
    if last < |sh.words| {
      assert |sh.words[last..]| == 1 && sh.words[last..][0] == sh.words[last];
    }
    if sh.anchoredStart {
      assert |sh.words[..first]| == 1 && sh.words[..first][0] == sh.words[0];
    }
  }

  /** The whole width is the pinned words plus the floating ones. */
  lemma WidthOfParts(sh: Shape, text: seq<Byte>)
    requires sh.words != [] && sh.Valid()
    ensures TotalWidth(sh.words) == sh.Start() + TotalWidth(sh.Floating()) + (|text| - sh.End(text))
  {
    Parts(sh);
    var first, last := sh.words[..sh.First()], sh.words[sh.Last()..];
    TotalWidthConcat(first, sh.Floating() + last);
    TotalWidthConcat(sh.Floating(), last);
    WidthOfOne(sh.words[0]);
    if sh.Last() < |sh.words| {
      WidthOfOne(sh.words[sh.Last()]);
    }
  }

  // ---- Completeness: no restriction on the pattern ----

  lemma {:induction false} PlacedIsScanned(text: seq<Byte>, pos: int, lim: int, lim': int, ws: seq<seq<Token>>)
    requires lim <= lim' <= |text| && Placed(text, pos, lim, ws)
    ensures Scanned(text, pos, lim', ws)
    decreases |ws|
  {
    if ws != [] {
      var j: int :| pos <= j && j + |ws[0]| <= lim && WordAt(text, j, ws[0]) &&
                    Placed(text, j + |ws[0]|, lim, ws[1..]);
      PlacedIsScanned(text, j + |ws[0]|, lim, LimitAfter(text, lim', ws[0]), ws[1..]);
    }
  }

  /** Whatever LIKE matches, the compiled matcher accepts. */
  lemma MatcherIsComplete(sh: Shape, text: seq<Byte>)
    requires sh.Valid() && sh.Matches(text)
    ensures Accepts(sh, text)
  {
    if sh.words != [] {
      WidthOfParts(sh, text);
      PlacedNeedsRoom(text, sh.Start(), sh.End(text), sh.Floating());
      PlacedIsScanned(text, sh.Start(), sh.End(text), sh.End(text), sh.Floating());
    }
  }

  // ---- When the lost limit can matter ----

  /** The tokens a and b do not rule each other out on one byte. */
  predicate Compatible(a: Token, b: Token) {
    a.Literal? && b.Literal? ==> a == b
  }

  /** w, placed so that it ends `overlap` bytes inside the word e, agrees with e. */
  predicate OverlapFits(w: seq<Token>, e: seq<Token>, overlap: int) {
    && 1 <= overlap <= |e|
    && forall k | 0 <= k < |w| && 0 <= k + overlap - |w| :: Compatible(w[k], e[k + overlap - |w|])
  }

  predicate CanOverlap(w: seq<Token>, e: seq<Token>) {
    exists overlap | 1 <= overlap <= |e| :: OverlapFits(w, e, overlap)
  }

  predicate SomeLiteral(ws: seq<seq<Token>>) {
    exists s | 0 <= s < |ws| :: HasLiteral(ws[s])
  }

  /** The guard: an end-anchored word, a literal in a floating word before the last one, and
      a last floating word that can overlap the end-anchored word. */
  predicate LosesEnd(sh: Shape) {
    && sh.words != []
    && sh.Last() < |sh.words|
    && sh.Floating() != []
    && var f := sh.Floating();
       && SomeLiteral(f[..|f| - 1])
       && CanOverlap(f[|f| - 1], sh.words[sh.Last()])
  }

  // ---- Sound when the guard is false ----

  /** While no literal was seen the limit is still the right one. */
  lemma {:induction false} ScannedBeforeLiteral(text: seq<Byte>, pos: int, lim: int, ws: seq<seq<Token>>)
    requires Scanned(text, pos, lim, ws) && lim <= |text|
    requires lim == |text| || ws == [] || !SomeLiteral(ws[..|ws| - 1])
    ensures Placed(text, pos, lim, ws)
    decreases |ws|
  {
    if ws != [] {
      var j: int :| pos <= j && j + |ws[0]| <= lim && WordAt(text, j, ws[0]) &&
                    Scanned(text, j + |ws[0]|, LimitAfter(text, lim, ws[0]), ws[1..]);
      if |ws| == 1 {
        assert ws[1..] == [];
        assert Placed(text, j + |ws[0]|, lim, ws[1..]);
      } else {
        assert lim == |text| || !HasLiteral(ws[..|ws| - 1][0]);
        var front, restFront := ws[..|ws| - 1], ws[1..][..|ws| - 2];
        assert forall s | 0 <= s < |restFront| :: restFront[s] == front[s + 1];
        ScannedBeforeLiteral(text, j + |ws[0]|, lim, ws[1..]);
      }
    }
  }

  /** If the last word cannot end behind lim, every placement found stays before lim. */
  lemma {:induction false} ScannedLastInside(text: seq<Byte>, pos: int, lim: int, bound: int, ws: seq<seq<Token>>,
                                             last: seq<Token>)
    requires Scanned(text, pos, bound, ws) && ws != [] && last == ws[|ws| - 1]
    requires bound <= |text|
    requires forall j: int | WordAt(text, j, last) :: j + |last| <= lim
    ensures Placed(text, pos, lim, ws)
    decreases |ws|
  {
    var j: int :| pos <= j && j + |ws[0]| <= bound && WordAt(text, j, ws[0]) &&
                  Scanned(text, j + |ws[0]|, LimitAfter(text, bound, ws[0]), ws[1..]);
    if |ws| == 1 {
      assert ws[1..] == [];
      assert Placed(text, j + |ws[0]|, lim, ws[1..]);
    } else {
      assert ws[1..][|ws| - 2] == ws[|ws| - 1];
      ScannedLastInside(text, j + |ws[0]|, lim, LimitAfter(text, bound, ws[0]), ws[1..], last);
    }
    assert pos <= j && j + |ws[0]| <= lim && WordAt(text, j, ws[0]) && Placed(text, j + |ws[0]|, lim, ws[1..]);
  }

  /** Two words standing in one text agree where they overlap. */
  lemma StandingWordsAgree(text: seq<Byte>, j: int, w: seq<Token>, at: int, e: seq<Token>)
    requires WordAt(text, j, w) && WordAt(text, at, e) && at + |e| == |text|
    requires j + |w| > at
    ensures OverlapFits(w, e, j + |w| - at)
  {
    var overlap := j + |w| - at;
    forall k | 0 <= k < |w| && 0 <= k + overlap - |w| ensures Compatible(w[k], e[k + overlap - |w|]) {
      var i := k + overlap - |w|;
      assert Fits(w[k], text[j + k]) && Fits(e[i], text[at + i]);
    }
  }

  lemma MatcherIsSound(sh: Shape, text: seq<Byte>)
    requires sh.Valid() && !LosesEnd(sh) && Accepts(sh, text)
    ensures sh.Matches(text)
  {
    if sh.words != [] && sh.Floating() != [] {
      var f := sh.Floating();
      var start, end := sh.Start(), sh.End(text);
      if sh.Last() == |sh.words| || !SomeLiteral(f[..|f| - 1]) {
        ScannedBeforeLiteral(text, start, end, f);
      } else {
        var e := sh.words[sh.Last()];
        var last := f[|f| - 1];
        forall j: int | WordAt(text, j, last) ensures j + |last| <= end {
          if j + |last| > end {
            StandingWordsAgree(text, j, last, end, e);
          }
        }
        ScannedLastInside(text, start, end, end, f, last);
      }
    }
  }

  // ---- A wrong answer whenever the guard is true ----

  function FillToken(tok: Token, filler: Byte): Byte {
    if tok.Literal? then tok.ch else filler
  }

  function FillWord(w: seq<Token>, filler: Byte): seq<Byte> {
    seq(|w|, k requires 0 <= k < |w| => FillToken(w[k], filler))
  }

  function FillWords(ws: seq<seq<Token>>, filler: Byte): (t: seq<Byte>)
    ensures |t| == TotalWidth(ws)
  {
    if ws == [] then [] else FillWord(ws[0], filler) + FillWords(ws[1..], filler)
  }

  /** How many tokens stand before the first literal. */
  function LiteralOffset(ws: seq<seq<Token>>): nat
    requires SomeLiteral(ws)
  {
    if HasLiteral(ws[0]) then FirstLiteral(ws[0], 0)
    else
      assert SomeLiteral(ws[1..]) by { LiteralInRest(ws); }
      |ws[0]| + LiteralOffset(ws[1..])
  }

  function LiteralByte(ws: seq<seq<Token>>): Byte
    requires SomeLiteral(ws)
  {
    if HasLiteral(ws[0]) then ws[0][FirstLiteral(ws[0], 0)].ch
    else
      assert SomeLiteral(ws[1..]) by { LiteralInRest(ws); }
      LiteralByte(ws[1..])
  }

  function FirstLiteral(w: seq<Token>, from: nat): (k: nat)
    requires exists i | from <= i < |w| :: w[i].Literal?
    ensures from <= k < |w| && w[k].Literal?
    ensures forall i | from <= i < k :: !w[i].Literal?
    decreases |w| - from
  {
    if w[from].Literal? then from else FirstLiteral(w, from + 1)
  }

  lemma LiteralInRest(ws: seq<seq<Token>>)
    requires SomeLiteral(ws) && !HasLiteral(ws[0])
    ensures SomeLiteral(ws[1..])
  {
    var s :| 0 <= s < |ws| && HasLiteral(ws[s]);
    assert ws[1..][s - 1] == ws[s];
  }

  /** A placement cannot start its first literal before that literal occurs. */
  lemma {:induction false} PlacedNotBefore(text: seq<Byte>, pos: int, lim: int, ws: seq<seq<Token>>, p: int)
    requires 0 <= pos && Placed(text, pos, lim, ws) && SomeLiteral(ws)
    requires forall x: int | pos <= x < p + LiteralOffset(ws) && x < |text| :: text[x] != LiteralByte(ws)
    ensures p + TotalWidth(ws) <= lim
    decreases |ws|
  {
    var j: int :| pos <= j && j + |ws[0]| <= lim && WordAt(text, j, ws[0]) &&
                  Placed(text, j + |ws[0]|, lim, ws[1..]);
    if HasLiteral(ws[0]) {
      var o := FirstLiteral(ws[0], 0);
      assert Fits(ws[0][o], text[j + o]);
      PlacedNeedsRoom(text, j + |ws[0]|, lim, ws[1..]);
    } else {
      LiteralInRest(ws);
      PlacedNotBefore(text, j + |ws[0]|, lim, ws[1..], p + |ws[0]|);
    }
  }

  lemma {:induction false} FillBeforeLiteral(ws: seq<seq<Token>>, filler: Byte)
    requires SomeLiteral(ws)
    ensures LiteralOffset(ws) <= TotalWidth(ws)
    ensures forall x | 0 <= x < LiteralOffset(ws) :: FillWords(ws, filler)[x] == filler
    decreases |ws|
  {
    if !HasLiteral(ws[0]) {
      LiteralInRest(ws);
      FillBeforeLiteral(ws[1..], filler);
    }
  }

  lemma {:induction false} LiteralOfFront(a: seq<seq<Token>>, b: seq<seq<Token>>)
    requires SomeLiteral(a)
    ensures SomeLiteral(a + b)
    ensures LiteralOffset(a + b) == LiteralOffset(a) && LiteralByte(a + b) == LiteralByte(a)
    decreases |a|
  {
    var ab := a + b;
    var s :| 0 <= s < |a| && HasLiteral(a[s]);
    assert HasLiteral(ab[s]);
    if !HasLiteral(a[0]) {
      LiteralInRest(a);
      assert ab[1..] == a[1..] + b;
      LiteralOfFront(a[1..], b);
    }
  }

  /** The bytes s stand at position p. */
  predicate BytesAt(text: seq<Byte>, p: int, s: seq<Byte>) {
    0 <= p && p + |s| <= |text| && text[p..p + |s|] == s
  }

  /** Filled words stand where they were written. */
  lemma FilledWordStands(text: seq<Byte>, p: nat, w: seq<Token>, filler: Byte)
    requires WildFree(w) && BytesAt(text, p, FillWord(w, filler))
    ensures WordAt(text, p, w)
  {
    forall k | 0 <= k < |w| ensures Fits(w[k], text[p + k]) {
      assert w[k] != Percent;
      assert text[p..p + |w|][k] == FillWord(w, filler)[k];
    }
  }

  lemma SplitBytes(text: seq<Byte>, p: int, s: seq<Byte>, s': seq<Byte>)
    requires BytesAt(text, p, s + s')
    ensures BytesAt(text, p, s) && BytesAt(text, p + |s|, s')
  {
    forall k | 0 <= k < |s| ensures text[p..p + |s|][k] == s[k] {
      ByteIs(text, p, s + s', k);
    }
    forall k | 0 <= k < |s'| ensures text[p + |s|..p + |s| + |s'|][k] == s'[k] {
      ByteIs(text, p, s + s', |s| + k);
    }
  }

  lemma ByteIs(text: seq<Byte>, p: int, s: seq<Byte>, x: int)
    requires BytesAt(text, p, s) && 0 <= x < |s|
    ensures text[p + x] == s[x]
  {
    assert text[p..p + |s|][x] == s[x];
  }

  lemma ScannedHere(text: seq<Byte>, p: nat, lim: int, ws: seq<seq<Token>>)
    requires ws != [] && p + |ws[0]| <= lim <= |text| && WordAt(text, p, ws[0])
    requires Scanned(text, p + |ws[0]|, LimitAfter(text, lim, ws[0]), ws[1..])
    ensures Scanned(text, p, lim, ws)
  {
  }

  lemma FilledFirst(text: seq<Byte>, p: nat, a: seq<seq<Token>>, filler: Byte)
    requires a != [] && ProperWords(a) && BytesAt(text, p, FillWords(a, filler))
    ensures WordAt(text, p, a[0])
    ensures BytesAt(text, p + |a[0]|, FillWords(a[1..], filler))
  {
    assert FillWords(a, filler) == FillWord(a[0], filler) + FillWords(a[1..], filler);
    SplitBytes(text, p, FillWord(a[0], filler), FillWords(a[1..], filler));
    FilledWordStands(text, p, a[0], filler);
  }

  /** Filled words one behind the other are found one behind the other. */
  lemma LimitOfRest(text: seq<Byte>, lim: int, a: seq<seq<Token>>)
    requires a != []
    ensures (if SomeLiteral(a[1..]) then |text| else LimitAfter(text, lim, a[0])) ==
            if SomeLiteral(a) then |text| else lim
    ensures TotalWidth(a) == |a[0]| + TotalWidth(a[1..])
  {
    LiteralSplit(a);
  }

  lemma ScannedInFront(text: seq<Byte>, p: nat, lim: int, a: seq<seq<Token>>, b: seq<seq<Token>>)
    requires a != [] && p + |a[0]| <= lim <= |text| && WordAt(text, p, a[0])
    requires Scanned(text, p + |a[0]|, LimitAfter(text, lim, a[0]), a[1..] + b)
    ensures Scanned(text, p, lim, a + b)
  {
    assert (a + b)[1..] == a[1..] + b;
    ScannedHere(text, p, lim, a + b);
  }

  lemma {:induction false} ScannedConsecutive(text: seq<Byte>, p: nat, lim: int, a: seq<seq<Token>>, b: seq<seq<Token>>,
                                              filler: Byte)
    requires ProperWords(a)
    requires p + TotalWidth(a) <= lim <= |text|
    requires BytesAt(text, p, FillWords(a, filler))
    requires Scanned(text, p + TotalWidth(a), if SomeLiteral(a) then |text| else lim, b)
    ensures Scanned(text, p, lim, a + b)
    decreases |a|
  {
    if a == [] {
      assert a + b == b;
    } else {
      FilledFirst(text, p, a, filler);
      LimitOfRest(text, lim, a);
      ScannedConsecutive(text, p + |a[0]|, LimitAfter(text, lim, a[0]), a[1..], b, filler);
      ScannedInFront(text, p, lim, a, b);
    }
  }

  lemma LiteralSplit(a: seq<seq<Token>>)
    requires a != []
    ensures SomeLiteral(a) <==> HasLiteral(a[0]) || SomeLiteral(a[1..])
  {
    if SomeLiteral(a) && !HasLiteral(a[0]) {
      LiteralInRest(a);
    }
    if s :| 0 <= s < |a[1..]| && HasLiteral(a[1..][s]) {
      assert HasLiteral(a[s + 1]);
    }
  }

  /** The word e with w laid over it so that w ends `overlap` bytes inside e. */
  function Overlaid(w: seq<Token>, e: seq<Token>, overlap: nat, filler: Byte): seq<Byte>
    requires overlap <= |e|
  {
    var lead := Lead(w, overlap);
    seq(lead + |e|, x requires 0 <= x < lead + |e| => OverlaidByte(w, e, overlap, filler, x))
  }

  /** How much of w stands before e. */
  function Lead(w: seq<Token>, overlap: nat): nat {
    if |w| > overlap then |w| - overlap else 0
  }

  function OverlaidByte(w: seq<Token>, e: seq<Token>, overlap: nat, filler: Byte, x: nat): Byte
    requires overlap <= |e| && x < Lead(w, overlap) + |e|
  {
    var i := x - Lead(w, overlap);
    var k := i + |w| - overlap;
    if 0 <= i && e[i].Literal? then e[i].ch
    else if 0 <= k < |w| then FillToken(w[k], filler)
    else filler
  }

  lemma OverlaidEndStands(text: seq<Byte>, p: nat, w: seq<Token>, e: seq<Token>, overlap: nat, filler: Byte)
    requires OverlapFits(w, e, overlap) && WildFree(e)
    requires |text| == p + Lead(w, overlap) + |e| && BytesAt(text, p, Overlaid(w, e, overlap, filler))
    ensures WordAt(text, p + Lead(w, overlap), e)
  {
    var lead := Lead(w, overlap);
    forall i | 0 <= i < |e| ensures Fits(e[i], text[p + lead + i]) {
      ByteIs(text, p, Overlaid(w, e, overlap, filler), lead + i);
      assert e[i] != Percent;
    }
  }

  lemma OverlaidWordStands(text: seq<Byte>, p: nat, w: seq<Token>, e: seq<Token>, overlap: nat, filler: Byte)
    requires OverlapFits(w, e, overlap) && WildFree(w) && WildFree(e)
    requires |text| == p + Lead(w, overlap) + |e| && BytesAt(text, p, Overlaid(w, e, overlap, filler))
    ensures WordAt(text, p + Lead(w, overlap) + overlap - |w|, w)
  {
    var lead := Lead(w, overlap);
    forall k | 0 <= k < |w| ensures Fits(w[k], text[p + lead + overlap - |w| + k]) {
      var x := lead + overlap - |w| + k;
      ByteIs(text, p, Overlaid(w, e, overlap, filler), x);
      var i := k + overlap - |w|;
      assert w[k] != Percent;
      if 0 <= i {
        assert Compatible(w[k], e[i]);
      }
    }
  }

  /** The text: the pinned start word, filler, the floating words but the last, and the
      last one laid over the end-anchored word. */
  function CounterText(first: seq<seq<Token>>, front: seq<seq<Token>>, w: seq<Token>, e: seq<Token>,
                       overlap: nat, filler: Byte): seq<Byte>
    requires overlap <= |e|
  {
    FillWords(first, filler) + seq(|w|, _ => filler) + FillWords(front, filler) + Overlaid(w, e, overlap, filler)
  }

  /** The pieces of CounterText by position: t[start..a] is filler, then the front words up
      to base, then the overlay. */
  predicate Laid(t: seq<Byte>, start: nat, a: nat, base: nat, front: seq<seq<Token>>,
                 w: seq<Token>, e: seq<Token>, overlap: nat, filler: Byte)
  {
    && overlap <= |e|
    && a == start + |w|
    && base == a + TotalWidth(front)
    && |t| == base + Lead(w, overlap) + |e|
    && (forall x | start <= x < a :: t[x] == filler)
    && t[a..base] == FillWords(front, filler)
    && t[base..] == Overlaid(w, e, overlap, filler)
  }

  lemma CounterTextIsLaid(first: seq<seq<Token>>, front: seq<seq<Token>>, w: seq<Token>, e: seq<Token>,
                          overlap: nat, filler: Byte)
    requires overlap <= |e|
    ensures var start := TotalWidth(first);
            var t := CounterText(first, front, w, e, overlap, filler);
            && Laid(t, start, start + |w|, start + |w| + TotalWidth(front), front, w, e, overlap, filler)
            && t[..start] == FillWords(first, filler)
  {
  }

  lemma LaidIsNotPlaced(t: seq<Byte>, start: nat, a: nat, base: nat, front: seq<seq<Token>>,
                        w: seq<Token>, e: seq<Token>, overlap: nat, filler: Byte)
    requires Laid(t, start, a, base, front, w, e, overlap, filler)
    requires 1 <= overlap && w != []
    requires SomeLiteral(front) && filler != LiteralByte(front)
    ensures !Placed(t, start, |t| - |e|, front + [w])
  {
    if Placed(t, start, |t| - |e|, front + [w]) {
      LiteralOfFront(front, [w]);
      TotalWidthConcat(front, [w]);
      WidthOfOne(w);
      NoLiteralBefore(t, start, a, base, front, filler);
      PlacedNotBefore(t, start, |t| - |e|, front + [w], a);
      assert false;
    }
  }

  /** The first literal of the front does not occur before its place. */
  lemma NoLiteralBefore(t: seq<Byte>, start: nat, a: nat, base: nat, front: seq<seq<Token>>, filler: Byte)
    requires start <= a && base == a + TotalWidth(front) && base <= |t|
    requires forall x | start <= x < a :: t[x] == filler
    requires t[a..base] == FillWords(front, filler)
    requires SomeLiteral(front) && filler != LiteralByte(front)
    ensures forall x: int | start <= x < a + LiteralOffset(front) && x < |t| :: t[x] != LiteralByte(front)
  {
    FillBeforeLiteral(front, filler);
    forall x: int | start <= x < a + LiteralOffset(front) && x < |t| ensures t[x] != LiteralByte(front) {
      if x >= a {
        assert t[a..base][x - a] == FillWords(front, filler)[x - a];
      }
    }
  }

  lemma LaidIsScanned(t: seq<Byte>, start: nat, a: nat, base: nat, front: seq<seq<Token>>,
                      w: seq<Token>, e: seq<Token>, overlap: nat, filler: Byte)
    requires Laid(t, start, a, base, front, w, e, overlap, filler)
    requires OverlapFits(w, e, overlap) && WildFree(w) && WildFree(e)
    requires SomeLiteral(front) && ProperWords(front)
    ensures WordAt(t, |t| - |e|, e)
    ensures Scanned(t, start, |t| - |e|, front + [w])
  {
    var end := |t| - |e|;
    LastIsScanned(t, base, w, e, overlap, filler);
    assert BytesAt(t, a, FillWords(front, filler));
    ScannedConsecutive(t, a, end, front, [w], filler);
    ScannedWider(t, start, a, end, end, front + [w]);
  }

  lemma LastIsScanned(t: seq<Byte>, base: nat, w: seq<Token>, e: seq<Token>, overlap: nat, filler: Byte)
    requires overlap <= |e| && |t| == base + Lead(w, overlap) + |e| && t[base..] == Overlaid(w, e, overlap, filler)
    requires OverlapFits(w, e, overlap) && WildFree(w) && WildFree(e)
    ensures WordAt(t, |t| - |e|, e)
    ensures Scanned(t, base, |t|, [w])
  {
    OverlaidEndStands(t, base, w, e, overlap, filler);
    OverlaidWordStands(t, base, w, e, overlap, filler);
    var at := base + Lead(w, overlap) + overlap - |w|;
    assert [w][1..] == [];
    assert Scanned(t, at + |w|, |t|, []);
    assert base <= at && at + |w| <= |t| && WordAt(t, at, [w][0]) && Scanned(t, at + |w|, |t|, [w][1..]);
  }

  lemma FilledFirstStands(t: seq<Byte>, w0: seq<Token>, filler: Byte)
    requires WildFree(w0) && |w0| <= |t| && t[..|w0|] == FillWords([w0], filler)
    ensures WordAt(t, 0, w0)
  {
    assert [w0][1..] == [];
    assert FillWords([w0], filler) == FillWord(w0, filler);
    FilledWordStands(t, 0, w0, filler);
  }

  // ---- Texts without byte 0 ----

  /** No word has byte 0 as a literal. */
  predicate NoNul(ws: seq<seq<Token>>) {
    forall s | 0 <= s < |ws| :: Literal(0) !in ws[s]
  }

  lemma {:induction false} FilledNoNul(ws: seq<seq<Token>>, filler: Byte)
    requires NoNul(ws) && filler != 0
    ensures 0 !in FillWords(ws, filler)
    decreases |ws|
  {
    if ws != [] {
      FilledNoNul(ws[1..], filler);
      forall k | 0 <= k < |ws[0]| ensures FillWord(ws[0], filler)[k] != 0 {
        assert ws[0][k] in ws[0];
      }
    }
  }

  /** The text holds no byte 0 when neither the words nor the filler do. */
  lemma CounterTextNoNul(first: seq<seq<Token>>, front: seq<seq<Token>>, w: seq<Token>, e: seq<Token>,
                         overlap: nat, filler: Byte)
    requires NoNul(first) && NoNul(front) && Literal(0) !in w && Literal(0) !in e && overlap <= |e| && filler != 0
    ensures 0 !in CounterText(first, front, w, e, overlap, filler)
  {
    FilledNoNul(first, filler);
    FilledNoNul(front, filler);
    var o := Overlaid(w, e, overlap, filler);
    forall x | 0 <= x < |o| ensures o[x] != 0 {
      var i := x - Lead(w, overlap);
      var k := i + |w| - overlap;
      assert 0 <= i ==> e[i] in e;
      assert 0 <= k < |w| ==> w[k] in w;
    }
  }

  lemma {:induction false} DecodedNoNul(pattern: seq<Byte>)
    requires Decode(pattern).Some? && 0 !in pattern
    ensures Literal(0) !in Decode(pattern).value
    decreases |pattern|
  {
    if pattern != [] {
      DecodedNoNul(pattern[if pattern[0] == BACKSLASH then 2 else 1..]);
      assert pattern[0] != 0;
    }
  }

  lemma {:induction false} WordsNoNul(toks: seq<Token>, s: nat, end: nat)
    requires end <= |toks| && Literal(0) !in toks
    ensures NoNul(WordsIn(toks, s, end))
    decreases end - s
  {
    if s < end {
      WordsNoNul(toks, NextPercent(toks, s, end) + 1, end);
    }
  }

  /** A byte other than the first literal of the front. */
  function FillerFor(front: seq<seq<Token>>): (b: Byte)
    requires SomeLiteral(front)
    ensures b != 0 && b != LiteralByte(front)
  {
    if LiteralByte(front) == 120 then 121 else 120
  }

  /** The text on which the matcher is wrong, with the floating words taken apart. */
  lemma WrongText(first: seq<seq<Token>>, front: seq<seq<Token>>, w: seq<Token>, e: seq<Token>, overlap: nat)
      returns (t: seq<Byte>)
    requires |first| <= 1 && ProperWords(first) && ProperWords(front) && SomeLiteral(front)
    requires w != [] && WildFree(w) && WildFree(e) && OverlapFits(w, e, overlap)
    ensures |t| >= TotalWidth(first) + TotalWidth(front) + |w| + |e|
    ensures first != [] ==> WordAt(t, 0, first[0])
    ensures WordAt(t, |t| - |e|, e)
    ensures Scanned(t, TotalWidth(first), |t| - |e|, front + [w])
    ensures !Placed(t, TotalWidth(first), |t| - |e|, front + [w])
    ensures NoNul(first) && NoNul(front) && Literal(0) !in w && Literal(0) !in e ==> 0 !in t
  {
    var filler := FillerFor(front);
    var start := TotalWidth(first);
    var a := start + |w|;
    var base := a + TotalWidth(front);
    t := CounterText(first, front, w, e, overlap, filler);
    if NoNul(first) && NoNul(front) && Literal(0) !in w && Literal(0) !in e {
      CounterTextNoNul(first, front, w, e, overlap, filler);
    }
    CounterTextIsLaid(first, front, w, e, overlap, filler);
    LaidIsNotPlaced(t, start, a, base, front, w, e, overlap, filler);
    LaidIsScanned(t, start, a, base, front, w, e, overlap, filler);
    if first != [] {
      assert first == [first[0]] && first[1..] == [];
      FilledFirstStands(t, first[0], filler);
    }
  }

  /** The parts of a shape with a floating word are proper words. */
  lemma PartsAreProper(sh: Shape)
    requires sh.Valid() && sh.words != [] && sh.Floating() != []
    ensures var f := sh.Floating();
            ProperWords(sh.words[..sh.First()]) && ProperWords(f[..|f| - 1]) && ProperWords([f[|f| - 1]])
  {
    var f := sh.Floating();
    forall s | 0 <= s < |f| ensures f[s] != [] && WildFree(f[s]) {
      assert f[s] == sh.words[sh.First() + s];
    }
  }

  lemma PartsNoNul(sh: Shape)
    requires LosesEnd(sh) && NoNul(sh.words)
    ensures var f := sh.Floating();
            && NoNul(sh.words[..sh.First()]) && NoNul(f[..|f| - 1]) && Literal(0) !in f[|f| - 1]
            && Literal(0) !in sh.words[sh.Last()]
  {
    var f := sh.Floating();
    forall s | 0 <= s < |f| ensures Literal(0) !in f[s] {
      assert f[s] == sh.words[sh.First() + s];
    }
  }

  lemma WidthsOfParts(sh: Shape)
    requires sh.Valid() && LosesEnd(sh)
    ensures var f := sh.Floating();
            && TotalWidth(f) == TotalWidth(f[..|f| - 1]) + |f[|f| - 1]|
            && TotalWidth(sh.words[..sh.First()]) == sh.Start()
            && (sh.anchoredStart ==> sh.words[..sh.First()] == [sh.words[0]])
  {
    var f := sh.Floating();
    var front, w := f[..|f| - 1], f[|f| - 1];
    assert f == front + [w];
    TotalWidthConcat(front, [w]);
    WidthOfOne(w);
    WidthOfOne(sh.words[0]);
  }

  lemma LongEnough(sh: Shape, text: seq<Byte>)
    requires sh.Valid() && LosesEnd(sh)
    requires var f := sh.Floating();
             |text| >= TotalWidth(sh.words[..sh.First()]) + TotalWidth(f[..|f| - 1]) + |f[|f| - 1]| +
                       |sh.words[sh.Last()]|
    ensures TotalWidth(sh.words) <= |text| && sh.Start() <= sh.End(text)
  {
    WidthsOfParts(sh);
    WidthOfParts(sh, text);
  }

  lemma MatcherIsWrong(sh: Shape) returns (text: seq<Byte>)
    requires sh.Valid() && LosesEnd(sh)
    ensures Accepts(sh, text) && !sh.Matches(text)
    ensures NoNul(sh.words) ==> 0 !in text
  {
    var f := sh.Floating();
    var w, e := f[|f| - 1], sh.words[sh.Last()];
    var overlap :| 1 <= overlap <= |e| && OverlapFits(w, e, overlap);
    PartsAreProper(sh);
    assert [w][0] == w;
    text := WrongText(sh.words[..sh.First()], f[..|f| - 1], w, e, overlap);
    assert f == f[..|f| - 1] + [w];
    WidthsOfParts(sh);
    LongEnough(sh, text);
    if NoNul(sh.words) {
      PartsNoNul(sh);
    }
  }

  lemma LikeIsMatches(pattern: seq<Byte>, text: seq<Byte>)
    requires Decode(pattern).Some?
    ensures Like(text, pattern) <==> ShapeOf(Decode(pattern).value).Matches(text)
  {
    DecodeKeepsMeaning(text, pattern);
    ShapeKeepsMeaning(text, Decode(pattern).value);
  }

  lemma MatcherIsLike(pattern: seq<Byte>, text: seq<Byte>)
    requires Decode(pattern).Some? && !LosesEnd(ShapeOf(Decode(pattern).value))
    ensures Accepts(ShapeOf(Decode(pattern).value), text) <==> Like(text, pattern)
  {
    var sh := ShapeOf(Decode(pattern).value);
    LikeIsMatches(pattern, text);
    if sh.Matches(text) {
      MatcherIsComplete(sh, text);
    }
    if Accepts(sh, text) {
      MatcherIsSound(sh, text);
    }
  }

  /** A text that is accepted and not LIKE the pattern. */
  lemma WrongInput(pattern: seq<Byte>) returns (text: seq<Byte>)
    requires Decode(pattern).Some? && LosesEnd(ShapeOf(Decode(pattern).value))
    ensures Accepts(ShapeOf(Decode(pattern).value), text) && !Like(text, pattern)
    ensures 0 !in pattern ==> 0 !in text
  {
    var toks := Decode(pattern).value;
    text := MatcherIsWrong(ShapeOf(toks));
    LikeIsMatches(pattern, text);
    if 0 !in pattern {
      DecodedNoNul(pattern);
      assert Literal(0) !in Middle(toks);
      WordsNoNul(Middle(toks), 0, |Middle(toks)|);
    }
  }

  /** The compiled matcher is LIKE on every text if and only if the guard is false.  Text values
      hold no byte 0; leaving out what does makes no difference. */
  lemma MatcherIsLikeExactlyWhen(pattern: seq<Byte>)
    requires Decode(pattern).Some?
    ensures var sh := ShapeOf(Decode(pattern).value);
            && ((forall text: seq<Byte> :: Accepts(sh, text) <==> Like(text, pattern)) <==> !LosesEnd(sh))
            && (0 !in pattern ==>
                  ((forall text: seq<Byte> | 0 !in text :: Accepts(sh, text) <==> Like(text, pattern)) <==>
                   !LosesEnd(sh)))
  {
    if LosesEnd(ShapeOf(Decode(pattern).value)) {
      var text := WrongInput(pattern);
    } else {
      forall text: seq<Byte> ensures Accepts(ShapeOf(Decode(pattern).value), text) <==> Like(text, pattern) {
        MatcherIsLike(pattern, text);
      }
    }
  }

  /** For every pattern: a text that LIKE matches is never rejected. */
  lemma MatcherNeverMisses(pattern: seq<Byte>, text: seq<Byte>)
    requires Decode(pattern).Some? && Like(text, pattern)
    ensures Accepts(ShapeOf(Decode(pattern).value), text)
  {
    DecodeKeepsMeaning(text, pattern);
    ShapeKeepsMeaning(text, Decode(pattern).value);
    MatcherIsComplete(ShapeOf(Decode(pattern).value), text);
  }

  /** Compile and match: never misses, and is LIKE whenever the guard is false. */
  method LikeByWords(pattern: seq<Byte>, data: seq<Byte>, singleByte: bool, utf8: bool) returns (r: Option<bool>)
    ensures Declines(pattern, singleByte, utf8) ==> r.None?
    ensures r.Some? ==>
              && Decode(pattern).Some?
              && (Like(data, pattern) ==> r.value)
              && (!LosesEnd(ShapeOf(Decode(pattern).value)) ==> (r.value <==> Like(data, pattern)))
  {
    var compiled := Compile(pattern, singleByte, utf8);
    if !compiled.Accepted? {
      return None;
    }
    ghost var sh := ShapeOf(Decode(pattern).value);
    var matched := MatchCompiled(compiled.compiled, data, sh);
    if Like(data, pattern) {
      MatcherNeverMisses(pattern, data);
    }
    if !LosesEnd(sh) {
      MatcherIsLike(pattern, data);
    }
    return Some(matched);
  }

  /** '%a%c%c' is such a pattern: in 'xac' the last floating 'c' and the end-anchored 'c' share a
      byte, and LIKE rejects the text. */
  lemma SharedByteExample()
    ensures var pattern: seq<Byte>, text: seq<Byte> := [37, 97, 37, 99, 37, 99], [120, 97, 99];
            && Decode(pattern).Some?
            && Accepts(ShapeOf(Decode(pattern).value), text)
            && !Like(text, pattern)
  {
    var pattern: seq<Byte>, text: seq<Byte> := [37, 97, 37, 99, 37, 99], [120, 97, 99];
    SharedByteTokens();
    SharedByteShape();
    SharedByteAccepted(text);
    DecodeKeepsMeaning(text, pattern);
    ShapeKeepsMeaning(text, Decode(pattern).value);
  }

  lemma SharedByteAccepted(text: seq<Byte>)
    requires text == [120, 97, 99]
    ensures var sh := Shape(false, true, [[Literal(97)], [Literal(99)], [Literal(99)]]);
            Accepts(sh, text) && !sh.Matches(text)
  {
    var sh := Shape(false, true, [[Literal(97)], [Literal(99)], [Literal(99)]]);
    assert sh.Floating() == [[Literal(97)], [Literal(99)]];
    SharedByteScanned(text);
    SharedByteNotPlaced(text);
    assert WordAt(text, 2, [Literal(99)]);
    SharedByteWidth();
  }

  lemma SharedByteWidth()
    ensures TotalWidth([[Literal(97)], [Literal(99)], [Literal(99)]]) == 3
  {
    var a, c := [Literal(97)], [Literal(99)];
    WidthOfOne(c);
    assert [a, c, c][1..] == [c, c] && [c, c][1..] == [c];
  }

  /** The floating 'a' is found at 1, and then the limit is the end of the text. */
  lemma SharedByteScanned(text: seq<Byte>)
    requires text == [120, 97, 99]
    ensures Scanned(text, 0, 2, [[Literal(97)], [Literal(99)]])
  {
    var a, c := [Literal(97)], [Literal(99)];
    assert [c][1..] == [] && [a, c][1..] == [c];
    assert WordAt(text, 2, c) && Scanned(text, 3, 3, []);
    ScannedHere(text, 2, 3, [c]);
    assert WordAt(text, 1, a) && a[0].Literal?;
    assert 0 <= 1 && 1 + |[a, c][0]| <= 2 && Scanned(text, 1 + |a|, LimitAfter(text, 2, a), [a, c][1..]);
  }

  lemma SharedByteNotPlaced(text: seq<Byte>)
    requires text == [120, 97, 99]
    ensures !Placed(text, 0, 2, [[Literal(97)], [Literal(99)]])
  {
    var a, c := [Literal(97)], [Literal(99)];
    assert [a, c][1..] == [c];
    forall j: int | 0 <= j && j + |a| <= 2 && WordAt(text, j, a) ensures !Placed(text, j + |a|, 2, [c]) {
      assert Fits(a[0], text[j]);
      WidthOfOne(c);
      NoRoom(text, j + |a|, 2, [c]);
    }
  }

  lemma NoRoom(text: seq<Byte>, pos: int, lim: int, ws: seq<seq<Token>>)
    requires pos + TotalWidth(ws) > lim
    ensures !Placed(text, pos, lim, ws)
  {
    if Placed(text, pos, lim, ws) {
      PlacedNeedsRoom(text, pos, lim, ws);
    }
  }

  lemma SharedByteTokens()
    ensures Decode([37, 97, 37, 99, 37, 99]) ==
            Some([Percent, Literal(97), Percent, Literal(99), Percent, Literal(99)])
  {
    var p1: seq<Byte>, p2: seq<Byte>, p3: seq<Byte> := [99], [37, 99], [99, 37, 99];
    var p4: seq<Byte>, p5: seq<Byte> := [37, 99, 37, 99], [97, 37, 99, 37, 99];
    assert p1 == [99] + [] && p2 == [37] + p1 && p3 == [99] + p2 && p4 == [37] + p3 && p5 == [97] + p4;
    DecodePlain(99, []);
    DecodePlain(37, p1);
    assert Decode(p2).value == [Percent, Literal(99)];
    DecodePlain(99, p2);
    DecodePlain(37, p3);
    assert Decode(p4).value == [Percent, Literal(99), Percent, Literal(99)];
    DecodePlain(97, p4);
    DecodePlain(37, p5);
    assert [37, 97, 37, 99, 37, 99] == [37] + p5;
    assert Decode([37] + p5).value == [Percent, Literal(97), Percent, Literal(99), Percent, Literal(99)];
  }

  lemma SharedByteShape()
    ensures ShapeOf([Percent, Literal(97), Percent, Literal(99), Percent, Literal(99)]) ==
            Shape(false, true, [[Literal(97)], [Literal(99)], [Literal(99)]])
  {
    var toks := [Percent, Literal(97), Percent, Literal(99), Percent, Literal(99)];
    var mid := [Literal(97), Percent, Literal(99), Percent, Literal(99)];
    assert Middle(toks) == mid;
    NextWord(mid, 4, 5, 5);
    NextWord(mid, 2, 3, 5);
    NextWord(mid, 0, 1, 5);
    assert mid[4..5] == [Literal(99)] && mid[2..3] == [Literal(99)] && mid[0..1] == [Literal(97)];
  }

  /** One token between percents. */
  lemma NextWord(toks: seq<Token>, s: nat, n: nat, end: nat)
    requires s + 1 == n <= end <= |toks| && toks[s] != Percent && (n == end || toks[n] == Percent)
    ensures WordsIn(toks, s, end) == [toks[s..n]] + WordsIn(toks, n + 1, end)
  {
    assert NextPercent(toks, n, end) == n;
    assert NextPercent(toks, s, end) == n;
  }

  lemma DecodePlain(b: Byte, rest: seq<Byte>)
    requires b != BACKSLASH && Decode(rest).Some?
    ensures Decode([b] + rest) == Some([Unescaped(b)] + Decode(rest).value)
  {
    assert ([b] + rest)[1..] == rest;
  }
}
