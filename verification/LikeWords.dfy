/** A LIKE pattern as words separated by '%': what a placement of the words in a text
    means, and why it means the same as the token-by-token reference. */
module LikeWords {
  import opened LikePattern

  predicate Fits(tok: Token, b: Byte) {
    tok == Underscore || tok == Literal(b)
  }

  predicate WildFree(w: seq<Token>) {
    forall k | 0 <= k < |w| :: w[k] != Percent
  }

  predicate HasLiteral(w: seq<Token>) {
    exists k | 0 <= k < |w| :: w[k].Literal?
  }

  predicate WordAt(text: seq<Byte>, pos: int, w: seq<Token>) {
    && 0 <= pos
    && pos + |w| <= |text|
    && forall k | 0 <= k < |w| :: Fits(w[k], text[pos + k])
  }

  /** The words occur in order, without overlap, inside text[pos..lim]. */
  ghost predicate Placed(text: seq<Byte>, pos: int, lim: int, ws: seq<seq<Token>>)
    decreases |ws|
  {
    && pos <= lim
    && (ws == [] ||
        exists j: int :: pos <= j && j + |ws[0]| <= lim && WordAt(text, j, ws[0]) &&
                         Placed(text, j + |ws[0]|, lim, ws[1..]))
  }

  lemma {:induction false} PlacedEarlier(text: seq<Byte>, pos: int, pos': int, lim: int, ws: seq<seq<Token>>)
    requires pos <= pos' && Placed(text, pos', lim, ws)
    ensures Placed(text, pos, lim, ws)
  {
    if ws != [] {
      var j: int :| pos' <= j && j + |ws[0]| <= lim && WordAt(text, j, ws[0]) &&
                    Placed(text, j + |ws[0]|, lim, ws[1..]);
      assert pos <= j && j + |ws[0]| <= lim && WordAt(text, j, ws[0]) &&
             Placed(text, j + |ws[0]|, lim, ws[1..]);
    }
  }

  /** Index of the first '%' in toks[i..end], or end. */
  function NextPercent(toks: seq<Token>, i: nat, end: nat): (n: nat)
    requires i <= end <= |toks|
    ensures i <= n <= end
    decreases end - i
  {
    if i == end || toks[i] == Percent then i else NextPercent(toks, i + 1, end)
  }

  lemma {:induction false} NextPercentIs(toks: seq<Token>, i: nat, n: nat, end: nat)
    requires i <= n <= end <= |toks|
    ensures NextPercent(toks, i, end) == n <==>
            (forall k | i <= k < n :: toks[k] != Percent) && (n == end || toks[n] == Percent)
    decreases end - i
  {
    if i < end && toks[i] != Percent {
      if i < n {
        NextPercentIs(toks, i + 1, n, end);
      }
    }
  }

  /** The maximal non-empty runs of toks[s..end] between '%'. */
  function WordsIn(toks: seq<Token>, s: nat, end: nat): seq<seq<Token>>
    requires end <= |toks|
    decreases end - s
  {
    if s >= end then []
    else
      var n := NextPercent(toks, s, end);
      (if n > s then [toks[s..n]] else []) + WordsIn(toks, n + 1, end)
  }

  function Words(toks: seq<Token>): seq<seq<Token>> {
    WordsIn(toks, 0, |toks|)
  }

  lemma {:induction false} NextPercentOfSlice(toks: seq<Token>, i: nat, end: nat, from: nat)
    requires from <= i <= end <= |toks|
    ensures NextPercent(toks[from..end], i - from, end - from) == NextPercent(toks, i, end) - from
    decreases end - i
  {
    if i < end {
      assert toks[from..end][i - from] == toks[i];
      NextPercentOfSlice(toks, i + 1, end, from);
    }
  }

  lemma SliceOfSlice<T>(s: seq<T>, from: nat, end: nat, a: nat, b: nat)
    requires from <= a <= b <= end <= |s|
    ensures s[from..end][a - from..b - from] == s[a..b]
  {
    var t := s[from..end];
    forall k | 0 <= k < b - a ensures t[a - from..b - from][k] == s[a..b][k] {
      assert t[a - from..b - from][k] == t[a - from + k];
    }
  }

  function FirstWord(toks: seq<Token>, s: nat, n: nat): seq<seq<Token>>
    requires s <= n <= |toks|
  {
    if n > s then [toks[s..n]] else []
  }

  lemma WordsStep(toks: seq<Token>, s: nat, end: nat, n: nat)
    requires s < end <= |toks| && n == NextPercent(toks, s, end)
    ensures WordsIn(toks, s, end) == FirstWord(toks, s, n) + WordsIn(toks, n + 1, end)
  {
  }

  /** Words of a slice, wherever the slice sits. */
  lemma {:induction false} WordsOfSlice(toks: seq<Token>, s: nat, end: nat, from: nat)
    requires from <= s && from <= end <= |toks|
    ensures WordsIn(toks, s, end) == WordsIn(toks[from..end], s - from, end - from)
    decreases end - s
  {
    if s < end {
      var m := toks[from..end];
      var n := NextPercent(toks, s, end);
      NextPercentOfSlice(toks, s, end, from);
      SliceOfSlice(toks, from, end, s, n);
      WordsStep(toks, s, end, n);
      WordsStep(m, s - from, end - from, n - from);
      WordsOfSlice(toks, n + 1, end, from);
    }
  }

  predicate ProperWords(ws: seq<seq<Token>>) {
    forall s | 0 <= s < |ws| :: ws[s] != [] && WildFree(ws[s])
  }

  lemma {:induction false} WordsAreProper(toks: seq<Token>, s: nat, end: nat)
    requires end <= |toks|
    ensures ProperWords(WordsIn(toks, s, end))
    decreases end - s
  {
    if s < end {
      var n := NextPercent(toks, s, end);
      NextPercentIs(toks, s, n, end);
      WordsAreProper(toks, n + 1, end);
    }
  }

  lemma {:induction false} WordsExist(toks: seq<Token>, s: nat, end: nat)
    requires s < end <= |toks| && toks[end - 1] != Percent
    ensures WordsIn(toks, s, end) != []
    decreases end - s
  {
    if toks[s] == Percent {
      WordsExist(toks, s + 1, end);
    }
  }

  /** A pattern after one '%' was stripped from each end: whether the first and last word
      are pinned to the ends of the text, and the words. */
  datatype Shape = Shape(anchoredStart: bool, anchoredEnd: bool, words: seq<seq<Token>>) {

    /** Index of the first word that is not pinned to the start. */
    function First(): nat {
      if anchoredStart then 1 else 0
    }

    /** One past the last word that is not pinned to the end. */
    function Last(): nat {
      if anchoredEnd && |words| > First() then |words| - 1 else |words|
    }

    predicate Valid() {
      && (words == [] ==> anchoredStart == anchoredEnd)
      && ProperWords(words)
    }

    function Floating(): seq<seq<Token>>
      requires words != []
    {
      words[First()..Last()]
    }

    /** Position where the floating words may start. */
    function Start(): nat
      requires words != []
    {
      if anchoredStart then |words[0]| else 0
    }

    /** Position where the floating words must end. */
    function End(text: seq<Byte>): int
      requires words != []
    {
      if Last() < |words| then |text| - |words[Last()]| else |text|
    }

    predicate EndsPinned(text: seq<Byte>)
      requires words != []
    {
      && (anchoredStart ==> WordAt(text, 0, words[0]))
      && (Last() < |words| ==> WordAt(text, End(text), words[Last()]))
      && Start() <= End(text)
      && (anchoredEnd && Last() == |words| ==> Start() == |text|)
    }

    ghost predicate Matches(text: seq<Byte>) {
      if words == [] then
        !anchoredStart || text == []
      else
        EndsPinned(text) && Placed(text, Start(), End(text), Floating())
    }
  }

  function StripStart(toks: seq<Token>): nat {
    if toks != [] && toks[0] == Percent then 1 else 0
  }

  function StripEnd(toks: seq<Token>): (end: nat)
    ensures StripStart(toks) <= end <= |toks|
  {
    if |toks| > StripStart(toks) && toks[|toks| - 1] == Percent then |toks| - 1 else |toks|
  }

  function Middle(toks: seq<Token>): seq<Token> {
    toks[StripStart(toks)..StripEnd(toks)]
  }

  function ShapeOf(toks: seq<Token>): (sh: Shape)
    ensures sh.Valid()
  {
    var ws := Words(Middle(toks));
    WordsAreProper(Middle(toks), 0, |Middle(toks)|);
    if ws == [] then Shape(toks == [], toks == [], [])
    else Shape(StripStart(toks) == 0, StripEnd(toks) == |toks|, ws)
  }

  // ---- From tokens to words ----

  predicate LikeFrom(text: seq<Byte>, pos: int, toks: seq<Token>) {
    0 <= pos <= |text| && TokensLike(text[pos..], toks)
  }

  lemma {:induction false} WordThenRest(text: seq<Byte>, pos: int, w: seq<Token>, rest: seq<Token>)
    requires WildFree(w)
    ensures LikeFrom(text, pos, w + rest) <==>
            0 <= pos <= |text| && WordAt(text, pos, w) && LikeFrom(text, pos + |w|, rest)
    decreases |w|
  {
    if w == [] {
      assert w + rest == rest;
    } else if 0 <= pos < |text| {
      assert (w + rest)[1..] == w[1..] + rest;
      assert text[pos..][1..] == text[pos + 1..];
      WordThenRest(text, pos + 1, w[1..], rest);
      if WordAt(text, pos, w) {
        assert forall k | 0 <= k < |w| - 1 :: Fits(w[1..][k], text[pos + 1 + k]) by {
          forall k | 0 <= k < |w| - 1 ensures Fits(w[1..][k], text[pos + 1 + k]) {
            assert Fits(w[k + 1], text[pos + (k + 1)]);
          }
        }
      }
      if Fits(w[0], text[pos]) && WordAt(text, pos + 1, w[1..]) {
        forall k | 0 <= k < |w| ensures Fits(w[k], text[pos + k]) {
          if k > 0 {
            assert Fits(w[1..][k - 1], text[pos + 1 + (k - 1)]);
          }
        }
      }
    }
  }

  lemma {:induction false} PercentThenRest(text: seq<Byte>, pos: int, rest: seq<Token>)
    requires 0 <= pos <= |text|
    ensures LikeFrom(text, pos, [Percent] + rest) <==>
            exists j: int :: pos <= j && LikeFrom(text, j, rest)
    decreases |text| - pos
  {
    assert ([Percent] + rest)[1..] == rest;
    if pos < |text| {
      assert text[pos..][1..] == text[pos + 1..];
      PercentThenRest(text, pos + 1, rest);
    }
    if LikeFrom(text, pos, rest) {
      assert pos <= pos && LikeFrom(text, pos, rest);
    }
    if j: int :| pos <= j && LikeFrom(text, j, rest) && j != pos {
      assert pos + 1 <= j && LikeFrom(text, j, rest);
    }
  }

  function Tail(anchoredEnd: bool): seq<Token> {
    if anchoredEnd then [] else [Percent]
  }

  /** Where floating words, and a pinned last word, may stand from pos on. */
  ghost predicate FloatLike(text: seq<Byte>, pos: int, ws: seq<seq<Token>>, anchoredEnd: bool) {
    if anchoredEnd && ws != [] then
      var last := ws[|ws| - 1];
      WordAt(text, |text| - |last|, last) && Placed(text, pos, |text| - |last|, ws[..|ws| - 1])
    else
      Placed(text, pos, |text|, ws)
  }

  predicate EndsInWord(m: seq<Token>, anchoredEnd: bool) {
    anchoredEnd && m != [] ==> m[|m| - 1] != Percent
  }

  lemma FloatLikeCons(text: seq<Byte>, pos: int, w: seq<Token>, ws: seq<seq<Token>>, anchoredEnd: bool)
    requires anchoredEnd ==> ws != []
    ensures FloatLike(text, pos, [w] + ws, anchoredEnd) <==>
            exists j: int :: pos <= j && WordAt(text, j, w) && FloatLike(text, j + |w|, ws, anchoredEnd)
  {
    var all := [w] + ws;
    assert all[1..] == ws;
    var lim := |text|;
    var inner := ws;
    if anchoredEnd {
      lim := |text| - |ws[|ws| - 1]|;
      inner := ws[..|ws| - 1];
      assert all[..|all| - 1] == [w] + inner;
      assert all[|all| - 1] == ws[|ws| - 1];
    }
    var front := [w] + inner;
    assert front[1..] == inner;
    if FloatLike(text, pos, all, anchoredEnd) {
      var j: int :| pos <= j && j + |w| <= lim && WordAt(text, j, w) && Placed(text, j + |w|, lim, front[1..]);
      assert pos <= j && WordAt(text, j, w) && FloatLike(text, j + |w|, ws, anchoredEnd);
    }
    if j: int :| pos <= j && WordAt(text, j, w) && FloatLike(text, j + |w|, ws, anchoredEnd) {
      assert pos <= j && j + |w| <= lim && WordAt(text, j, w) && Placed(text, j + |w|, lim, front[1..]);
      assert Placed(text, pos, lim, front);
    }
  }

  lemma {:induction false} FloatLikeEarlier(text: seq<Byte>, pos: int, ws: seq<seq<Token>>, anchoredEnd: bool)
    ensures FloatLike(text, pos, ws, anchoredEnd) <==>
            exists j: int :: pos <= j && FloatLike(text, j, ws, anchoredEnd)
  {
    if FloatLike(text, pos, ws, anchoredEnd) {
      assert pos <= pos && FloatLike(text, pos, ws, anchoredEnd);
    }
    if j: int :| pos <= j && FloatLike(text, j, ws, anchoredEnd) {
      if anchoredEnd && ws != [] {
        PlacedEarlier(text, pos, j, |text| - |ws[|ws| - 1]|, ws[..|ws| - 1]);
      } else {
        PlacedEarlier(text, pos, j, |text|, ws);
      }
    }
  }

  lemma TailMatches(text: seq<Byte>, pos: int, anchoredEnd: bool)
    ensures LikeFrom(text, pos, Tail(anchoredEnd)) <==>
            0 <= pos <= |text| && (anchoredEnd ==> pos == |text|)
  {
    if !anchoredEnd && 0 <= pos <= |text| {
      PercentThenRest(text, pos, []);
      assert [Percent] + [] == [Percent];
      assert pos <= |text| && LikeFrom(text, |text|, []);
    }
  }

  lemma {:induction false} OneFloatingWord(text: seq<Byte>, pos: int, w: seq<Token>, anchoredEnd: bool)
    requires 0 <= pos <= |text| && WildFree(w)
    ensures (exists j: int :: pos <= j && LikeFrom(text, j, w + Tail(anchoredEnd))) <==>
            FloatLike(text, pos, if w == [] then [] else [w], anchoredEnd)
  {
    var tail := Tail(anchoredEnd);
    var ws := if w == [] then [] else [w];
    if w == [] {
      assert w + tail == tail;
      TailMatches(text, |text|, anchoredEnd);
      assert pos <= |text| && LikeFrom(text, |text|, w + tail);
    } else {
      assert ws[..0] == [] && ws[1..] == [];
      if j: int :| pos <= j && LikeFrom(text, j, w + tail) {
        WordThenRest(text, j, w, tail);
        TailMatches(text, j + |w|, anchoredEnd);
        assert pos <= j && j + |w| <= |text| && WordAt(text, j, ws[0]) && Placed(text, j + |w|, |text|, ws[1..]);
      }
      if FloatLike(text, pos, ws, anchoredEnd) {
        var j: int := |text| - |w|;
        if !anchoredEnd {
          j :| pos <= j && j + |w| <= |text| && WordAt(text, j, ws[0]) && Placed(text, j + |w|, |text|, ws[1..]);
        }
        WordThenRest(text, j, w, tail);
        TailMatches(text, j + |w|, anchoredEnd);
        assert pos <= j && LikeFrom(text, j, w + tail);
      }
    }
  }

  lemma CutAt(m: seq<Token>, n: nat, tail: seq<Token>)
    requires n < |m| && m[n] == Percent
    ensures m + tail == m[..n] + ([Percent] + (m[n + 1..] + tail))
  {
  }

  /** A pattern that still holds a '%': its first word, then the rest after that '%'. */
  lemma SplitAtPercent(text: seq<Byte>, pos: int, m: seq<Token>, n: nat, tail: seq<Token>)
    requires n < |m| && m[n] == Percent && WildFree(m[..n])
    ensures LikeFrom(text, pos, m + tail) <==>
            WordAt(text, pos, m[..n]) && LikeFrom(text, pos + n, [Percent] + (m[n + 1..] + tail))
  {
    CutAt(m, n, tail);
    var rest := [Percent] + (m[n + 1..] + tail);
    WordThenRest(text, pos, m[..n], rest);
  }

  function FirstPercent(m: seq<Token>): nat {
    NextPercent(m, 0, |m|)
  }

  lemma WordsSplit(m: seq<Token>, anchoredEnd: bool) returns (n: nat)
    requires FirstPercent(m) < |m| && EndsInWord(m, anchoredEnd)
    ensures n == FirstPercent(m) && m[n] == Percent && WildFree(m[..n])
    ensures Words(m) == (if n > 0 then [m[..n]] else []) + Words(m[n + 1..])
    ensures EndsInWord(m[n + 1..], anchoredEnd)
    ensures anchoredEnd ==> Words(m[n + 1..]) != []
  {
    n := FirstPercent(m);
    NextPercentIs(m, 0, n, |m|);
    assert m[n + 1..|m|] == m[n + 1..];
    WordsOfSlice(m, n + 1, |m|, n + 1);
    assert m[0..n] == m[..n];
    if anchoredEnd {
      WordsExist(m[n + 1..], 0, |m| - n - 1);
    }
  }

  lemma AnyFirstPlace(text: seq<Byte>, pos: int, w: seq<Token>, ws: seq<seq<Token>>, mt: seq<Token>, anchoredEnd: bool)
    requires 0 <= pos <= |text|
    requires anchoredEnd ==> ws != []
    requires forall j: int | pos <= j ::
               LikeFrom(text, j, mt) <==> WordAt(text, j, w) && FloatLike(text, j + |w|, ws, anchoredEnd)
    ensures (exists j: int :: pos <= j && LikeFrom(text, j, mt)) <==>
            FloatLike(text, pos, (if w == [] then [] else [w]) + ws, anchoredEnd)
  {
    if w == [] {
      assert [] + ws == ws;
      FloatLikeEarlier(text, pos, ws, anchoredEnd);
      if FloatLike(text, pos, ws, anchoredEnd) {
        assert WordAt(text, pos, w);
        assert LikeFrom(text, pos, mt);
      }
    } else {
      FloatLikeCons(text, pos, w, ws, anchoredEnd);
    }
  }

  /** The step of FloatingWords: one more word, when the first word starts at pos. */
  lemma {:induction false} FirstWordAt(text: seq<Byte>, pos: int, m: seq<Token>, n: nat, anchoredEnd: bool)
    requires n < |m| && m[n] == Percent && WildFree(m[..n])
    requires EndsInWord(m, anchoredEnd)
    ensures LikeFrom(text, pos, m + Tail(anchoredEnd)) <==>
            WordAt(text, pos, m[..n]) && FloatLike(text, pos + n, Words(m[n + 1..]), anchoredEnd)
    decreases |m|, 0
  {
    SplitAtPercent(text, pos, m, n, Tail(anchoredEnd));
    if WordAt(text, pos, m[..n]) {
      FloatingWords(text, pos + n, m[n + 1..], anchoredEnd);
    }
  }

  /** After a '%', the rest of a pattern is exactly a placement of its words. */
  lemma {:induction false} FloatingWords(text: seq<Byte>, pos: int, m: seq<Token>, anchoredEnd: bool)
    requires 0 <= pos <= |text|
    requires EndsInWord(m, anchoredEnd)
    ensures LikeFrom(text, pos, [Percent] + (m + Tail(anchoredEnd))) <==>
            FloatLike(text, pos, Words(m), anchoredEnd)
    decreases |m|, 1
  {
    var mt := m + Tail(anchoredEnd);
    PercentThenRest(text, pos, mt);
    if FirstPercent(m) == |m| {
      OneWord(m);
      OneFloatingWord(text, pos, m, anchoredEnd);
    } else {
      var n := WordsSplit(m, anchoredEnd);
      forall j: int | pos <= j
        ensures LikeFrom(text, j, mt) <==>
                WordAt(text, j, m[..n]) && FloatLike(text, j + n, Words(m[n + 1..]), anchoredEnd)
      {
        FirstWordAt(text, j, m, n, anchoredEnd);
      }
      AnyFirstPlace(text, pos, m[..n], Words(m[n + 1..]), mt, anchoredEnd);
    }
  }

  lemma OneWord(m: seq<Token>)
    requires FirstPercent(m) == |m|
    ensures WildFree(m)
    ensures Words(m) == if m == [] then [] else [m]
  {
    NextPercentIs(m, 0, |m|, |m|);
    assert m[0..|m|] == m;
    assert WordsIn(m, |m| + 1, |m|) == [];
    assert [m] + [] == [m];
  }

  lemma PinnedShape(text: seq<Byte>, w: seq<Token>, ws: seq<seq<Token>>, anchoredEnd: bool)
    requires anchoredEnd ==> ws != []
    ensures Shape(true, anchoredEnd, [w] + ws).Matches(text) <==>
            WordAt(text, 0, w) && FloatLike(text, |w|, ws, anchoredEnd)
  {
    var sh := Shape(true, anchoredEnd, [w] + ws);
    if anchoredEnd {
      assert sh.Floating() == ws[..|ws| - 1];
    } else {
      assert sh.Floating() == ws;
    }
  }

  /** A pattern that starts with a word: the word sits at 0, the rest floats after it. */
  lemma {:induction false} PinnedStart(text: seq<Byte>, m: seq<Token>, anchoredEnd: bool)
    requires m != [] && m[0] != Percent && EndsInWord(m, anchoredEnd)
    ensures LikeFrom(text, 0, m + Tail(anchoredEnd)) <==> Shape(true, anchoredEnd, Words(m)).Matches(text)
  {
    if FirstPercent(m) == |m| {
      OneWord(m);
      WordThenRest(text, 0, m, Tail(anchoredEnd));
      TailMatches(text, |m|, anchoredEnd);
      assert Shape(true, anchoredEnd, [m]).Floating() == [];
    } else {
      var n := WordsSplit(m, anchoredEnd);
      FirstWordAt(text, 0, m, n, anchoredEnd);
      PinnedShape(text, m[..n], Words(m[n + 1..]), anchoredEnd);
    }
  }

  /** A pattern that starts with '%': every word floats, except a pinned last one. */
  lemma FloatingStart(text: seq<Byte>, m: seq<Token>, anchoredEnd: bool)
    requires EndsInWord(m, anchoredEnd) && Words(m) != []
    ensures LikeFrom(text, 0, [Percent] + (m + Tail(anchoredEnd))) <==>
            Shape(false, anchoredEnd, Words(m)).Matches(text)
  {
    FloatingWords(text, 0, m, anchoredEnd);
    var sh := Shape(false, anchoredEnd, Words(m));
    assert sh.Floating() == if anchoredEnd then sh.words[..|sh.words| - 1] else sh.words;
  }

  /** The words of a pattern mean what its tokens mean. */
  lemma ShapeKeepsMeaning(text: seq<Byte>, toks: seq<Token>)
    ensures TokensLike(text, toks) <==> ShapeOf(toks).Matches(text)
  {
    assert text[0..] == text;
    var m := Middle(toks);
    var anchoredEnd := StripEnd(toks) == |toks|;
    var tail := Tail(anchoredEnd);
    if toks != [] {
      assert EndsInWord(m, anchoredEnd);
      if StripStart(toks) == 0 {
        assert toks == m + tail;
        assert m[0] == toks[0];
        FirstWordExists(m);
        PinnedStart(text, m, anchoredEnd);
      } else {
        assert toks == [Percent] + (m + tail);
        if Words(m) == [] {
          FloatingWords(text, 0, m, anchoredEnd);
        } else {
          FloatingStart(text, m, anchoredEnd);
        }
      }
    }
  }

  lemma FirstWordExists(m: seq<Token>)
    requires m != [] && m[0] != Percent
    ensures Words(m) != []
  {
  }
}
