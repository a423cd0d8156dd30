/** The segment form of a LIKE pattern (SzLikeCompiled) and its compiler. */
module LikeSegments {
  import opened LikePattern
  import opened LikeWords
  import opened Wrappers

  const MAX_SEGMENTS := 16
  const MAX_PIECES := 8
  const MAX_ALLOC := 0x3fff_ffff
  const HEADER_SIZE := 2184

  /** A run of literal bytes at a fixed offset in its segment. */
  datatype Piece = Piece(offset: nat, data: seq<Byte>)

  datatype Segment = Segment(width: nat, pieces: seq<Piece>, longest: nat)

  datatype Compiled = Compiled(minLen: nat, anchoredStart: bool, anchoredEnd: bool, segments: seq<Segment>)

  /** Declined: another matcher must be used.  UseGeneric: the server's own LIKE is faster. */
  datatype CompileResult = Declined | UseGeneric | Accepted(compiled: Compiled)

  // ---- What the compiled form stands for ----

  predicate PieceOf(p: Piece, w: seq<Token>) {
    && p.data != []
    && p.offset + |p.data| <= |w|
    && forall k | 0 <= k < |p.data| :: w[p.offset + k] == Literal(p.data[k])
  }

  predicate Covered(pieces: seq<Piece>, j: int) {
    exists i | 0 <= i < |pieces| :: pieces[i].offset <= j < pieces[i].offset + |pieces[i].data|
  }

  /** The pieces of a segment are exactly the literal tokens of the word. */
  predicate Represents(seg: Segment, w: seq<Token>) {
    && seg.width == |w|
    && (forall i | 0 <= i < |seg.pieces| :: PieceOf(seg.pieces[i], w))
    && (forall j | 0 <= j < |w| && w[j].Literal? :: Covered(seg.pieces, j))
    && (seg.pieces != [] ==> seg.longest < |seg.pieces|)
  }

  function TotalWidth(ws: seq<seq<Token>>): nat {
    if ws == [] then 0 else |ws[0]| + TotalWidth(ws[1..])
  }

  predicate CompiledFrom(c: Compiled, sh: Shape) {
    && c.anchoredStart == sh.anchoredStart
    && c.anchoredEnd == sh.anchoredEnd
    && |c.segments| == |sh.words|
    && c.minLen == TotalWidth(sh.words)
    && forall s | 0 <= s < |c.segments| :: Represents(c.segments[s], sh.words[s])
  }

  // ---- When the compiler declines ----

  function Literals(w: seq<Token>): nat {
    if w == [] then 0 else Literals(w[..|w| - 1]) + if w[|w| - 1].Literal? then 1 else 0
  }

  function TotalLiterals(ws: seq<seq<Token>>): nat {
    if ws == [] then 0 else TotalLiterals(ws[..|ws| - 1]) + Literals(ws[|ws| - 1])
  }

  predicate HasUnderscore(ws: seq<seq<Token>>) {
    exists s, k | 0 <= s < |ws| && 0 <= k < |ws[s]| :: ws[s][k] == Underscore
  }

  /** The number of maximal literal runs among the first j tokens. */
  function Runs(w: seq<Token>, j: nat): nat
    requires j <= |w|
  {
    if j == 0 then 0
    else Runs(w, j - 1) + if w[j - 1].Literal? && (j == 1 || !w[j - 2].Literal?) then 1 else 0
  }

  /** '%literal%': one floating word and nothing else. */
  predicate SingleNeedle(sh: Shape) {
    !sh.anchoredStart && !sh.anchoredEnd && |sh.words| == 1 && !HasUnderscore(sh.words)
  }

  predicate TooLarge(sh: Shape) {
    || |sh.words| > MAX_SEGMENTS
    || TotalLiterals(sh.words) > MAX_ALLOC - HEADER_SIZE
    || exists s | 0 <= s < |sh.words| :: Runs(sh.words[s], |sh.words[s]|) > MAX_PIECES
  }

  predicate DeclinesShape(sh: Shape, singleByte: bool) {
    || (!singleByte && HasUnderscore(sh.words))
    || (if SingleNeedle(sh) then TotalLiterals(sh.words) >= 5 else TooLarge(sh))
  }

  predicate Declines(pattern: seq<Byte>, singleByte: bool, utf8: bool) {
    || (!singleByte && !utf8)
    || Decode(pattern).None?
    || DeclinesShape(ShapeOf(Decode(pattern).value), singleByte)
  }

  // ---- Splitting at '%' ----

  /** One step of both passes: ws is the whole word list, of which n words are done. */
  lemma NextWord(toks: seq<Token>, s: nat, i: nat, end: nat, ws: seq<seq<Token>>, n: nat)
    requires s <= i <= end <= |toks|
    requires forall k | s <= k < i :: toks[k] != Percent
    requires i == end || toks[i] == Percent
    requires n <= |ws| && WordsIn(toks, s, end) == ws[n..]
    ensures i > s ==> n < |ws| && ws[n] == toks[s..i] && WordsIn(toks, i + 1, end) == ws[n + 1..]
    ensures i == s ==> WordsIn(toks, i + 1, end) == ws[n..]
  {
    NextPercentIs(toks, s, i, end);
    if i > s {
      assert ws[n..][0] == ws[n];
      assert ws[n..][1..] == ws[n + 1..];
      assert ([toks[s..i]] + WordsIn(toks, i + 1, end))[1..] == WordsIn(toks, i + 1, end);
    }
  }

  lemma {:induction false} TotalWidthAppend(ws: seq<seq<Token>>, w: seq<Token>)
    ensures TotalWidth(ws + [w]) == TotalWidth(ws) + |w|
  {
    if ws != [] {
      assert (ws + [w])[1..] == ws[1..] + [w];
      TotalWidthAppend(ws[1..], w);
    }
  }

  /** Where the first pass stands: the words in front of segStart have been counted. */
  ghost predicate CountedUpTo(toks: seq<Token>, segStart: nat, end: nat, ws: seq<seq<Token>>,
                              numSegments: nat, totalLiteral: nat, hasUnderscore: bool)
    requires end <= |toks|
  {
    && numSegments <= |ws| && WordsIn(toks, segStart, end) == ws[numSegments..]
    && totalLiteral == TotalLiterals(ws[..numSegments])
    && hasUnderscore == HasUnderscore(ws[..numSegments])
  }

  method CountSegment(toks: seq<Token>, segStart: nat, i: nat, end: nat, ghost ws: seq<seq<Token>>,
                      numSegments0: nat, totalLiteral0: nat, hasUnderscore0: bool)
      returns (numSegments: nat, totalLiteral: nat, hasUnderscore: bool)
    requires segStart <= i <= end <= |toks| && forall k | segStart <= k < i :: toks[k] != Percent
    requires i == end || toks[i] == Percent
    requires CountedUpTo(toks, segStart, end, ws, numSegments0, totalLiteral0, hasUnderscore0)
    ensures CountedUpTo(toks, i + 1, end, ws, numSegments, totalLiteral, hasUnderscore)
  {
    numSegments, totalLiteral, hasUnderscore := numSegments0, totalLiteral0, hasUnderscore0;
    NextWord(toks, segStart, i, end, ws, numSegments);
    if i > segStart {
      var literals, wild := CountTokens(toks[segStart..i]);
      totalLiteral := totalLiteral + literals;
      hasUnderscore := hasUnderscore || wild;
      CountAppend(ws, numSegments);
      numSegments := numSegments + 1;
    }
  }

  /** First pass: count the segments and the literal bytes, and look for '_'. */
  method CountSegments(toks: seq<Token>, start: nat, end: nat)
      returns (numSegments: nat, totalLiteral: nat, hasUnderscore: bool)
    requires start <= end <= |toks|
    ensures var ws := WordsIn(toks, start, end);
            && numSegments == |ws|
            && totalLiteral == TotalLiterals(ws)
            && hasUnderscore == HasUnderscore(ws)
  {
    numSegments, totalLiteral, hasUnderscore := 0, 0, false;
    var segStart := start;
    ghost var ws := WordsIn(toks, start, end);
    var i := start;
    while i <= end
      invariant start <= i <= end + 1 && start <= segStart <= i
      invariant i <= end ==> forall k | segStart <= k < i :: toks[k] != Percent
      invariant i == end + 1 ==> segStart == i
      invariant CountedUpTo(toks, segStart, end, ws, numSegments, totalLiteral, hasUnderscore)
    {
      if i == end || toks[i] == Percent {
        numSegments, totalLiteral, hasUnderscore :=
          CountSegment(toks, segStart, i, end, ws, numSegments, totalLiteral, hasUnderscore);
        segStart := i + 1;
      }
      i := i + 1;
    }
    assert ws[numSegments..] == [];
    assert ws[..numSegments] == ws;
  }

  lemma CountAppend(ws: seq<seq<Token>>, n: nat)
    requires n < |ws|
    ensures TotalLiterals(ws[..n + 1]) == TotalLiterals(ws[..n]) + Literals(ws[n])
    ensures HasUnderscore(ws[..n + 1]) <==>
            HasUnderscore(ws[..n]) || exists k | 0 <= k < |ws[n]| :: ws[n][k] == Underscore
  {
    assert ws[..n + 1][..n] == ws[..n];
    assert ws[..n + 1] == ws[..n] + [ws[n]];
    UnderscoreAppend(ws[..n], ws[n]);
  }

  lemma UnderscoreAppend(ws: seq<seq<Token>>, w: seq<Token>)
    ensures HasUnderscore(ws + [w]) <==> HasUnderscore(ws) || exists k | 0 <= k < |w| :: w[k] == Underscore
  {
    var all := ws + [w];
    if k :| 0 <= k < |w| && w[k] == Underscore {
      assert all[|ws|][k] == Underscore;
    }
    if s, k :| 0 <= s < |ws| && 0 <= k < |ws[s]| && ws[s][k] == Underscore {
      assert all[s][k] == Underscore;
    }
  }

  method CountTokens(w: seq<Token>) returns (literals: nat, wild: bool)
    requires WildFree(w)
    ensures literals == Literals(w)
    ensures wild <==> exists k | 0 <= k < |w| :: w[k] == Underscore
  {
    literals, wild := 0, false;
    var j := 0;
    while j < |w|
      invariant 0 <= j <= |w|
      invariant literals == Literals(w[..j])
      invariant wild <==> exists k | 0 <= k < j :: w[k] == Underscore
    {
      assert w[..j + 1][..j] == w[..j];
      if w[j].Literal? {
        literals := literals + 1;
      } else if w[j] == Underscore {
        wild := true;
      }
      j := j + 1;
    }
    assert w[..j] == w;
  }

  /** The pieces lie in the word, cover its literals below `done`, and `longest` is the first
      longest of them. */
  ghost predicate PiecesOk(w: seq<Token>, pieces: seq<Piece>, longest: nat, longestLen: nat, done: nat)
    requires done <= |w|
  {
    && (forall i | 0 <= i < |pieces| :: PieceOf(pieces[i], w))
    && (forall k | 0 <= k < done && w[k].Literal? :: Covered(pieces, k))
    && (pieces != [] ==> longest < |pieces| && longestLen == |pieces[longest].data|)
    && (pieces == [] ==> longestLen == 0)
    && (forall i | 0 <= i < |pieces| :: |pieces[i].data| <= longestLen)
  }

  /** The literal run from pieceStart to j becomes a piece. */
  method AddPiece(w: seq<Token>, pieces0: seq<Piece>, longest0: nat, longestLen0: nat, pieceStart: nat, j: nat)
      returns (pieces: seq<Piece>, longest: nat, longestLen: nat)
    requires pieceStart < j <= |w| && forall k | pieceStart <= k < j :: w[k].Literal?
    requires PiecesOk(w, pieces0, longest0, longestLen0, pieceStart)
    ensures PiecesOk(w, pieces, longest, longestLen, j) && |pieces| == |pieces0| + 1
  {
    var p := Piece(pieceStart, LiteralBytes(w[pieceStart..j]));
    CoveredAppend(pieces0, p);
    pieces, longest, longestLen := pieces0 + [p], longest0, longestLen0;
    if |p.data| > longestLen {
      longestLen := |p.data|;
      longest := |pieces| - 1;
    }
  }

  function RunEnd(w: seq<Token>, pieceStart: int, j: nat): (done: nat)
    ensures done <= |w|
  {
    if 0 <= pieceStart < |w| then pieceStart else if j <= |w| then j else |w|
  }

  /** Second pass, one segment: the literal runs become pieces. */
  method BuildSegment(w: seq<Token>) returns (r: Option<Segment>)
    requires WildFree(w)
    ensures r.None? <==> Runs(w, |w|) > MAX_PIECES
    ensures r.Some? ==> Represents(r.value, w)
    ensures r.Some? ==> forall i | 0 <= i < |r.value.pieces| ::
              |r.value.pieces[i].data| <= |r.value.pieces[r.value.longest].data|
  {
    var pieces: seq<Piece> := [];
    var longest: nat, longestLen: nat := 0, 0;
    var pieceStart := -1;
    var j := 0;
    while j <= |w|
      invariant 0 <= j <= |w| + 1
      invariant -1 <= pieceStart < j
      invariant j == |w| + 1 ==> pieceStart == -1
      invariant pieceStart >= 0 ==> forall k | pieceStart <= k < j :: w[k].Literal?
      invariant pieceStart == -1 && 0 < j <= |w| ==> !w[j - 1].Literal?
      invariant PiecesOk(w, pieces, longest, longestLen, RunEnd(w, pieceStart, j))
      invariant |pieces| <= MAX_PIECES
      invariant |pieces| + (if pieceStart >= 0 then 1 else 0) == Runs(w, if j <= |w| then j else |w|)
    {
      var isWild := j == |w| || w[j] == Underscore;
      if !isWild && pieceStart < 0 {
        pieceStart := j;
      } else if isWild && pieceStart >= 0 {
        if |pieces| >= MAX_PIECES {
          RunsGrow(w, j, |w|);
          return None;
        }
        pieces, longest, longestLen := AddPiece(w, pieces, longest, longestLen, pieceStart, j);
        pieceStart := -1;
      }
      j := j + 1;
    }
    return Some(Segment(|w|, pieces, longest));
  }

  lemma RunsGrow(w: seq<Token>, i: nat, j: nat)
    requires i <= j <= |w|
    ensures Runs(w, i) <= Runs(w, j)
  {
  }

  lemma CoveredAppend(pieces: seq<Piece>, p: Piece)
    ensures forall j | Covered(pieces, j) :: Covered(pieces + [p], j)
    ensures forall j | p.offset <= j < p.offset + |p.data| :: Covered(pieces + [p], j)
  {
    var all := pieces + [p];
    forall j | Covered(pieces, j) ensures Covered(all, j) {
      var i :| 0 <= i < |pieces| && pieces[i].offset <= j < pieces[i].offset + |pieces[i].data|;
      assert all[i] == pieces[i];
    }
    forall j | p.offset <= j < p.offset + |p.data| ensures Covered(all, j) {
      assert all[|pieces|] == p;
    }
  }

  function LiteralBytes(w: seq<Token>): (data: seq<Byte>)
    requires forall k | 0 <= k < |w| :: w[k].Literal?
    ensures |data| == |w|
    ensures forall k | 0 <= k < |w| :: w[k] == Literal(data[k])
  {
    seq(|w|, k requires 0 <= k < |w| => w[k].ch)
  }

  /** The first n words have been built. */
  ghost predicate Built(ws: seq<seq<Token>>, segments: seq<Segment>, minLen: int) {
    && |segments| <= |ws|
    && minLen == TotalWidth(ws[..|segments|])
    && (forall s | 0 <= s < |segments| :: Represents(segments[s], ws[s]))
    && (forall s | 0 <= s < |segments| :: Runs(ws[s], |ws[s]|) <= MAX_PIECES)
  }

  lemma BuiltNext(ws: seq<seq<Token>>, segments: seq<Segment>, minLen: int, seg: Segment)
    requires Built(ws, segments, minLen) && |segments| < |ws|
    requires Represents(seg, ws[|segments|]) && Runs(ws[|segments|], |ws[|segments|]|) <= MAX_PIECES
    ensures Built(ws, segments + [seg], minLen + |ws[|segments|]|)
  {
    var n := |segments|;
    TotalWidthAppend(ws[..n], ws[n]);
    assert ws[..n + 1] == ws[..n] + [ws[n]];
  }

  /** Where the second pass stands: the words in front of segStart have been built. */
  ghost predicate BuiltUpTo(toks: seq<Token>, segStart: nat, end: nat, ws: seq<seq<Token>>,
                            segments: seq<Segment>, minLen: int)
    requires end <= |toks|
  {
    Built(ws, segments, minLen) && WordsIn(toks, segStart, end) == ws[|segments|..]
  }

  /** The end of a segment, at a '%' or at the end of the pattern. */
  method CloseSegment(toks: seq<Token>, segStart: nat, i: nat, end: nat, ghost ws: seq<seq<Token>>,
                      segments0: seq<Segment>, minLen0: nat)
      returns (ok: bool, segments: seq<Segment>, minLen: nat)
    requires segStart <= i <= end <= |toks| && forall k | segStart <= k < i :: toks[k] != Percent
    requires i == end || toks[i] == Percent
    requires BuiltUpTo(toks, segStart, end, ws, segments0, minLen0)
    ensures ok ==> BuiltUpTo(toks, i + 1, end, ws, segments, minLen)
    ensures !ok ==> exists s | 0 <= s < |ws| :: Runs(ws[s], |ws[s]|) > MAX_PIECES
  {
    segments, minLen := segments0, minLen0;
    NextWord(toks, segStart, i, end, ws, |segments|);
    if i > segStart {
      var seg := BuildSegment(toks[segStart..i]);
      if seg.None? {
        return false, segments, minLen;
      }
      BuiltNext(ws, segments, minLen, seg.value);
      minLen := minLen + (i - segStart);
      segments := segments + [seg.value];
    }
    ok := true;
  }

  /** Second pass: build every segment; None when one has too many pieces. */
  method BuildSegments(toks: seq<Token>, start: nat, end: nat) returns (r: Option<(nat, seq<Segment>)>)
    requires start <= end <= |toks|
    ensures var ws := WordsIn(toks, start, end);
            && (r.None? <==> exists s | 0 <= s < |ws| :: Runs(ws[s], |ws[s]|) > MAX_PIECES)
            && (r.Some? ==>
                  && r.value.0 == TotalWidth(ws)
                  && |r.value.1| == |ws|
                  && forall s | 0 <= s < |ws| :: Represents(r.value.1[s], ws[s]))
  {
    var segments: seq<Segment> := [];
    var minLen: nat := 0;
    var segStart := start;
    ghost var ws := WordsIn(toks, start, end);
    var i := start;
    while i <= end
      invariant start <= i <= end + 1 && start <= segStart <= i
      invariant i <= end ==> forall k | segStart <= k < i :: toks[k] != Percent
      invariant i == end + 1 ==> segStart == i
      invariant BuiltUpTo(toks, segStart, end, ws, segments, minLen)
    {
      if i == end || toks[i] == Percent {
        var ok;
        ok, segments, minLen := CloseSegment(toks, segStart, i, end, ws, segments, minLen);
        if !ok {
          return None;
        }
        segStart := i + 1;
      }
      i := i + 1;
    }
    assert ws[|segments|..] == [];
    assert ws[..|segments|] == ws;
    return Some((minLen, segments));
  }

  /** Patterns that are left to others: too many literal bytes, or a single needle.  None for
      the patterns that are compiled. */
  method Triage(anchoredStart: bool, anchoredEnd: bool, numSegments: nat, totalLiteral: nat, hasUnderscore: bool,
                ghost sh: Shape)
      returns (r: Option<CompileResult>)
    requires sh.anchoredStart == anchoredStart && sh.anchoredEnd == anchoredEnd && 0 < numSegments == |sh.words|
    requires totalLiteral == TotalLiterals(sh.words) && hasUnderscore == HasUnderscore(sh.words)
    ensures r.Some? <==> SingleNeedle(sh) || totalLiteral > MAX_ALLOC - HEADER_SIZE
    ensures r.Some? ==> r.value == if totalLiteral < 5 then UseGeneric else Declined
  {
    if totalLiteral > MAX_ALLOC - HEADER_SIZE {
      return Some(Declined);
    }
    var anchoredCount := 0;
    if anchoredStart {
      anchoredCount := anchoredCount + 1;
    }
    if anchoredEnd && numSegments > anchoredCount {
      anchoredCount := anchoredCount + 1;
    }
    var numFloating := numSegments - anchoredCount;
    if numFloating > 0 && numSegments == 1 && !hasUnderscore {
      return Some(if totalLiteral < 5 then UseGeneric else Declined);
    }
    return None;
  }

  /** simd_like_compile. */
  method Compile(pattern: seq<Byte>, singleByte: bool, utf8: bool) returns (r: CompileResult)
    ensures r.Declined? <==> Declines(pattern, singleByte, utf8)
    ensures !r.Declined? ==>
              var sh := ShapeOf(Decode(pattern).value);
              && (r.UseGeneric? <==> SingleNeedle(sh))
              && (r.Accepted? ==> CompiledFrom(r.compiled, sh))
  {
    if !singleByte && !utf8 {
      return Declined;
    }
    var decoded := DecodePattern(pattern);
    if decoded.None? {
      return Declined;
    }
    r := CompileTokens(decoded.value, singleByte);
  }

  method CompileTokens(toks: seq<Token>, singleByte: bool) returns (r: CompileResult)
    ensures var sh := ShapeOf(toks);
            && (r.Declined? <==> DeclinesShape(sh, singleByte))
            && (!r.Declined? ==> (r.UseGeneric? <==> SingleNeedle(sh)))
            && (r.Accepted? ==> CompiledFrom(r.compiled, sh))
  {
    var nchars := |toks|;
    var anchoredStart, anchoredEnd := true, true;
    var start, end := 0, nchars;
    if nchars > 0 && toks[0] == Percent {
      anchoredStart := false;
      start := 1;
    }
    if end > start && toks[end - 1] == Percent {
      anchoredEnd := false;
      end := end - 1;
    }
    ghost var sh := ShapeOf(toks);
    WordsOfSlice(toks, start, end, start);
    assert sh.words == WordsIn(toks, start, end);
    r := CompileSlice(toks, start, end, anchoredStart, anchoredEnd, singleByte, sh);
  }

  /** The pattern between its anchors. */
  method CompileSlice(toks: seq<Token>, start: nat, end: nat, anchoredStart: bool, anchoredEnd: bool,
                      singleByte: bool, ghost sh: Shape)
      returns (r: CompileResult)
    requires start <= end <= |toks| && sh == ShapeOf(toks) && sh.words == WordsIn(toks, start, end)
    requires sh.words != [] ==> sh.anchoredStart == anchoredStart && sh.anchoredEnd == anchoredEnd
    ensures r.Declined? <==> DeclinesShape(sh, singleByte)
    ensures !r.Declined? ==> (r.UseGeneric? <==> SingleNeedle(sh))
    ensures r.Accepted? ==> CompiledFrom(r.compiled, sh)
  {
    var nchars := |toks|;
    var numSegments, totalLiteral, hasUnderscore := CountSegments(toks, start, end);
    if numSegments > MAX_SEGMENTS {
      return Declined;
    }
    if hasUnderscore && !singleByte {
      return Declined;
    }
    if numSegments == 0 {
      var matchAll := nchars > 0;
      return Accepted(Compiled(0, !matchAll, !matchAll, []));
    }
    var decided := Triage(anchoredStart, anchoredEnd, numSegments, totalLiteral, hasUnderscore, sh);
    if decided.Some? {
      return decided.value;
    }
    var built := BuildSegments(toks, start, end);
    if built.None? {
      return Declined;
    }
    return Accepted(Compiled(built.value.0, anchoredStart, anchoredEnd, built.value.1));
  }
}
