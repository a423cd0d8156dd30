/** The segment matcher (simd_like_match_compiled), what exactly it accepts, and for
    which patterns that is LIKE. */
module LikeMatch {
  import opened LikePattern
  import opened LikeWords
  import opened LikeSegments

  // ---- What the floating phase accepts ----

  /** Like Placed, except that the limit jumps to the end of the text behind every word
      that holds a literal: the matcher then recomputes the remaining length from the
      whole text and forgets the end-anchored word. */
  ghost predicate Scanned(text: seq<Byte>, pos: int, lim: int, ws: seq<seq<Token>>)
    decreases |ws|
  {
    && pos <= lim
    && (ws == [] ||
        exists j: int :: pos <= j && j + |ws[0]| <= lim && WordAt(text, j, ws[0]) &&
                         Scanned(text, j + |ws[0]|, LimitAfter(text, lim, ws[0]), ws[1..]))
  }

  function LimitAfter(text: seq<Byte>, lim: int, w: seq<Token>): int {
    if HasLiteral(w) then |text| else lim
  }

  ghost predicate Accepts(sh: Shape, text: seq<Byte>) {
    && TotalWidth(sh.words) <= |text|
    && if sh.words == [] then !sh.anchoredStart || text == []
       else sh.EndsPinned(text) && Scanned(text, sh.Start(), sh.End(text), sh.Floating())
  }

  /** Exchange argument: an earlier start and a later limit only help. */
  lemma {:induction false} ScannedWider(text: seq<Byte>, pos: int, pos': int, lim: int, lim': int, ws: seq<seq<Token>>)
    requires pos <= pos' && lim' <= lim <= |text| && Scanned(text, pos', lim', ws)
    ensures Scanned(text, pos, lim, ws)
    decreases |ws|
  {
    if ws != [] {
      var j: int :| pos' <= j && j + |ws[0]| <= lim' && WordAt(text, j, ws[0]) &&
                    Scanned(text, j + |ws[0]|, LimitAfter(text, lim', ws[0]), ws[1..]);
      ScannedWider(text, j + |ws[0]|, j + |ws[0]|, LimitAfter(text, lim, ws[0]), LimitAfter(text, lim', ws[0]),
                   ws[1..]);
      assert pos <= j && j + |ws[0]| <= lim && WordAt(text, j, ws[0]) &&
             Scanned(text, j + |ws[0]|, LimitAfter(text, lim, ws[0]), ws[1..]);
    }
  }

  /** A word of underscores fits wherever there is room: the leftmost place suffices. */
  lemma ScanUnderscores(text: seq<Byte>, pos: int, lim: int, ws: seq<seq<Token>>)
    requires 0 <= pos <= lim <= |text| && ws != [] && !HasLiteral(ws[0]) && WildFree(ws[0])
    ensures Scanned(text, pos, lim, ws) <==> pos + |ws[0]| <= lim && Scanned(text, pos + |ws[0]|, lim, ws[1..])
  {
    var w := ws[0];
    if Scanned(text, pos, lim, ws) {
      var j: int :| pos <= j && j + |ws[0]| <= lim && WordAt(text, j, ws[0]) &&
                    Scanned(text, j + |ws[0]|, LimitAfter(text, lim, ws[0]), ws[1..]);
      ScannedWider(text, pos + |w|, j + |w|, lim, lim, ws[1..]);
    }
    if pos + |w| <= lim && Scanned(text, pos + |w|, lim, ws[1..]) {
      forall k | 0 <= k < |w| ensures Fits(w[k], text[pos + k]) {
        assert w[k] != Percent && !w[k].Literal?;
      }
      assert pos + |ws[0]| <= lim && WordAt(text, pos, ws[0]) &&
             Scanned(text, pos + |ws[0]|, LimitAfter(text, lim, ws[0]), ws[1..]);
    }
  }

  /** A word with a literal: its leftmost occurrence suffices. */
  lemma ScanLeftmost(text: seq<Byte>, pos: int, lim: int, ws: seq<seq<Token>>, j: int)
    requires 0 <= pos <= lim <= |text| && ws != [] && HasLiteral(ws[0])
    requires pos <= j && j + |ws[0]| <= lim && WordAt(text, j, ws[0])
    requires forall i: int | pos <= i < j :: !WordAt(text, i, ws[0])
    ensures Scanned(text, pos, lim, ws) <==> Scanned(text, j + |ws[0]|, |text|, ws[1..])
  {
    if Scanned(text, pos, lim, ws) {
      var i: int :| pos <= i && i + |ws[0]| <= lim && WordAt(text, i, ws[0]) &&
                    Scanned(text, i + |ws[0]|, LimitAfter(text, lim, ws[0]), ws[1..]);
      ScannedWider(text, j + |ws[0]|, i + |ws[0]|, |text|, |text|, ws[1..]);
    }
    if Scanned(text, j + |ws[0]|, |text|, ws[1..]) {
      assert pos <= j && j + |ws[0]| <= lim && WordAt(text, j, ws[0]) &&
             Scanned(text, j + |ws[0]|, LimitAfter(text, lim, ws[0]), ws[1..]);
    }
  }

  // ---- The matcher ----

  ghost predicate PieceAt(p: Piece, data: seq<Byte>, pos: int) {
    && 0 <= pos
    && pos + p.offset + |p.data| <= |data|
    && forall b | 0 <= b < |p.data| :: data[pos + p.offset + b] == p.data[b]
  }

  lemma PiecesAreWord(seg: Segment, w: seq<Token>, data: seq<Byte>, pos: int)
    requires Represents(seg, w) && WildFree(w)
    requires 0 <= pos && pos + |w| <= |data|
    ensures WordAt(data, pos, w) <==>
            forall i | 0 <= i < |seg.pieces| :: PieceAt(seg.pieces[i], data, pos)
  {
    if WordAt(data, pos, w) {
      forall i | 0 <= i < |seg.pieces| ensures PieceAt(seg.pieces[i], data, pos) {
        var p := seg.pieces[i];
        assert PieceOf(p, w);
        forall b | 0 <= b < |p.data| ensures data[pos + p.offset + b] == p.data[b] {
          assert Fits(w[p.offset + b], data[pos + (p.offset + b)]);
        }
      }
    }
    if forall i | 0 <= i < |seg.pieces| :: PieceAt(seg.pieces[i], data, pos) {
      forall k | 0 <= k < |w| ensures Fits(w[k], data[pos + k]) {
        if w[k].Literal? {
          assert Covered(seg.pieces, k);
          var i :| 0 <= i < |seg.pieces| && seg.pieces[i].offset <= k < seg.pieces[i].offset + |seg.pieces[i].data|;
          var p := seg.pieces[i];
          assert PieceOf(p, w) && PieceAt(p, data, pos);
          assert w[p.offset + (k - p.offset)] == Literal(p.data[k - p.offset]);
          assert data[pos + p.offset + (k - p.offset)] == p.data[k - p.offset];
        }
      }
    }
  }

  /** Compare the bytes of a piece from index `from` on. */
  method ComparePiece(p: Piece, data: seq<Byte>, pos: nat, from: nat) returns (ok: bool)
    requires pos + p.offset + |p.data| <= |data|
    requires from <= |p.data| && forall b | 0 <= b < from :: data[pos + p.offset + b] == p.data[b]
    ensures ok <==> PieceAt(p, data, pos)
  {
    var b := from;
    while b < |p.data|
      invariant from <= b <= |p.data|
      invariant forall i | 0 <= i < b :: data[pos + p.offset + i] == p.data[i]
    {
      if data[pos + p.offset + b] != p.data[b] {
        return false;
      }
      b := b + 1;
    }
    return true;
  }

  /** All pieces of a segment, except one that was compared already (skip == |pieces| for none). */
  method ComparePieces(seg: Segment, data: seq<Byte>, pos: nat, skip: nat, ghost w: seq<Token>) returns (ok: bool)
    requires Represents(seg, w) && WildFree(w) && pos + |w| <= |data|
    requires skip < |seg.pieces| ==> PieceAt(seg.pieces[skip], data, pos)
    ensures ok <==> WordAt(data, pos, w)
  {
    PiecesAreWord(seg, w, data, pos);
    var i := 0;
    while i < |seg.pieces|
      invariant 0 <= i <= |seg.pieces|
      invariant forall k | 0 <= k < i :: PieceAt(seg.pieces[k], data, pos)
    {
      if i != skip {
        assert PieceOf(seg.pieces[i], w);
        var same := ComparePiece(seg.pieces[i], data, pos, 0);
        if !same {
          return false;
        }
      }
      i := i + 1;
    }
    return true;
  }

  /** memchr over data[from..=to]; -1 when the byte does not occur. */
  method FindByte(data: seq<Byte>, from: nat, to: int, b: Byte) returns (hit: int)
    requires to < |data|
    ensures hit == -1 || from <= hit <= to
    ensures hit != -1 ==> data[hit] == b
    ensures forall i | from <= i < (if hit == -1 then to + 1 else hit) :: data[i] != b
  {
    hit := from;
    while hit <= to
      invariant from <= hit
      invariant forall i | from <= i < hit && i <= to :: data[i] != b
    {
      if data[hit] == b {
        return;
      }
      hit := hit + 1;
    }
    hit := -1;
  }

  /** The leftmost place of a segment in data[pos..], starting no later than maxPos. */
  method FindSegment(seg: Segment, data: seq<Byte>, pos: nat, maxPos: int, ghost w: seq<Token>) returns (found: int)
    requires Represents(seg, w) && WildFree(w) && seg.pieces != []
    requires maxPos + |w| <= |data|
    ensures found == -1 || (pos <= found <= maxPos && WordAt(data, found, w))
    ensures forall i: int | pos <= i < (if found == -1 then maxPos + 1 else found) :: !WordAt(data, i, w)
  {
    var anchor := seg.pieces[seg.longest];
    assert PieceOf(anchor, w);
    assert w[anchor.offset + 0] == Literal(anchor.data[0]);
    var scan := pos + anchor.offset;
    var scanEnd := maxPos + anchor.offset;
    while scan <= scanEnd
      invariant pos + anchor.offset <= scan
      invariant forall i: int | pos <= i < scan - anchor.offset && i <= maxPos :: !WordAt(data, i, w)
      decreases scanEnd - scan
    {
      var hit := FindByte(data, scan, scanEnd, anchor.data[0]);
      forall i: int | scan - anchor.offset <= i < (if hit == -1 then scanEnd + 1 else hit) - anchor.offset
        ensures !WordAt(data, i, w)
      {
        assert !Fits(w[anchor.offset], data[i + anchor.offset]);
      }
      if hit == -1 {
        return -1;
      }
      var segPos := hit - anchor.offset;
      var same := ComparePiece(anchor, data, segPos, 1);
      if same {
        var all := ComparePieces(seg, data, segPos, seg.longest, w);
        if all {
          return segPos;
        }
      } else {
        PiecesAreWord(seg, w, data, segPos);
      }
      scan := hit + 1;
    }
    return -1;
  }

  lemma LiteralPieces(seg: Segment, w: seq<Token>)
    requires Represents(seg, w) && WildFree(w)
    ensures seg.pieces != [] <==> HasLiteral(w)
  {
    if seg.pieces != [] {
      var p := seg.pieces[0];
      assert PieceOf(p, w);
      assert w[p.offset + 0] == Literal(p.data[0]);
    }
    if k :| 0 <= k < |w| && w[k].Literal? {
      assert Covered(seg.pieces, k);
    }
  }

  /** The floating segments, from position pos with `remaining` bytes left for them. */
  method MatchFloating(segments: seq<Segment>, data: seq<Byte>, pos0: nat, remaining0: nat, ghost ws: seq<seq<Token>>)
      returns (ok: bool)
    requires |segments| == |ws| && forall s | 0 <= s < |ws| :: Represents(segments[s], ws[s]) && WildFree(ws[s])
    requires pos0 + remaining0 <= |data|
    ensures ok <==> Scanned(data, pos0, pos0 + remaining0, ws)
  {
    var pos, remaining := pos0, remaining0;
    var s := 0;
    while s < |segments|
      invariant 0 <= s <= |segments|
      invariant 0 <= pos && 0 <= remaining && pos + remaining <= |data|
      invariant Scanned(data, pos0, pos0 + remaining0, ws) <==> Scanned(data, pos, pos + remaining, ws[s..])
    {
      var seg := segments[s];
      ghost var w := ws[s];
      ghost var rest := ws[s..];
      assert rest[0] == w && rest[1..] == ws[s + 1..] && Represents(seg, w);
      LiteralPieces(seg, w);
      if remaining < seg.width {
        return false;
      }
      if seg.pieces == [] {
        ScanUnderscores(data, pos, pos + remaining, rest);
        pos := pos + seg.width;
        remaining := remaining - seg.width;
      } else {
        var maxPos := pos + remaining - seg.width;
        var found := FindSegment(seg, data, pos, maxPos, w);
        if found == -1 {
          return false;
        }
        ScanLeftmost(data, pos, pos + remaining, rest, found);
        pos := found + seg.width;
        remaining := |data| - pos;
      }
      s := s + 1;
    }
    assert ws[s..] == [];
    return true;
  }

  /** simd_like_match_compiled. */
  method MatchCompiled(c: Compiled, data: seq<Byte>, ghost sh: Shape) returns (matched: bool)
    requires sh.Valid() && CompiledFrom(c, sh)
    ensures matched <==> Accepts(sh, data)
  {
    if |data| < c.minLen {
      return false;
    }
    if |c.segments| == 0 {
      return (!c.anchoredStart && !c.anchoredEnd) || |data| == 0;
    }
    var pos := 0;
    var remaining := |data|;
    var firstSeg, lastSeg := 0, |c.segments|;
    if c.anchoredStart {
      var seg := c.segments[0];
      assert Represents(seg, sh.words[0]);
      if remaining < seg.width {
        return false;
      }
      var same := ComparePieces(seg, data, 0, |seg.pieces|, sh.words[0]);
      if !same {
        return false;
      }
      pos := pos + seg.width;
      remaining := remaining - seg.width;
      firstSeg := 1;
    }
    if c.anchoredEnd && lastSeg > firstSeg {
      var seg := c.segments[lastSeg - 1];
      assert Represents(seg, sh.words[lastSeg - 1]);
      if remaining < seg.width {
        return false;
      }
      var endPos := |data| - seg.width;
      if endPos < pos {
        return false;
      }
      var same := ComparePieces(seg, data, endPos, |seg.pieces|, sh.words[lastSeg - 1]);
      if !same {
        return false;
      }
      remaining := remaining - seg.width;
      lastSeg := lastSeg - 1;
    }
    assert pos == sh.Start() && pos + remaining == sh.End(data);
    assert firstSeg == sh.First() && lastSeg == sh.Last();
    var floating := MatchFloating(c.segments[firstSeg..lastSeg], data, pos, remaining, sh.Floating());
    if !floating {
      return false;
    }
    if c.anchoredEnd && lastSeg == |c.segments| && pos != |data| {
      return false;
    }
    return true;
  }
}
