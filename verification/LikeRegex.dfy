/** The other LIKE compiler: translation to a regular expression (like_to_regex), read
    with search semantics. */
module LikeRegex {
  import opened LikePattern
  import opened LikeWords
  import opened Wrappers

  const CARET: Byte := 94
  const DOT: Byte := 46
  const STAR: Byte := 42
  const LOWER_Z: Byte := 122
  const MAX_ALLOC := 0x3fff_ffff
  const TOKEN_SIZE := 8

  // ---- The regular expressions the translation produces ----

  /** StartText is '^', EndText is '\z', AnyByte is '.', AnyRun is '.*'; with dot-all, '.'
      is any byte. */
  datatype Atom = StartText | EndText | AnyByte | AnyRun | Exactly(b: Byte)

  predicate IsMeta(c: Byte) {
    || c == DOT || c == 43 || c == STAR || c == 63
    || c == 91 || c == 93 || c == 40 || c == 41
    || c == 123 || c == 125 || c == CARET || c == 36
    || c == 124 || c == BACKSLASH
  }

  /** Reading a regular expression of this fragment; None outside it. */
  function Parse(r: seq<Byte>): Option<seq<Atom>> {
    if r == [] then Some([])
    else if r[0] == CARET then Cons(StartText, Parse(r[1..]))
    else if r[0] == BACKSLASH then
      if |r| < 2 then None
      else if r[1] == LOWER_Z then Cons(EndText, Parse(r[2..]))
      else if IsMeta(r[1]) then Cons(Exactly(r[1]), Parse(r[2..]))
      else None
    else if r[0] == DOT then
      if |r| >= 2 && r[1] == STAR then Cons(AnyRun, Parse(r[2..])) else Cons(AnyByte, Parse(r[1..]))
    else if IsMeta(r[0]) then None
    else Cons(Exactly(r[0]), Parse(r[1..]))
  }

  function Cons(a: Atom, rest: Option<seq<Atom>>): Option<seq<Atom>> {
    match rest
    case None => None
    case Some(atoms) => Some([a] + atoms)
  }

  /** The atoms match some stretch of the text that starts at pos. */
  ghost predicate AtomsMatch(text: seq<Byte>, pos: int, atoms: seq<Atom>)
    decreases |atoms|
  {
    && 0 <= pos <= |text|
    && (atoms == [] ||
        match atoms[0]
        case StartText => pos == 0 && AtomsMatch(text, pos, atoms[1..])
        case EndText => pos == |text| && AtomsMatch(text, pos, atoms[1..])
        case AnyByte => AtomsMatch(text, pos + 1, atoms[1..])
        case AnyRun => exists j: int :: pos <= j && AtomsMatch(text, j, atoms[1..])
        case Exactly(b) => pos < |text| && text[pos] == b && AtomsMatch(text, pos + 1, atoms[1..]))
  }

  /** An unanchored search succeeds. */
  ghost predicate Search(text: seq<Byte>, atoms: seq<Atom>) {
    exists pos: int :: AtomsMatch(text, pos, atoms)
  }

  // ---- The translation of decoded tokens ----

  function AtomOf(tok: Token): Atom {
    match tok
    case Percent => AnyRun
    case Underscore => AnyByte
    case Literal(c) => Exactly(c)
  }

  function AtomsOf(toks: seq<Token>): seq<Atom> {
    seq(|toks|, i requires 0 <= i < |toks| => AtomOf(toks[i]))
  }

  function TokenBytes(tok: Token): seq<Byte> {
    match tok
    case Percent => [DOT, STAR]
    case Underscore => [DOT]
    case Literal(c) => if IsMeta(c) then [BACKSLASH, c] else [c]
  }

  function MiddleBytes(toks: seq<Token>): (r: seq<Byte>)
    ensures |r| <= 2 * |toks|
  {
    if toks == [] then [] else MiddleBytes(toks[..|toks| - 1]) + TokenBytes(toks[|toks| - 1])
  }

  /** Index of the first token that is not '%'. */
  function SkipPercents(toks: seq<Token>, i: nat): (n: nat)
    requires i <= |toks|
    ensures i <= n <= |toks|
    decreases |toks| - i
  {
    if i < |toks| && toks[i] == Percent then SkipPercents(toks, i + 1) else i
  }

  /** One past the last token at or after low that is not '%'. */
  function DropPercents(toks: seq<Token>, low: nat, end: nat): (n: nat)
    requires low <= end <= |toks|
    ensures low <= n <= end
    decreases end
  {
    if low < end && toks[end - 1] == Percent then DropPercents(toks, low, end - 1) else end
  }

  function RegexOf(toks: seq<Token>): seq<Byte> {
    var start := SkipPercents(toks, 0);
    var end := DropPercents(toks, start, |toks|);
    (if start == 0 then [CARET] else []) + MiddleBytes(toks[start..end]) +
    EndingBytes(end == |toks|)
  }

  function RegexAtoms(toks: seq<Token>): seq<Atom> {
    var start := SkipPercents(toks, 0);
    var end := DropPercents(toks, start, |toks|);
    (if start == 0 then [StartText] else []) + (AtomsOf(toks[start..end]) + Ending(end == |toks|))
  }

  function Ending(anchoredEnd: bool): seq<Atom> {
    if anchoredEnd then [EndText] else []
  }

  // ---- Reading back what was written ----

  lemma {:induction false} MiddleBytesCons(toks: seq<Token>)
    requires toks != []
    ensures MiddleBytes(toks) == TokenBytes(toks[0]) + MiddleBytes(toks[1..])
    decreases |toks|
  {
    if |toks| > 1 {
      var front := toks[..|toks| - 1];
      MiddleBytesCons(front);
      assert front[1..] == toks[1..][..|toks| - 2];
      assert toks[1..][|toks| - 2] == toks[|toks| - 1];
    }
  }

  lemma ParseToken(tok: Token, rest: seq<Byte>, atoms: seq<Atom>)
    requires rest == [] || rest[0] != STAR
    requires Parse(rest) == Some(atoms)
    ensures Parse(TokenBytes(tok) + rest) == Some([AtomOf(tok)] + atoms)
  {
    var r := TokenBytes(tok) + rest;
    assert r[|TokenBytes(tok)|..] == rest;
  }

  lemma AtomsOfCons(toks: seq<Token>)
    requires toks != []
    ensures AtomsOf(toks) == [AtomOf(toks[0])] + AtomsOf(toks[1..])
  {
  }

  /** One token in front of bytes that read back already. */
  lemma ParseNext(toks: seq<Token>, rest: seq<Byte>, atoms: seq<Atom>)
    requires toks != []
    requires var inner := MiddleBytes(toks[1..]) + rest;
             Parse(inner) == Some(AtomsOf(toks[1..]) + atoms) && (inner == [] || inner[0] != STAR)
    ensures Parse(MiddleBytes(toks) + rest) == Some(AtomsOf(toks) + atoms)
    ensures MiddleBytes(toks) + rest == TokenBytes(toks[0]) + (MiddleBytes(toks[1..]) + rest)
  {
    MiddleBytesCons(toks);
    Regroup(TokenBytes(toks[0]), MiddleBytes(toks[1..]), rest);
    ParseToken(toks[0], MiddleBytes(toks[1..]) + rest, AtomsOf(toks[1..]) + atoms);
    AtomsOfCons(toks);
    Regroup([AtomOf(toks[0])], AtomsOf(toks[1..]), atoms);
  }

  lemma {:induction false} ParseMiddle(toks: seq<Token>, rest: seq<Byte>, atoms: seq<Atom>)
    requires Parse(rest) == Some(atoms) && (rest == [] || rest[0] != STAR)
    ensures Parse(MiddleBytes(toks) + rest) == Some(AtomsOf(toks) + atoms)
    ensures MiddleBytes(toks) + rest == [] || (MiddleBytes(toks) + rest)[0] != STAR
    decreases |toks|
  {
    if toks == [] {
      assert MiddleBytes(toks) + rest == rest;
      assert AtomsOf(toks) + atoms == atoms;
    } else {
      ParseMiddle(toks[1..], rest, atoms);
      ParseNext(toks, rest, atoms);
    }
  }

  function EndingBytes(anchoredEnd: bool): seq<Byte> {
    if anchoredEnd then [BACKSLASH, LOWER_Z] else []
  }

  lemma ParseEnding(anchoredEnd: bool)
    ensures Parse(EndingBytes(anchoredEnd)) == Some(Ending(anchoredEnd))
  {
    if anchoredEnd {
      assert EndingBytes(true)[2..] == [];
      assert [EndText] + [] == [EndText];
    }
  }

  /** The written bytes read back as the atoms of the tokens. */
  lemma ParseRegex(toks: seq<Token>)
    ensures Parse(RegexOf(toks)) == Some(RegexAtoms(toks))
  {
    var start := SkipPercents(toks, 0);
    var end := DropPercents(toks, start, |toks|);
    var ending := EndingBytes(end == |toks|);
    ParseEnding(end == |toks|);
    ParseMiddle(toks[start..end], ending, Ending(end == |toks|));
    var inner := MiddleBytes(toks[start..end]) + ending;
    var atoms := AtomsOf(toks[start..end]) + Ending(end == |toks|);
    if start == 0 {
      Regroup([CARET], MiddleBytes(toks[start..end]), ending);
    } else {
      assert [] + inner == inner && [] + atoms == atoms;
      Regroup([], MiddleBytes(toks[start..end]), ending);
    }
  }

  // ---- Meaning ----

  lemma ConsToken(text: seq<Byte>, pos: int, tok: Token, rest: seq<Token>)
    requires tok != Percent
    ensures LikeFrom(text, pos, [tok] + rest) <==>
            0 <= pos < |text| && Fits(tok, text[pos]) && LikeFrom(text, pos + 1, rest)
  {
    WordThenRest(text, pos, [tok], rest);
    if WordAt(text, pos, [tok]) {
      assert Fits([tok][0], text[pos + 0]);
    }
  }

  lemma {:induction false} MiddleMeaning(text: seq<Byte>, pos: int, toks: seq<Token>, anchoredEnd: bool)
    ensures AtomsMatch(text, pos, AtomsOf(toks) + Ending(anchoredEnd)) <==>
            LikeFrom(text, pos, toks + Tail(anchoredEnd))
    decreases |toks|
  {
    var atoms := AtomsOf(toks) + Ending(anchoredEnd);
    if toks == [] {
      assert atoms == Ending(anchoredEnd) && toks + Tail(anchoredEnd) == Tail(anchoredEnd);
      TailMatches(text, pos, anchoredEnd);
    } else {
      var rest := toks[1..] + Tail(anchoredEnd);
      assert toks + Tail(anchoredEnd) == [toks[0]] + rest;
      assert atoms[0] == AtomOf(toks[0]);
      assert atoms[1..] == AtomsOf(toks[1..]) + Ending(anchoredEnd);
      if toks[0] == Percent {
        forall j: int | pos <= j
          ensures AtomsMatch(text, j, atoms[1..]) <==> LikeFrom(text, j, rest)
        {
          MiddleMeaning(text, j, toks[1..], anchoredEnd);
        }
        if 0 <= pos <= |text| {
          PercentThenRest(text, pos, rest);
        }
      } else {
        ConsToken(text, pos, toks[0], rest);
        MiddleMeaning(text, pos + 1, toks[1..], anchoredEnd);
      }
    }
  }

  lemma {:induction false} LeadingPercents(text: seq<Byte>, toks: seq<Token>, i: nat, start: nat, rest: seq<Token>)
    requires i < start <= |toks| && SkipPercents(toks, i) == start
    ensures LikeFrom(text, 0, toks[i..start] + rest) <==> exists pos: int :: 0 <= pos && LikeFrom(text, pos, rest)
    decreases start - i
  {
    var inner := toks[i + 1..start] + rest;
    assert toks[i..start] + rest == [Percent] + inner;
    PercentThenRest(text, 0, inner);
    AnywhereAfter(text, toks, i + 1, start, rest);
  }

  lemma {:induction false} AnywhereAfter(text: seq<Byte>, toks: seq<Token>, i: nat, start: nat, rest: seq<Token>)
    requires i <= start <= |toks| && SkipPercents(toks, i) == start
    ensures (exists pos: int :: 0 <= pos && LikeFrom(text, pos, toks[i..start] + rest)) <==>
            exists pos: int :: 0 <= pos && LikeFrom(text, pos, rest)
    decreases start - i
  {
    if i == start {
      assert toks[i..start] + rest == rest;
    } else {
      var inner := toks[i + 1..start] + rest;
      assert toks[i..start] + rest == [Percent] + inner;
      AnywhereAfter(text, toks, i + 1, start, rest);
      if pos: int :| 0 <= pos && LikeFrom(text, pos, [Percent] + inner) {
        PercentThenRest(text, pos, inner);
        var j: int :| pos <= j && LikeFrom(text, j, inner);
        assert 0 <= j && LikeFrom(text, j, inner);
      }
      if pos: int :| 0 <= pos && LikeFrom(text, pos, inner) {
        PercentThenRest(text, pos, inner);
        assert pos <= pos && LikeFrom(text, pos, inner);
        assert 0 <= pos && LikeFrom(text, pos, [Percent] + inner);
      }
    }
  }

  lemma {:induction false} TrailingPercents(text: seq<Byte>, pos: int, toks: seq<Token>, low: nat, end: nat)
    requires low <= end <= |toks| && DropPercents(toks, low, |toks|) == end
    ensures LikeFrom(text, pos, toks[low..]) <==> LikeFrom(text, pos, toks[low..end] + Tail(end == |toks|))
    decreases end - low
  {
    if low == end {
      OnlyPercents(text, pos, toks, low);
    } else {
      var rest := toks[low + 1..];
      var rest' := toks[low + 1..end] + Tail(end == |toks|);
      DropFromLater(toks, low, |toks|);
      assert toks[low..] == [toks[low]] + rest;
      assert toks[low..end] + Tail(end == |toks|) == [toks[low]] + rest';
      forall j: int ensures LikeFrom(text, j, rest) <==> LikeFrom(text, j, rest') {
        TrailingPercents(text, j, toks, low + 1, end);
      }
      if toks[low] == Percent {
        if 0 <= pos <= |text| {
          PercentThenRest(text, pos, rest);
          PercentThenRest(text, pos, rest');
        }
      } else {
        ConsToken(text, pos, toks[low], rest);
        ConsToken(text, pos, toks[low], rest');
      }
    }
  }

  lemma {:induction false} DropFromLater(toks: seq<Token>, low: nat, end: nat)
    requires low <= end <= |toks| && low < DropPercents(toks, low, end)
    ensures DropPercents(toks, low + 1, end) == DropPercents(toks, low, end)
    decreases end
  {
    if toks[end - 1] == Percent {
      DropFromLater(toks, low, end - 1);
    }
  }

  /** Nothing but '%' from low on: no tokens at all, or any rest of the text. */
  lemma {:induction false} OnlyPercents(text: seq<Byte>, pos: int, toks: seq<Token>, low: nat)
    requires low <= |toks| && DropPercents(toks, low, |toks|) == low
    ensures LikeFrom(text, pos, toks[low..]) <==> LikeFrom(text, pos, toks[low..low] + Tail(low == |toks|))
    decreases |toks| - low
  {
    if low < |toks| {
      AllPercents(toks, low, |toks|, low);
      assert toks[low..low] + Tail(false) == [Percent];
      TailMatches(text, pos, false);
      PercentsMatchAll(text, pos, toks, low);
    } else {
      assert toks[low..] == [] == toks[low..low] + Tail(true);
    }
  }

  lemma {:induction false} AllPercents(toks: seq<Token>, low: nat, end: nat, i: nat)
    requires low <= i < end <= |toks| && DropPercents(toks, low, end) == low
    ensures toks[i] == Percent
    decreases end
  {
    if i < end - 1 {
      AllPercents(toks, low, end - 1, i);
    }
  }

  lemma {:induction false} PercentsMatchAll(text: seq<Byte>, pos: int, toks: seq<Token>, low: nat)
    requires low < |toks| && DropPercents(toks, low, |toks|) == low
    ensures LikeFrom(text, pos, toks[low..]) <==> 0 <= pos <= |text|
    decreases |toks| - low
  {
    AllPercents(toks, low, |toks|, low);
    var rest := toks[low + 1..];
    assert toks[low..] == [Percent] + rest;
    if 0 <= pos <= |text| {
      PercentThenRest(text, pos, rest);
      if low + 1 == |toks| {
        assert rest == [];
      } else {
        DropsAll(toks, low, |toks|);
        PercentsMatchAll(text, |text|, toks, low + 1);
      }
      assert pos <= |text| && LikeFrom(text, |text|, rest);
    }
  }

  lemma {:induction false} DropsAll(toks: seq<Token>, low: nat, end: nat)
    requires low < end <= |toks| && DropPercents(toks, low, end) == low
    ensures DropPercents(toks, low + 1, end) == low + 1
    decreases end
  {
    if low + 1 < end {
      DropsAll(toks, low, end - 1);
    }
  }

  /** The regular expression accepts exactly the texts the tokens match. */
  lemma RegexMeaning(text: seq<Byte>, toks: seq<Token>)
    ensures Search(text, RegexAtoms(toks)) <==> TokensLike(text, toks)
  {
    var start := SkipPercents(toks, 0);
    var end := DropPercents(toks, start, |toks|);
    var body := AtomsOf(toks[start..end]) + Ending(end == |toks|);
    forall pos: int ensures AtomsMatch(text, pos, body) <==> LikeFrom(text, pos, toks[start..]) {
      MiddleMeaning(text, pos, toks[start..end], end == |toks|);
      TrailingPercents(text, pos, toks, start, end);
    }
    assert text[0..] == text;
    if start == 0 {
      StartOnly(text, body);
      assert toks[0..] == toks;
      assert RegexAtoms(toks) == [StartText] + body;
    } else {
      assert RegexAtoms(toks) == body;
      LeadingPercents(text, toks, 0, start, toks[start..]);
      assert toks[0..start] + toks[start..] == toks;
    }
  }

  lemma StartOnly(text: seq<Byte>, body: seq<Atom>)
    ensures Search(text, [StartText] + body) <==> AtomsMatch(text, 0, body)
  {
    assert ([StartText] + body)[1..] == body;
    if AtomsMatch(text, 0, body) {
      assert AtomsMatch(text, 0, [StartText] + body);
    }
  }

  // ---- The writer ----

  /** Append the bytes of one token at pos. */
  method WriteToken(buf: array<Byte>, pos: nat, tok: Token) returns (pos': nat)
    requires pos + 2 <= buf.Length
    modifies buf
    ensures pos' == pos + |TokenBytes(tok)|
    ensures buf[..pos'] == old(buf[..pos]) + TokenBytes(tok)
  {
    pos' := pos;
    match tok
    case Percent =>
      buf[pos'] := DOT;
      buf[pos' + 1] := STAR;
      pos' := pos' + 2;
    case Underscore =>
      buf[pos'] := DOT;
      pos' := pos' + 1;
    case Literal(c) =>
      if IsMeta(c) {
        buf[pos'] := BACKSLASH;
        pos' := pos' + 1;
      }
      buf[pos'] := c;
      pos' := pos' + 1;
  }

  /** Append the bytes of a run of tokens at pos. */
  lemma MiddleBytesSnoc(toks: seq<Token>, i: nat)
    requires i < |toks|
    ensures MiddleBytes(toks[..i + 1]) == MiddleBytes(toks[..i]) + TokenBytes(toks[i])
  {
    assert toks[..i + 1][..i] == toks[..i];
  }

  method WriteMiddle(buf: array<Byte>, pos0: nat, toks: seq<Token>) returns (pos: nat)
    requires pos0 + 2 * |toks| <= buf.Length
    modifies buf
    ensures pos == pos0 + |MiddleBytes(toks)|
    ensures buf[..pos] == old(buf[..pos0]) + MiddleBytes(toks)
  {
    pos := pos0;
    ghost var head := buf[..pos0];
    var i := 0;
    while i < |toks|
      invariant 0 <= i <= |toks|
      invariant pos == pos0 + |MiddleBytes(toks[..i])|
      invariant buf[..pos] == head + MiddleBytes(toks[..i])
    {
      pos := WriteToken(buf, pos, toks[i]);
      MiddleBytesSnoc(toks, i);
      Regroup(head, MiddleBytes(toks[..i]), TokenBytes(toks[i]));
      i := i + 1;
    }
    assert toks[..i] == toks;
  }

  /** Strip the unescaped '%' from both ends. */
  method StripPercents(toks: seq<Token>) returns (start: nat, end: nat)
    ensures start == SkipPercents(toks, 0)
    ensures end == DropPercents(toks, start, |toks|)
    ensures start <= end <= |toks|
  {
    start, end := 0, |toks|;
    while start < end && toks[start] == Percent
      invariant 0 <= start <= end
      invariant SkipPercents(toks, 0) == SkipPercents(toks, start)
    {
      start := start + 1;
    }
    while end > start && toks[end - 1] == Percent
      invariant start <= end <= |toks|
      invariant DropPercents(toks, start, |toks|) == DropPercents(toks, start, end)
    {
      end := end - 1;
    }
  }

  /** Write the whole expression into a buffer of 2 * length + 4 bytes, final NUL included. */
  method WriteRegex(buf: array<Byte>, toks: seq<Token>) returns (pos: nat)
    requires 2 * |toks| + 4 <= buf.Length
    modifies buf
    ensures pos < buf.Length
    ensures buf[..pos] == RegexOf(toks)
  {
    var start, end := StripPercents(toks);
    pos := 0;
    if start == 0 {
      buf[pos] := CARET;
      pos := pos + 1;
    }
    assert buf[..pos] == if start == 0 then [CARET] else [];
    pos := WriteMiddle(buf, pos, toks[start..end]);
    ghost var front := buf[..pos];
    if end == |toks| {
      buf[pos] := BACKSLASH;
      buf[pos + 1] := LOWER_Z;
      pos := pos + 2;
    }
    assert buf[..pos] == front + EndingBytes(end == |toks|);
    buf[pos] := 0;
  }

  /** like_to_regex: None for a dangling escape and for patterns whose buffers would be too
      large to allocate; otherwise a regular expression for the same language. */
  method LikeToRegex(pattern: seq<Byte>) returns (r: Option<seq<Byte>>)
    ensures r.None? <==> Decode(pattern).None? || |pattern| > 134217727
    ensures r.Some? ==>
              && |r.value| <= 2 * |pattern| + 3
              && r.value == RegexOf(Decode(pattern).value)
              && Parse(r.value).Some?
              && forall text: seq<Byte> :: Search(text, Parse(r.value).value) <==> Like(text, pattern)
  {
    if |pattern| > (MAX_ALLOC - 4) / 2 {
      return None;
    }
    var ntokensAlloc := if |pattern| > 0 then |pattern| else 1;
    if ntokensAlloc > MAX_ALLOC / TOKEN_SIZE {
      return None;
    }
    var buf := new Byte[2 * |pattern| + 4];
    var decoded := DecodePattern(pattern);
    if decoded.None? {
      return None;
    }
    var toks := decoded.value;
    var len := WriteRegex(buf, toks);
    ParseRegex(toks);
    forall text: seq<Byte> ensures Search(text, RegexAtoms(toks)) <==> Like(text, pattern) {
      RegexMeaning(text, toks);
      DecodeKeepsMeaning(text, pattern);
    }
    return Some(buf[..len]);
  }
}
