/** SQL LIKE over bytes: the reference relation, the decoded pattern, and the
    decoding loop that both pattern compilers start with. */
module LikePattern {
  import opened Wrappers

  type Byte = b: int | 0 <= b < 256

  const PERCENT: Byte := 37
  const UNDERSCORE: Byte := 95
  const BACKSLASH: Byte := 92

  /** LIKE (section 8.5 of ISO/IEC 9075-2) with backslash as the escape.  A pattern
      that ends in a lone backslash matches nothing here; the server raises an error
      for it, and both compilers decline it. */
  predicate Like(text: seq<Byte>, pattern: seq<Byte>)
    decreases |text| + |pattern|
  {
    if pattern == [] then
      text == []
    else if pattern[0] == BACKSLASH then
      |pattern| >= 2 && text != [] && text[0] == pattern[1] && Like(text[1..], pattern[2..])
    else if pattern[0] == PERCENT then
      Like(text, pattern[1..]) || (text != [] && Like(text[1..], pattern))
    else if pattern[0] == UNDERSCORE then
      text != [] && Like(text[1..], pattern[1..])
    else
      text != [] && text[0] == pattern[0] && Like(text[1..], pattern[1..])
  }

  datatype Token = Literal(ch: Byte) | Percent | Underscore

  /** The same relation on decoded tokens. */
  predicate TokensLike(text: seq<Byte>, toks: seq<Token>)
    decreases |text| + |toks|
  {
    if toks == [] then
      text == []
    else
      match toks[0]
      case Percent => TokensLike(text, toks[1..]) || (text != [] && TokensLike(text[1..], toks))
      case Underscore => text != [] && TokensLike(text[1..], toks[1..])
      case Literal(ch) => text != [] && text[0] == ch && TokensLike(text[1..], toks[1..])
  }

  function Unescaped(b: Byte): Token {
    if b == PERCENT then Percent else if b == UNDERSCORE then Underscore else Literal(b)
  }

  /** The token sequence of a pattern; None for a dangling escape. */
  function Decode(pattern: seq<Byte>): Option<seq<Token>> {
    if pattern == [] then
      Some([])
    else if pattern[0] == BACKSLASH then
      if |pattern| < 2 then None else Prepend([Literal(pattern[1])], Decode(pattern[2..]))
    else
      Prepend([Unescaped(pattern[0])], Decode(pattern[1..]))
  }

  function Prepend(front: seq<Token>, rest: Option<seq<Token>>): (r: Option<seq<Token>>)
    ensures front == [] ==> r == rest
    ensures rest == Some([]) ==> r == Some(front)
  {
    match rest
    case None => None
    case Some(toks) =>
      assert front == [] ==> front + toks == toks;
      assert toks == [] ==> front + toks == front;
      Some(front + toks)
  }

  /** Decoding keeps the meaning of the pattern. */
  lemma {:induction false} DecodeKeepsMeaning(text: seq<Byte>, pattern: seq<Byte>)
    requires Decode(pattern).Some?
    ensures Like(text, pattern) <==> TokensLike(text, Decode(pattern).value)
    decreases |text| + |pattern|
  {
    if pattern != [] {
      var toks := Decode(pattern).value;
      if pattern[0] == BACKSLASH {
        assert toks[1..] == Decode(pattern[2..]).value;
        if text != [] {
          DecodeKeepsMeaning(text[1..], pattern[2..]);
        }
      } else {
        assert toks[1..] == Decode(pattern[1..]).value;
        if pattern[0] == PERCENT {
          DecodeKeepsMeaning(text, pattern[1..]);
          if text != [] {
            DecodeKeepsMeaning(text[1..], pattern);
          }
        } else if text != [] {
          DecodeKeepsMeaning(text[1..], pattern[1..]);
        }
      }
    }
  }

  /** Prefixing distributes over the optional result. */
  lemma PrependAppends(a: seq<Token>, b: seq<Token>, rest: Option<seq<Token>>)
    ensures Prepend(a, Prepend(b, rest)) == Prepend(a + b, rest)
  {
    if rest.Some? {
      assert a + (b + rest.value) == (a + b) + rest.value;
    }
  }

  /** The decoding loop: it fills a token buffer no longer than the pattern. */
  method DecodePattern(pattern: seq<Byte>) returns (r: Option<seq<Token>>)
    ensures r == Decode(pattern)
    ensures r.Some? ==> |r.value| <= |pattern|
  {
    var size := if |pattern| > 0 then |pattern| else 1;
    var tokens := new Token[size];
    var ntokens := 0;
    var i := 0;
    assert pattern[0..] == pattern;
    while i < |pattern|
      invariant 0 <= i <= |pattern|
      invariant 0 <= ntokens <= i
      invariant Decode(pattern) == Prepend(tokens[..ntokens], Decode(pattern[i..]))
    {
      ghost var done := tokens[..ntokens];
      ghost var rest := pattern[i..];
      if pattern[i] == BACKSLASH {
        if i + 1 >= |pattern| {
          return None;
        }
        i := i + 1;
        tokens[ntokens] := Literal(pattern[i]);
        assert rest[2..] == pattern[i + 1..];
      } else if pattern[i] == PERCENT {
        tokens[ntokens] := Percent;
      } else if pattern[i] == UNDERSCORE {
        tokens[ntokens] := Underscore;
      } else {
        tokens[ntokens] := Literal(pattern[i]);
      }
      i := i + 1;
      PrependAppends(done, [tokens[ntokens]], Decode(pattern[i..]));
      assert rest[0] != BACKSLASH ==> rest[1..] == pattern[i..];
      assert tokens[..ntokens + 1] == done + [tokens[ntokens]];
      ntokens := ntokens + 1;
    }
    assert pattern[i..] == [];
    return Some(tokens[..ntokens]);
  }
}
