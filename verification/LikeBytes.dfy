/** The special bytes of LIKE patterns and of regular expressions, by their numbers. */
module LikeBytes {
  import opened LikePattern
  import opened LikeWords
  import opened LikeSegments
  import opened LikeMatch
  import opened LikeExact
  import opened LikeRegex
  import opened Wrappers

  // ---- LIKE ----

  /** The laws that LIKE is: 37 is '%', 95 is '_', 92 is the escape; every other byte is itself. */
  lemma LikeLaws(text: seq<Byte>, pattern: seq<Byte>, c: Byte)
    ensures Like(text, []) <==> text == []
    ensures Like(text, [37] + pattern) <==> exists k: nat | k <= |text| :: Like(text[k..], pattern)
    ensures Like(text, [95] + pattern) <==> text != [] && Like(text[1..], pattern)
    ensures Like(text, [92, c] + pattern) <==> text != [] && text[0] == c && Like(text[1..], pattern)
    ensures c !in {37, 95, 92} ==>
              (Like(text, [c] + pattern) <==> text != [] && text[0] == c && Like(text[1..], pattern))
  {
    assert ([37] + pattern)[1..] == pattern && ([95] + pattern)[1..] == pattern && ([c] + pattern)[1..] == pattern;
    assert ([92, c] + pattern)[2..] == pattern;
    PercentLaw(text, pattern);
  }

  lemma {:induction false} PercentLaw(text: seq<Byte>, pattern: seq<Byte>)
    ensures Like(text, [37] + pattern) <==> exists k: nat | k <= |text| :: Like(text[k..], pattern)
    decreases |text|
  {
    assert ([37] + pattern)[1..] == pattern;
    assert text[0..] == text;
    if text != [] {
      var rest := text[1..];
      PercentLaw(rest, pattern);
      assert forall k: nat | k <= |rest| :: rest[k..] == text[k + 1..];
      if k: nat :| k <= |rest| && Like(rest[k..], pattern) {
        assert Like(text[k + 1..], pattern);
      }
      if k: nat :| k <= |text| && Like(text[k..], pattern) {
        assert k > 0 ==> rest[k - 1..] == text[k..];
      }
    }
  }

  // ---- Regular expressions ----

  /** The bytes that mean something: . + * ? [ ] ( ) { } ^ $ | and the backslash. */
  lemma MetaBytes(c: Byte)
    ensures IsMeta(c) <==> c in {46, 43, 42, 63, 91, 93, 40, 41, 123, 125, 94, 36, 124, 92}
  {
  }

  /** How an expression is read, from its first byte: '^', '.*', '.', '\z', an escaped byte, or a
      byte that means itself; nothing else is read. */
  lemma ReadingLaws(r: seq<Byte>)
    requires r != [] && Parse(r).Some?
    ensures var atoms := Parse(r).value;
            if r[0] == 94 then Reads(atoms, StartText, r[1..])
            else if r[0] == 46 then
              if |r| >= 2 && r[1] == 42 then Reads(atoms, AnyRun, r[2..]) else Reads(atoms, AnyByte, r[1..])
            else if r[0] == 92 then
              |r| >= 2 &&
              if r[1] == 122 then Reads(atoms, EndText, r[2..])
              else r[1] in {46, 43, 42, 63, 91, 93, 40, 41, 123, 125, 94, 36, 124, 92} &&
                   Reads(atoms, Exactly(r[1]), r[2..])
            else r[0] !in {43, 42, 63, 91, 93, 40, 41, 123, 125, 36, 124} && Reads(atoms, Exactly(r[0]), r[1..])
  {
  }

  /** The atoms are one atom and what the rest is read as. */
  predicate Reads(atoms: seq<Atom>, first: Atom, rest: seq<Byte>) {
    Parse(rest).Some? && atoms == [first] + Parse(rest).value
  }

  /** What is written for a token. */
  lemma WrittenBytes(c: Byte)
    ensures TokenBytes(Percent) == [46, 42] && TokenBytes(Underscore) == [46]
    ensures TokenBytes(Literal(c)) ==
            if c in {46, 43, 42, 63, 91, 93, 40, 41, 123, 125, 94, 36, 124, 92} then [92, c] else [c]
  {
  }

  /** The whole expression: '^' unless the pattern starts with '%', then token by token what stands
      between the outer '%', then '\z' unless it ends with '%'. */
  lemma WholeExpression(front: nat, middle: seq<Token>, back: nat)
    requires middle != [] && middle[0] != Percent && middle[|middle| - 1] != Percent
    ensures RegexOf(Percents(front) + middle + Percents(back)) ==
            (if front == 0 then [94] else []) + MiddleBytes(middle) + (if back == 0 then [92, 122] else [])
  {
    var toks := Percents(front) + middle + Percents(back);
    SkipsFront(toks, 0, front);
    DropsBack(toks, front, |toks|, front + |middle|);
    assert toks[front..front + |middle|] == middle;
  }

  function Percents(n: nat): (toks: seq<Token>)
    ensures |toks| == n
  {
    seq(n, i => Percent)
  }

  lemma {:induction false} SkipsFront(toks: seq<Token>, i: nat, n: nat)
    requires i <= n < |toks| && (forall k | i <= k < n :: toks[k] == Percent) && toks[n] != Percent
    ensures SkipPercents(toks, i) == n
    decreases n - i
  {
    if i < n {
      SkipsFront(toks, i + 1, n);
    }
  }

  lemma {:induction false} DropsBack(toks: seq<Token>, low: nat, end: nat, n: nat)
    requires low < n <= end <= |toks| && (forall k | n <= k < end :: toks[k] == Percent) && toks[n - 1] != Percent
    ensures DropPercents(toks, low, end) == n
    decreases end
  {
    if n < end {
      DropsBack(toks, low, end - 1, n);
    }
  }

  /** 'a+b' is written '^a\+b\z'; 'a%b_' is written '^a.*b.\z'; '\%' is written '^%\z'. */
  lemma RegexExamples()
    ensures Decode([97, 43, 98]).Some? && RegexOf(Decode([97, 43, 98]).value) == [94, 97, 92, 43, 98, 92, 122]
    ensures Decode([97, 37, 98, 95]).Some? &&
            RegexOf(Decode([97, 37, 98, 95]).value) == [94, 97, 46, 42, 98, 46, 92, 122]
    ensures Decode([92, 37]).Some? && RegexOf(Decode([92, 37]).value) == [94, 37, 92, 122]
  {
    PlusExample();
    WildExample();
    EscapeExample();
  }

  /** One byte more in front of a pattern, and what is written for it. */
  lemma OneMore(b: Byte, pattern: seq<Byte>, toks: seq<Token>, middle: seq<Byte>)
    requires Decode(pattern) == Some(toks) && MiddleBytes(toks) == middle && b != 92
    ensures Decode([b] + pattern) == Some([Unescaped(b)] + toks)
    ensures MiddleBytes([Unescaped(b)] + toks) == TokenBytes(Unescaped(b)) + middle
  {
    assert ([b] + pattern)[1..] == pattern;
    MiddleBytesCons([Unescaped(b)] + toks);
    assert ([Unescaped(b)] + toks)[1..] == toks;
  }

  lemma PlusMiddle()
    ensures Decode([97] + ([43] + ([98] + []))) == Some([Literal(97)] + ([Literal(43)] + ([Literal(98)] + [])))
    ensures MiddleBytes([Literal(97)] + ([Literal(43)] + ([Literal(98)] + []))) == [97] + ([92, 43] + ([98] + []))
  {
    OneMore(98, [], [], []);
    OneMore(43, [98] + [], [Literal(98)] + [], [98] + []);
    OneMore(97, [43] + ([98] + []), [Literal(43)] + ([Literal(98)] + []), [92, 43] + ([98] + []));
  }

  lemma PlusExample()
    ensures Decode([97, 43, 98]) == Some([Literal(97), Literal(43), Literal(98)])
    ensures RegexOf([Literal(97), Literal(43), Literal(98)]) == [94, 97, 92, 43, 98, 92, 122]
  {
    PlusMiddle();
    var toks := [Literal(97), Literal(43), Literal(98)];
    assert [97] + ([43] + ([98] + [])) == [97, 43, 98];
    assert [Literal(97)] + ([Literal(43)] + ([Literal(98)] + [])) == toks;
    NoPercents(toks);
  }

  lemma WildMiddle()
    ensures Decode([97] + ([37] + ([98] + ([95] + [])))) ==
            Some([Literal(97)] + ([Percent] + ([Literal(98)] + ([Underscore] + []))))
    ensures MiddleBytes([Literal(97)] + ([Percent] + ([Literal(98)] + ([Underscore] + [])))) ==
            [97] + ([46, 42] + ([98] + ([46] + [])))
  {
    var p1: seq<Byte>, t1, m1: seq<Byte> := [95] + [], [Underscore] + [], [46] + [];
    var p2: seq<Byte>, t2, m2: seq<Byte> := [98] + p1, [Literal(98)] + t1, [98] + m1;
    OneMore(95, [], [], []);
    OneMore(98, p1, t1, m1);
    OneMore(37, p2, t2, m2);
    OneMore(97, [37] + p2, [Percent] + t2, [46, 42] + m2);
  }

  lemma WildExample()
    ensures Decode([97, 37, 98, 95]) == Some([Literal(97), Percent, Literal(98), Underscore])
    ensures RegexOf([Literal(97), Percent, Literal(98), Underscore]) == [94, 97, 46, 42, 98, 46, 92, 122]
  {
    WildMiddle();
    var toks := [Literal(97), Percent, Literal(98), Underscore];
    assert [97] + ([37] + ([98] + ([95] + []))) == [97, 37, 98, 95];
    assert [Literal(97)] + ([Percent] + ([Literal(98)] + ([Underscore] + []))) == toks;
    NoPercents(toks);
  }

  lemma NoPercents(toks: seq<Token>)
    requires toks != [] && toks[0] != Percent && toks[|toks| - 1] != Percent
    ensures RegexOf(toks) == [94] + MiddleBytes(toks) + [92, 122]
  {
    assert Percents(0) + toks + Percents(0) == toks;
    WholeExpression(0, toks, 0);
  }

  lemma EscapeExample()
    ensures Decode([92, 37]) == Some([Literal(37)]) && RegexOf([Literal(37)]) == [94, 37, 92, 122]
  {
    assert Decode([92, 37][2..]) == Some([]);
    var toks := [Literal(37)];
    NoPercents(toks);
    assert MiddleBytes(toks[..0]) == [] && MiddleBytes(toks) == [37];
  }

  // ---- When the segment compiler declines ----

  /** The literal bytes of a word. */
  function LiteralPlaces(w: seq<Token>): set<int> {
    set k | 0 <= k < |w| && w[k].Literal?
  }

  /** Where a run of literal bytes starts. */
  function RunStarts(w: seq<Token>): set<int> {
    set k | 0 <= k < |w| && StartsRun(w, k)
  }

  predicate StartsRun(w: seq<Token>, k: int)
    requires 0 <= k < |w|
  {
    w[k].Literal? && (k == 0 || !w[k - 1].Literal?)
  }

  lemma {:induction false} LiteralsCount(w: seq<Token>)
    ensures Literals(w) == |LiteralPlaces(w)|
    decreases |w|
  {
    if w != [] {
      var n, front := |w| - 1, w[..|w| - 1];
      LiteralsCount(front);
      assert forall k | 0 <= k < n :: front[k] == w[k];
      assert LiteralPlaces(w) == LiteralPlaces(front) + if w[n].Literal? then {n} else {};
    }
  }

  lemma {:induction false} RunsCount(w: seq<Token>, j: nat)
    requires j <= |w|
    ensures Runs(w, j) == |RunStarts(w[..j])|
  {
    if j > 0 {
      var n := j - 1;
      RunsCount(w, n);
      assert forall k | 0 <= k < n :: w[..n][k] == w[..j][k];
      forall k | 0 <= k < j ensures StartsRun(w[..j], k) == StartsRun(w, k) {
      }
      forall k | 0 <= k < n ensures StartsRun(w[..n], k) == StartsRun(w, k) {
      }
      assert RunStarts(w[..j]) == RunStarts(w[..n]) + if StartsRun(w, n) then {n} else {};
    }
  }

  predicate AnyWild(ws: seq<seq<Token>>) {
    exists s | 0 <= s < |ws| :: Underscore in ws[s]
  }

  predicate AnyOver(ws: seq<seq<Token>>, most: nat) {
    exists s | 0 <= s < |ws| :: |RunStarts(ws[s])| > most
  }

  lemma AnyWildIs(ws: seq<seq<Token>>)
    ensures AnyWild(ws) <==> HasUnderscore(ws)
  {
    if AnyWild(ws) {
      var s :| 0 <= s < |ws| && Underscore in ws[s];
      var k :| 0 <= k < |ws[s]| && ws[s][k] == Underscore;
    }
  }

  lemma AnyOverIs(ws: seq<seq<Token>>)
    ensures AnyOver(ws, 8) <==> exists s | 0 <= s < |ws| :: Runs(ws[s], |ws[s]|) > MAX_PIECES
  {
    forall s | 0 <= s < |ws| ensures Runs(ws[s], |ws[s]|) == |RunStarts(ws[s])| {
      RunsCount(ws[s], |ws[s]|);
      assert ws[s][..|ws[s]|] == ws[s];
    }
  }

  lemma OneWord(ws: seq<seq<Token>>)
    requires |ws| == 1
    ensures TotalLiterals(ws) == |LiteralPlaces(ws[0])|
  {
    LiteralsCount(ws[0]);
    assert ws[..0] == [] && TotalLiterals(ws) == Literals(ws[0]);
  }

  /** A shape is declined for '_' in UTF-8; else a single needle for five bytes or more, and any
      other for more than 16 segments, more literal bytes than a buffer takes, or a segment with
      more than 8 literal runs. */
  lemma DeclinesExactlyWhen(sh: Shape, singleByte: bool)
    ensures DeclinesShape(sh, singleByte) <==>
            || (AnyWild(sh.words) && !singleByte)
            || if |sh.words| == 1 && !AnyWild(sh.words) && !sh.anchoredStart && !sh.anchoredEnd
               then |LiteralPlaces(sh.words[0])| >= 5
               else |sh.words| > 16 || TotalLiterals(sh.words) > 1073739639 || AnyOver(sh.words, 8)
    ensures SingleNeedle(sh) <==> |sh.words| == 1 && !AnyWild(sh.words) && !sh.anchoredStart && !sh.anchoredEnd
  {
    AnyWildIs(sh.words);
    AnyOverIs(sh.words);
    if |sh.words| == 1 {
      OneWord(sh.words);
    }
  }

  lemma TotalIsSum(ws: seq<seq<Token>>, w: seq<Token>)
    ensures TotalLiterals([]) == 0 && TotalLiterals(ws + [w]) == TotalLiterals(ws) + |LiteralPlaces(w)|
  {
    assert (ws + [w])[..|ws|] == ws;
    LiteralsCount(w);
  }

  /** A text that is shorter than all segments together is never accepted, so in '%a%c%c' the two
      bytes of 'ac' do not do. */
  lemma ShortIsRejected(sh: Shape, text: seq<Byte>)
    ensures Accepts(sh, text) ==> |text| >= TotalWidth(sh.words)
    ensures sh.words == [[Literal(97)], [Literal(99)], [Literal(99)]] ==> !Accepts(sh, [97, 99])
  {
    SharedByteWidth();
  }
}
