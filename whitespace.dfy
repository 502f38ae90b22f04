/** Whitespace tokenisation as done by Rust's `str::split_whitespace`:
    the string is split at every whitespace character (`str::split`) and
    the empty pieces are dropped.  The lemmas show that the tokens are
    exactly the maximal whitespace-free runs of the input, in order. */
module Whitespace {
  import opened Seqs

  /** The ASCII members of Unicode's White_Space property: tab, line feed,
      vertical tab, form feed, carriage return (U+0009..U+000D) and space. */
  predicate IsWhitespace(c: char) {
    ('\t' <= c <= '\r') || c == ' '
  }

  predicate NoWhitespace(s: string) {
    forall i :: 0 <= i < |s| ==> !IsWhitespace(s[i])
  }

  predicate AllWhitespace(s: string) {
    forall i :: 0 <= i < |s| ==> IsWhitespace(s[i])
  }

  /** A token: a non-empty run of non-whitespace characters. */
  predicate IsToken(s: string) {
    |s| > 0 && NoWhitespace(s)
  }

  /** `s.split(char::is_whitespace)`: the pieces between consecutive
      whitespace characters, so one more piece than there are whitespace
      characters in `s`. */
  function Fields(s: string): (r: seq<string>)
    ensures |r| >= 1
    ensures forall i :: 0 <= i < |r| ==> NoWhitespace(r[i])
    decreases |s|
  {
    if s == [] then [[]]
    else if IsWhitespace(s[0]) then [[]] + Fields(s[1..])
    else
      var f := Fields(s[1..]);
      [[s[0]] + f[0]] + f[1..]
  }

  /** `.filter(|piece| !piece.is_empty())`. */
  function NonEmpty(pieces: seq<string>): (r: seq<string>)
    ensures |r| <= |pieces|
    ensures forall i :: 0 <= i < |r| ==> r[i] != [] && r[i] in pieces
    decreases |pieces|
  {
    if pieces == [] then []
    else (if pieces[0] == [] then [] else [pieces[0]]) + NonEmpty(pieces[1..])
  }

  /** `str::split_whitespace`, restricted to ASCII whitespace. */
  function SplitWhitespace(s: string): (r: seq<string>)
    ensures forall i :: 0 <= i < |r| ==> IsToken(r[i])
  {
    NonEmpty(Fields(s))
  }

  /** The string `gaps[0] + tokens[0] + gaps[1] + ... + tokens[n-1] + gaps[n]`. */
  function Interleave(gaps: seq<string>, tokens: seq<string>): string
    requires |gaps| == |tokens| + 1
    decreases |tokens|
  {
    if tokens == [] then gaps[0]
    else gaps[0] + tokens[0] + Interleave(gaps[1..], tokens[1..])
  }

  lemma InterleaveThree(g0: string, t0: string, g1: string, t1: string, g2: string, t2: string, g3: string)
    ensures Interleave([g0, g1, g2, g3], [t0, t1, t2]) == g0 + t0 + g1 + t1 + g2 + t2 + g3
  {
    var gaps, tokens := [g0, g1, g2, g3], [t0, t1, t2];
    assert gaps[1..] == [g1, g2, g3] && tokens[1..] == [t1, t2];
    assert gaps[2..] == [g2, g3] && tokens[2..] == [t2];
    assert gaps[3..] == [g3] && tokens[3..] == [];
    assert Interleave(gaps[2..], tokens[2..]) == g2 + t2 + g3;
    assert Interleave(gaps[1..], tokens[1..]) == g1 + t1 + (g2 + t2 + g3);
  }

  /** `tokens` separated by whitespace `gaps`: the gaps before the first and
      after the last token may be empty, the ones between tokens may not. */
  predicate Layout(gaps: seq<string>, tokens: seq<string>) {
    && |gaps| == |tokens| + 1
    && (forall i :: 0 <= i < |tokens| ==> IsToken(tokens[i]))
    && (forall i :: 0 <= i < |gaps| ==> AllWhitespace(gaps[i]))
    && (forall i :: 0 < i < |tokens| ==> gaps[i] != [])
  }

  /** A whitespace character ends one piece and starts the next. */
  lemma {:induction false} FieldsAtWhitespace(x: string, c: char, y: string)
    requires IsWhitespace(c)
    ensures Fields(x + [c] + y) == Fields(x) + Fields(y)
    decreases |x|
  {
    if x == [] {
      assert x + [c] + y == [c] + y;
    } else {
      var s := x + [c] + y;
      assert s[0] == x[0];
      assert s[1..] == x[1..] + [c] + y;
      FieldsAtWhitespace(x[1..], c, y);
    }
  }

  lemma {:induction false} NonEmptyAppend(a: seq<string>, b: seq<string>)
    ensures NonEmpty(a + b) == NonEmpty(a) + NonEmpty(b)
    decreases |a|
  {
    if a == [] {
      assert a + b == b;
    } else {
      assert (a + b)[0] == a[0];
      assert (a + b)[1..] == a[1..] + b;
      NonEmptyAppend(a[1..], b);
    }
  }

  /** A whitespace-free string is a single piece. */
  lemma {:induction false} FieldsOfWord(t: string)
    requires NoWhitespace(t)
    ensures Fields(t) == [t]
    decreases |t|
  {
    if t != [] {
      FieldsOfWord(t[1..]);
      assert [t[0]] + t[1..] == t;
    }
  }

  lemma SplitWhitespaceOfToken(t: string)
    requires IsToken(t)
    ensures SplitWhitespace(t) == [t]
  {
    FieldsOfWord(t);
  }

  /** One whitespace character separates what is on either side. */
  lemma SplitWhitespaceAtChar(a: string, c: char, b: string)
    requires IsWhitespace(c)
    ensures SplitWhitespace(a + [c] + b) == SplitWhitespace(a) + SplitWhitespace(b)
  {
    FieldsAtWhitespace(a, c, b);
    NonEmptyAppend(Fields(a), Fields(b));
  }

  /** Leading whitespace is ignored. */
  lemma {:induction false} SplitWhitespaceDropsLeading(g: string, s: string)
    requires AllWhitespace(g)
    ensures SplitWhitespace(g + s) == SplitWhitespace(s)
    decreases |g|
  {
    if g != [] {
      ConsAppend(g, s);
      SplitWhitespaceAtChar([], g[0], g[1..] + s);
      assert [] + [g[0]] == [g[0]];
      assert SplitWhitespace([]) == [];
      SplitWhitespaceDropsLeading(g[1..], s);
    } else {
      assert g + s == s;
    }
  }

  /** A non-empty run of whitespace separates: what is on either side is
      tokenised independently, however long the run is. */
  lemma SplitWhitespaceAtGap(a: string, g: string, b: string)
    requires AllWhitespace(g) && g != []
    ensures SplitWhitespace(a + g + b) == SplitWhitespace(a) + SplitWhitespace(b)
  {
    var c, g' := g[0], g[1..];
    AppendAssoc(a, g, b);
    ConsAppend(g, b);
    AppendAssoc(a, [c], g' + b);
    SplitWhitespaceAtChar(a, c, g' + b);
    SplitWhitespaceDropsLeading(g', b);
  }

  /** Trailing whitespace is ignored. */
  lemma SplitWhitespaceDropsTrailing(s: string, g: string)
    requires AllWhitespace(g)
    ensures SplitWhitespace(s + g) == SplitWhitespace(s)
  {
    if g != [] {
      SplitWhitespaceAtGap(s, g, []);
      assert s + g + [] == s + g;
      assert SplitWhitespace([]) == [];
    } else {
      assert s + g == s;
    }
  }

  /** A run of whitespace between tokens counts as a single separator. */
  lemma SplitWhitespaceCollapsesRuns(a: string, g: string, b: string)
    requires AllWhitespace(g) && g != []
    ensures SplitWhitespace(a + g + b) == SplitWhitespace(a + " " + b)
  {
    SplitWhitespaceAtGap(a, g, b);
    SplitWhitespaceAtGap(a, " ", b);
  }

  /** Tokens laid out with whitespace gaps are recovered exactly. */
  lemma {:induction false} SplitWhitespaceOfLayout(gaps: seq<string>, tokens: seq<string>)
    requires Layout(gaps, tokens)
    ensures SplitWhitespace(Interleave(gaps, tokens)) == tokens
    decreases |tokens|
  {
    if tokens == [] {
      SplitWhitespaceDropsLeading(gaps[0], []);
      assert gaps[0] + [] == gaps[0];
    } else {
      var g, t := gaps[0], tokens[0];
      var rest := Interleave(gaps[1..], tokens[1..]);
      assert Layout(gaps[1..], tokens[1..]);
      SplitWhitespaceOfLayout(gaps[1..], tokens[1..]);
      SplitWhitespaceDropsLeading(g, t + rest);
      assert g + t + rest == g + (t + rest);
      SplitWhitespaceOfToken(t);
      if |tokens| == 1 {
        assert rest == gaps[1];
        SplitWhitespaceDropsTrailing(t, rest);
      } else {
        var rest' := tokens[1] + Interleave(gaps[2..], tokens[2..]);
        assert rest == gaps[1] + rest';
        SplitWhitespaceAtGap(t, gaps[1], rest');
        assert t + rest == t + gaps[1] + rest';
        SplitWhitespaceDropsLeading(gaps[1], rest');
      }
    }
  }

  /** Prepending whitespace widens the leading gap. */
  lemma ConsWhitespace(c: char, gaps: seq<string>, tokens: seq<string>)
    requires IsWhitespace(c) && Layout(gaps, tokens)
    ensures Layout([[c] + gaps[0]] + gaps[1..], tokens)
    ensures Interleave([[c] + gaps[0]] + gaps[1..], tokens) == [c] + Interleave(gaps, tokens)
  {
    var gaps' := [[c] + gaps[0]] + gaps[1..];
    assert gaps'[1..] == gaps[1..];
  }

  /** Prepending a non-whitespace character to a string that starts with a
      token lengthens that token. */
  lemma ConsIntoToken(c: char, gaps: seq<string>, tokens: seq<string>)
    requires !IsWhitespace(c) && Layout(gaps, tokens) && gaps[0] == [] && tokens != []
    ensures Layout([[]] + gaps[1..], [[c] + tokens[0]] + tokens[1..])
    ensures Interleave([[]] + gaps[1..], [[c] + tokens[0]] + tokens[1..]) == [c] + Interleave(gaps, tokens)
  {
    ConsIntoTokenLayout(c, gaps, tokens);
    var gaps', tokens' := [[]] + gaps[1..], [[c] + tokens[0]] + tokens[1..];
    var more := Interleave(gaps[1..], tokens[1..]);
    assert gaps'[1..] == gaps[1..] && tokens'[1..] == tokens[1..];
    assert Interleave(gaps', tokens') == [] + ([c] + tokens[0]) + more;
    assert Interleave(gaps, tokens) == [] + tokens[0] + more;
    AppendAssoc([c], tokens[0], more);
  }

  lemma ConsIntoTokenLayout(c: char, gaps: seq<string>, tokens: seq<string>)
    requires !IsWhitespace(c) && Layout(gaps, tokens) && gaps[0] == [] && tokens != []
    ensures Layout([[]] + gaps[1..], [[c] + tokens[0]] + tokens[1..])
  {
    var gaps', tokens' := [[]] + gaps[1..], [[c] + tokens[0]] + tokens[1..];
    assert IsToken([c] + tokens[0]) by {
      assert forall j :: 0 < j < |[c] + tokens[0]| ==> ([c] + tokens[0])[j] == tokens[0][j - 1];
    }
    assert forall k :: 0 < k < |tokens'| ==> tokens'[k] == tokens[k];
    assert forall k :: 0 < k < |gaps'| ==> gaps'[k] == gaps[k];
  }

  /** Prepending a non-whitespace character to a string that starts with
      whitespace (or has no token) starts a new token. */
  lemma ConsNewToken(c: char, gaps: seq<string>, tokens: seq<string>)
    requires !IsWhitespace(c) && Layout(gaps, tokens) && (gaps[0] != [] || tokens == [])
    ensures Layout([[]] + gaps, [[c]] + tokens)
    ensures Interleave([[]] + gaps, [[c]] + tokens) == [c] + Interleave(gaps, tokens)
  {
    var gaps', tokens' := [[]] + gaps, [[c]] + tokens;
    assert gaps'[1..] == gaps && tokens'[1..] == tokens;
  }

  /** A layout of `rest` gives one of `[c] + rest`. */
  lemma LaysOutCons(c: char, rest: string, gaps: seq<string>)
    requires Layout(gaps, SplitWhitespace(rest)) && Interleave(gaps, SplitWhitespace(rest)) == rest
    ensures exists gaps' :: Layout(gaps', SplitWhitespace([c] + rest)) &&
                            Interleave(gaps', SplitWhitespace([c] + rest)) == [c] + rest
  {
    var tokens := SplitWhitespace(rest);
    var gaps', tokens';
    if IsWhitespace(c) {
      gaps', tokens' := [[c] + gaps[0]] + gaps[1..], tokens;
      ConsWhitespace(c, gaps, tokens);
    } else if gaps[0] == [] && tokens != [] {
      gaps', tokens' := [[]] + gaps[1..], [[c] + tokens[0]] + tokens[1..];
      ConsIntoToken(c, gaps, tokens);
    } else {
      gaps', tokens' := [[]] + gaps, [[c]] + tokens;
      ConsNewToken(c, gaps, tokens);
    }
    SplitWhitespaceOfLayout(gaps', tokens');
  }

  /** Every string is its tokens laid out with whitespace gaps. */
  lemma {:induction false} SplitWhitespaceLaysOut(s: string)
    ensures exists gaps :: Layout(gaps, SplitWhitespace(s)) && Interleave(gaps, SplitWhitespace(s)) == s
    decreases |s|
  {
    if s == [] {
      var gaps: seq<string> := [[]];
      assert Layout(gaps, []) && Interleave(gaps, []) == s;
      SplitWhitespaceOfLayout(gaps, []);
    } else {
      SplitWhitespaceLaysOut(s[1..]);
      var gaps :| Layout(gaps, SplitWhitespace(s[1..])) && Interleave(gaps, SplitWhitespace(s[1..])) == s[1..];
      LaysOutCons(s[0], s[1..], gaps);
      assert [s[0]] + s[1..] == s;
    }
  }

  /** The tokenisation of `s` is `tokens` exactly when `s` is `tokens`
      separated (and optionally preceded and followed) by whitespace. */
  lemma SplitWhitespaceCharacterization(s: string, tokens: seq<string>)
    ensures SplitWhitespace(s) == tokens <==>
            exists gaps :: Layout(gaps, tokens) && Interleave(gaps, tokens) == s
  {
    SplitWhitespaceLaysOut(s);
    forall gaps | Layout(gaps, tokens) && Interleave(gaps, tokens) == s
      ensures SplitWhitespace(s) == tokens
    {
      SplitWhitespaceOfLayout(gaps, tokens);
    }
  }
}
