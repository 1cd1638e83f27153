/** Tokenizer::tokenize: splitting a line into the words between
    delimiter characters. */
module Tokenizer {

  /** Number of occurrences of d in s. */
  function Count(s: string, d: char): nat
  {
    if s == [] then 0 else Count(s[..|s| - 1], d) + (if s[|s| - 1] == d then 1 else 0)
  }

  /** The tokens of s, built from left to right as tokenize builds them:
      a character other than d grows the current word, d closes it and
      starts an empty one, and the last word is always pushed. */
  function Split(s: string, d: char): (r: seq<string>)
    ensures |r| >= 1
  {
    if s == [] then [""]
    else
      var r := Split(s[..|s| - 1], d);
      if s[|s| - 1] == d then r + [""]
      else r[..|r| - 1] + [r[|r| - 1] + [s[|s| - 1]]]
  }

  /** The tokens put back together with one d between neighbours. */
  function Join(ts: seq<string>, d: char): string
    requires |ts| >= 1
  {
    if |ts| == 1 then ts[0] else Join(ts[..|ts| - 1], d) + [d] + ts[|ts| - 1]
  }

  /** tokenize returns one more token than there are delimiters in the input. */
  lemma {:induction false} SplitCount(s: string, d: char)
    ensures |Split(s, d)| == Count(s, d) + 1
  {
    if s != [] {
      SplitCount(s[..|s| - 1], d);
    }
  }

  /** No token contains the delimiter. */
  lemma {:induction false} SplitNoDelimiter(s: string, d: char)
    ensures forall i :: 0 <= i < |Split(s, d)| ==> d !in Split(s, d)[i]
  {
    if s != [] {
      SplitNoDelimiter(s[..|s| - 1], d);
    }
  }

  /** Joining the tokens with the delimiter gives back the input. */
  lemma {:induction false} JoinSplit(s: string, d: char)
    ensures Join(Split(s, d), d) == s
  {
    if s != [] {
      var init, c := s[..|s| - 1], s[|s| - 1];
      JoinSplit(init, d);
      assert s == init + [c];
      SplitSnoc(init, c, d);
      JoinSnoc(Split(init, d), c, d);
    }
  }

  /** Joining after one more character: a delimiter adds an empty token,
      any other character grows the last one. */
  lemma JoinSnoc(r: seq<string>, c: char, d: char)
    requires |r| >= 1
    ensures var k := |r| - 1;
      Join(if c == d then r + [""] else r[..k] + [r[k] + [c]], d) == Join(r, d) + [c]
  {
    var k := |r| - 1;
    if c == d {
      var out := r + [""];
      assert out[..|out| - 1] == r;
    } else if k > 0 {
      var out := r[..k] + [r[k] + [c]];
      assert out[..k] == r[..k];
    }
  }

  /** A string without the delimiter is a single token. */
  lemma {:induction false} SplitWord(w: string, d: char)
    requires d !in w
    ensures Split(w, d) == [w]
  {
    if w != [] {
      SplitWord(w[..|w| - 1], d);
      assert w == w[..|w| - 1] + [w[|w| - 1]];
    }
  }

  /** One more character: the definition of Split read on s + [c]. */
  lemma SplitSnoc(s: string, c: char, d: char)
    ensures var r := Split(s, d);
      Split(s + [c], d) == if c == d then r + [""] else r[..|r| - 1] + [r[|r| - 1] + [c]]
  {
    assert (s + [c])[..|s|] == s;
  }

  /** Growing the last token of ra + rb grows the last token of rb. */
  lemma GrowLast(ra: seq<string>, rb: seq<string>, c: char)
    requires |rb| >= 1
    ensures var r := ra + rb;
      r[..|r| - 1] + [r[|r| - 1] + [c]] == ra + (rb[..|rb| - 1] + [rb[|rb| - 1] + [c]])
  {
    var r := ra + rb;
    assert r[..|r| - 1] == ra + rb[..|rb| - 1];
    assert r[|r| - 1] == rb[|rb| - 1];
  }

  /** A delimiter splits the tokens of the two sides apart. */
  lemma {:induction false} SplitConcat(a: string, b: string, d: char)
    ensures Split(a + [d] + b, d) == Split(a, d) + Split(b, d)
  {
    if b == [] {
      assert a + [d] + b == a + [d];
      SplitSnoc(a, d, d);
    } else {
      var init, c := b[..|b| - 1], b[|b| - 1];
      assert b == init + [c];
      SplitConcat(a, init, d);
      var ra, rb := Split(a, d), Split(init, d);
      var pre := a + [d] + init;
      assert a + [d] + b == pre + [c];
      SplitSnoc(pre, c, d);
      SplitSnoc(init, c, d);
      if c == d {
        assert (ra + rb) + [""] == ra + (rb + [""]);
      } else {
        GrowLast(ra, rb, c);
      }
    }
  }

  /** Splitting the joined tokens gives them back, when no token holds the delimiter. */
  lemma {:induction false} SplitJoin(ts: seq<string>, d: char)
    requires |ts| >= 1
    requires forall i :: 0 <= i < |ts| ==> d !in ts[i]
    ensures Split(Join(ts, d), d) == ts
  {
    if |ts| == 1 {
      SplitWord(ts[0], d);
    } else {
      var k := |ts| - 1;
      SplitJoin(ts[..k], d);
      SplitConcat(Join(ts[..k], d), ts[k], d);
      SplitWord(ts[k], d);
      assert ts == ts[..k] + [ts[k]];
    }
  }

  /** The first token is what precedes the first delimiter. */
  lemma {:induction false} JoinFront(ts: seq<string>, d: char)
    requires |ts| >= 2
    ensures Join(ts, d) == ts[0] + [d] + Join(ts[1..], d)
  {
    var k := |ts| - 1;
    if |ts| > 2 {
      JoinFront(ts[..k], d);
      assert ts[..k][1..] == ts[1..][..|ts[1..]| - 1];
    }
  }

  /** Tokenizer::tokenize: grows a word character by character and pushes
      it each time the delimiter is met, then pushes the last word. */
  method Tokenize(s: string, d: char) returns (tokens: seq<string>)
    ensures tokens == Split(s, d)
    ensures s == "" ==> tokens == [""]
  {
    tokens := [];
    var index := 0;
    var word := "";
    while index < |s|
      invariant 0 <= index <= |s|
      invariant tokens + [word] == Split(s[..index], d)
    {
      var character := s[index];
      assert s[..index + 1][..index] == s[..index];
      if character != d {
        word := word + [character];
      } else {
        tokens := tokens + [word];
        word := "";
      }
      index := index + 1;
    }
    assert s[..index] == s;
    tokens := tokens + [word];
  }
}
