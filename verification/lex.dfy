/** Lexicographic ordering of course ids, as std::string's relational
    operators compare them: character by character, a proper prefix
    ordering before the longer string. */
module Lex {

  /** a <= b in the lexicographic order. */
  predicate LexLe(a: string, b: string): (r: bool)
    ensures a == b ==> r
  {
    |a| == 0 || (|b| > 0 && (a[0] < b[0] || (a[0] == b[0] && LexLe(a[1..], b[1..]))))
  }

  /** a < b in the lexicographic order. */
  predicate Less(a: string, b: string): (r: bool)
    ensures r <==> LexLe(a, b) && a != b
  {
    LeTotal(a, b);
    if LexLe(a, b) && LexLe(b, a) then LeAntisym(a, b); !LexLe(b, a) else !LexLe(b, a)
  }

  /** A prefix of b orders at or before b. */
  lemma {:induction false} LePrefix(a: string, b: string)
    requires |a| <= |b| && a == b[..|a|]
    ensures LexLe(a, b)
  {
    if |a| > 0 {
      assert a[1..] == b[1..][..|a| - 1];
      LePrefix(a[1..], b[1..]);
    }
  }

  lemma {:induction false} LeTotal(a: string, b: string)
    ensures LexLe(a, b) || LexLe(b, a)
  {
    if |a| > 0 && |b| > 0 && a[0] == b[0] {
      LeTotal(a[1..], b[1..]);
    }
  }

  lemma {:induction false} LeAntisym(a: string, b: string)
    requires LexLe(a, b) && LexLe(b, a)
    ensures a == b
  {
    if |a| > 0 && |b| > 0 {
      LeAntisym(a[1..], b[1..]);
      assert a == [a[0]] + a[1..];
      assert b == [b[0]] + b[1..];
    }
  }

  lemma {:induction false} LeTrans(a: string, b: string, c: string)
    requires LexLe(a, b) && LexLe(b, c)
    ensures LexLe(a, c)
  {
    if |a| > 0 && |b| > 0 && |c| > 0 && a[0] == b[0] == c[0] {
      LeTrans(a[1..], b[1..], c[1..]);
    }
  }

  /** a <= b < c gives a < c. */
  lemma LeLessTrans(a: string, b: string, c: string)
    requires LexLe(a, b) && Less(b, c)
    ensures Less(a, c)
  {
    if LexLe(c, a) {
      LeTrans(c, a, b);
    }
  }

  /** a < b <= c gives a < c. */
  lemma LessLeTrans(a: string, b: string, c: string)
    requires Less(a, b) && LexLe(b, c)
    ensures Less(a, c)
  {
    if LexLe(c, a) {
      LeTrans(b, c, a);
    }
  }

  /** The strict order implies the weak one. */
  lemma LessLe(a: string, b: string)
    requires Less(a, b)
    ensures LexLe(a, b)
  {
    LeTotal(a, b);
  }
}
