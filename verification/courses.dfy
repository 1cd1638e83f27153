/** The course record and its text form (struct Course and Node::toString). */
module Courses {
  import opened Tokenizer

  datatype Option<T> = None | Some(value: T)

  /** A course: its id (the tree key), its display name and the ids of its
      prerequisites in the order the input listed them. */
  datatype Course = Course(id: string, name: string, prerequisites: seq<string>)

  /** The decimal digit character for k. */
  function Digit(k: nat): (d: char)
    requires k < 10
    ensures '0' <= d <= '9' && (d - '0') as int == k
  {
    ('0' as int + k) as char
  }

  /** std::to_string of a count: decimal digits, no leading zero. */
  function NatToString(n: nat): (r: string)
    ensures |r| >= 1
    ensures forall i :: 0 <= i < |r| ==> '0' <= r[i] <= '9'
    ensures r[0] == '0' ==> n == 0
    decreases n
  {
    if n < 10 then [Digit(n)] else NatToString(n / 10) + [Digit(n % 10)]
  }

  /** The number a string of decimal digits denotes. */
  function DecimalValue(s: string): nat
    requires forall i :: 0 <= i < |s| ==> '0' <= s[i] <= '9'
  {
    if s == [] then 0 else DecimalValue(s[..|s| - 1]) * 10 + (s[|s| - 1] - '0') as int
  }

  /** The count printed by toString reads back as the count. */
  lemma {:induction false} DecimalRoundTrip(n: nat)
    ensures DecimalValue(NatToString(n)) == n
  {
    var r := NatToString(n);
    if n >= 10 {
      DecimalRoundTrip(n / 10);
      assert r[..|r| - 1] == NatToString(n / 10);
    }
  }

  /** The line under the title: the count of prerequisites with its
      singular or plural noun, or the notice that there are none. */
  function Heading(n: nat): string
  {
    if n == 0 then "\t no prerequisites"
    else "\t" + NatToString(n) + " prerequisite" + (if n > 1 then "s:" else ":")
  }

  /** One "\n\t\t" + id line per prerequisite, in order. */
  function PrereqLines(ps: seq<string>): string
  {
    if ps == [] then "" else PrereqLines(ps[..|ps| - 1]) + "\n\t\t" + ps[|ps| - 1]
  }

  /** The text Node::toString gives a course: the title line "id name",
      the heading line and one indented line per prerequisite, ending with
      a newline. */
  function Text(c: Course): (r: string)
    ensures |r| >= |c.id| + |c.name| + 3
    ensures r[..|c.id| + |c.name| + 3] == c.id + " " + c.name + "\n\t"
    ensures r[|r| - 1] == '\n'
  {
    var title, heading := c.id + " " + c.name + "\n", Heading(|c.prerequisites|);
    var r := title + heading + PrereqLines(c.prerequisites) + "\n";
    assert heading[0] == '\t';
    assert r[..|title| + 1] == title + [heading[0]];
    r
  }

  /** Node::toString: starts from "id name"; with prerequisites, appends the
      count line with its singular or plural noun and then each
      prerequisite on its own line, then a newline; without, appends the
      "no prerequisites" notice. */
  method ToString(c: Course) returns (t: string)
    ensures t == Text(c)
  {
    var ps := c.prerequisites;
    var n := |ps|;
    var title := c.id + " " + c.name;
    t := title;
    if n != 0 {
      t := t + "\n\t" + NatToString(n) + " prerequisite";
      if n > 1 {
        t := t + "s:";
      } else {
        t := t + ":";
      }
      assert t == title + "\n" + Heading(n);
      var head := t;
      for i := 0 to n
        invariant t == head + PrereqLines(ps[..i])
      {
        assert ps[..i + 1][..i] == ps[..i];
        t := t + "\n\t\t" + ps[i];
      }
      assert ps[..n] == ps;
      t := t + "\n";
    } else {
      t := t + "\n\t no prerequisites\n";
      assert Heading(n) == "\t no prerequisites" && PrereqLines(ps) == "";
      assert t == title + "\n" + Heading(n) + PrereqLines(ps) + "\n";
    }
  }

  /** The text of a course never reads as the lookup's not-found message
      "Course not found\n", which has no tab. */
  lemma TextHasTab(c: Course)
    ensures '\t' in Text(c)
  {
    var r := Text(c);
    var k := |c.id| + |c.name| + 2;
    assert r[..k + 1][k] == '\t';
  }

  ghost predicate NoNewline(s: string)
  {
    '\n' !in s
  }

  /** The lines of the text, given a title line, the heading line and the prerequisite lines. */
  lemma {:induction false} JoinPrereqLines(title: string, heading: string, ps: seq<string>)
    ensures var ls := [title, heading] + seq(|ps|, i requires 0 <= i < |ps| => "\t\t" + ps[i]);
      Join(ls, '\n') == title + "\n" + heading + PrereqLines(ps)
  {
    var ls := [title, heading] + seq(|ps|, i requires 0 <= i < |ps| => "\t\t" + ps[i]);
    if ps == [] {
      assert ls == [title, heading];
      assert Join(ls, '\n') == Join([title], '\n') + "\n" + heading;
    } else {
      var init := ps[..|ps| - 1];
      JoinPrereqLines(title, heading, init);
      var ls' := [title, heading] + seq(|init|, i requires 0 <= i < |init| => "\t\t" + init[i]);
      assert ls[..|ls| - 1] == ls';
      assert ls[|ls| - 1] == "\t\t" + ps[|ps| - 1];
    }
  }

  lemma HeadingNoNewline(n: nat)
    ensures '\n' !in Heading(n)
  {
    if n > 0 {
      var num := NatToString(n);
      assert Heading(n) == "\t" + num + " prerequisite" + (if n > 1 then "s:" else ":");
    }
  }

  /** Split into lines, toString's text gives back the title, the heading,
      each prerequisite indented by two tabs in order, and a final empty
      line — when no field itself holds a newline. */
  lemma TextLines(c: Course)
    requires NoNewline(c.id) && NoNewline(c.name)
    requires forall i :: 0 <= i < |c.prerequisites| ==> NoNewline(c.prerequisites[i])
    ensures var ls := Split(Text(c), '\n');
      var n := |c.prerequisites|;
      && |ls| == n + 3
      && ls[0] == c.id + " " + c.name
      && ls[1] == Heading(n)
      && (forall i :: 0 <= i < n ==> ls[i + 2] == "\t\t" + c.prerequisites[i])
      && ls[n + 2] == ""
  {
    var ps := c.prerequisites;
    var n := |ps|;
    var title := c.id + " " + c.name;
    var body := [title, Heading(n)] + seq(n, i requires 0 <= i < n => "\t\t" + ps[i]);
    var ls := body + [""];
    JoinPrereqLines(title, Heading(n), ps);
    assert ls[..|ls| - 1] == body;
    assert Join(ls, '\n') == Join(body, '\n') + "\n";
    assert Join(ls, '\n') == Text(c);
    HeadingNoNewline(n);
    assert forall i :: 0 <= i < |ls| ==> '\n' !in ls[i];
    SplitJoin(ls, '\n');
  }
}
