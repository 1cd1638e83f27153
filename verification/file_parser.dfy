/** FileParser: turning input lines into courses (toCourse), loading them
    into the tree (addCourseToTree and the loop of readFile) and the
    prerequisite check (validateCourses). */
module Parsing {
  import opened Lex
  import opened Tokenizer
  import opened Courses
  import opened TreeShape
  import opened CourseTree

  /** The fields that are not empty, in their order. */
  function NonEmpty(fs: seq<string>): (r: seq<string>)
    ensures forall i :: 0 <= i < |r| ==> r[i] != ""
    ensures forall x :: x in r <==> x in fs && x != ""
  {
    if fs == [] then []
    else NonEmpty(fs[..|fs| - 1]) + (if fs[|fs| - 1] == "" then [] else [fs[|fs| - 1]])
  }

  /** Without empty fields there is nothing to drop. */
  lemma {:induction false} NonEmptyAll(fs: seq<string>)
    requires forall i :: 0 <= i < |fs| ==> fs[i] != ""
    ensures NonEmpty(fs) == fs
  {
    if fs != [] {
      NonEmptyAll(fs[..|fs| - 1]);
    }
  }

  /** FileParser::toCourse as a value: the line split at commas; fewer than
      two fields is no course; otherwise field 0 is the id, field 1 the name
      and the non-empty fields after them the prerequisites. */
  function ParseCourse(line: string): (r: Option<Course>)
    ensures r.None? <==> ',' !in line
    ensures r.Some? ==> forall i :: 0 <= i < |r.value.prerequisites| ==> r.value.prerequisites[i] != ""
  {
    SplitCount(line, ',');
    CountZero(line, ',');
    var ins := Split(line, ',');
    if |ins| < 2 then None else Some(Course(ins[0], ins[1], NonEmpty(ins[2..])))
  }

  lemma {:induction false} CountZero(s: string, d: char)
    ensures Count(s, d) == 0 <==> d !in s
  {
    if s != [] {
      CountZero(s[..|s| - 1], d);
      assert s == s[..|s| - 1] + [s[|s| - 1]];
    }
  }

  /** An accepted line starts with the id, a comma and the name, followed
      by the end of the line or another comma; no field holds a comma and
      no prerequisite is empty. */
  lemma ParseCourseFields(line: string)
    requires ParseCourse(line).Some?
    ensures var c := ParseCourse(line).value;
      var m := |c.id| + 1 + |c.name|;
      && ',' !in c.id && ',' !in c.name
      && (forall i :: 0 <= i < |c.prerequisites| ==> c.prerequisites[i] != "" && ',' !in c.prerequisites[i])
      && m <= |line| && line[..m] == c.id + "," + c.name
      && (m == |line| || line[m] == ',')
  {
    var ins := Split(line, ',');
    var c := ParseCourse(line).value;
    SplitNoDelimiter(line, ',');
    JoinSplit(line, ',');
    JoinFront(ins, ',');
    assert ins[1..][0] == ins[1];
    if |ins| > 2 {
      JoinFront(ins[1..], ',');
      assert line == ins[0] + [','] + (ins[1] + [','] + Join(ins[1..][1..], ','));
    } else {
      assert line == ins[0] + [','] + ins[1];
    }
    forall i | 0 <= i < |c.prerequisites| ensures ',' !in c.prerequisites[i] {
      assert c.prerequisites[i] in ins[2..];
    }
  }

  /** Writing a course as comma-separated fields and reading it back gives
      the course, when no field holds a comma and no prerequisite is empty. */
  lemma ParseCourseRoundTrip(c: Course)
    requires ',' !in c.id && ',' !in c.name
    requires forall i :: 0 <= i < |c.prerequisites| ==> c.prerequisites[i] != "" && ',' !in c.prerequisites[i]
    ensures ParseCourse(Join([c.id, c.name] + c.prerequisites, ',')) == Some(c)
  {
    var fs := [c.id, c.name] + c.prerequisites;
    SplitJoin(fs, ',');
    assert fs[2..] == c.prerequisites;
    NonEmptyAll(c.prerequisites);
  }

  /** FileParser::toCourse: tokenizes the line and collects the non-empty
      fields after the first two. */
  method ToCourse(line: string) returns (r: Option<Course>)
    ensures r == ParseCourse(line)
  {
    var inputs := Tokenize(line, ',');
    if |inputs| < 2 {
      return None;
    }
    var id, name := inputs[0], inputs[1];
    var prerequisites := [];
    var i := 2;
    while i < |inputs|
      invariant 2 <= i <= |inputs|
      invariant prerequisites == NonEmpty(inputs[2..i])
    {
      assert inputs[2..i + 1][..i - 2] == inputs[2..i];
      if inputs[i] != "" {
        prerequisites := prerequisites + [inputs[i]];
      }
      i := i + 1;
    }
    assert inputs[2..i] == inputs[2..];
    r := Some(Course(id, name, prerequisites));
  }

  /** The courses the lines give, in order. */
  function Parsed(lines: seq<string>): (cs: seq<Course>)
    ensures |cs| <= |lines|
  {
    if lines == [] then []
    else
      var p := ParseCourse(lines[|lines| - 1]);
      Parsed(lines[..|lines| - 1]) + (if p.Some? then [p.value] else [])
  }

  lemma ParsedSnoc(lines: seq<string>, i: int)
    requires 0 <= i < |lines|
    ensures ParseCourse(lines[i]).None? ==> Parsed(lines[..i + 1]) == Parsed(lines[..i])
    ensures ParseCourse(lines[i]).Some? ==> Parsed(lines[..i + 1]) == Parsed(lines[..i]) + [ParseCourse(lines[i]).value]
  {
    assert lines[..i + 1][..i] == lines[..i];
    if ParseCourse(lines[i]).None? {
      assert Parsed(lines[..i]) + [] == Parsed(lines[..i]);
    }
  }

  /** The handles addCourseToTree queues when the courses cs are added at
      handles base, base + 1, ...: those of the courses with prerequisites. */
  function Queued(cs: seq<Course>, base: int): (q: seq<int>)
    ensures |q| <= |cs|
  {
    if cs == [] then []
    else Queued(cs[..|cs| - 1], base) + (if |cs[|cs| - 1].prerequisites| > 0 then [base + |cs| - 1] else [])
  }

  /** The queue holds, in increasing order, exactly the positions of the
      courses that have prerequisites. */
  lemma QueuedIds(cs: seq<Course>, base: int)
    ensures forall i :: 0 <= i < |Queued(cs, base)| ==>
      base <= Queued(cs, base)[i] < base + |cs| && |cs[Queued(cs, base)[i] - base].prerequisites| > 0
    ensures forall i, j :: 0 <= i < j < |Queued(cs, base)| ==> Queued(cs, base)[i] < Queued(cs, base)[j]
    ensures forall k :: 0 <= k < |cs| && |cs[k].prerequisites| > 0 ==> base + k in Queued(cs, base)
  {
    QueuedRange(cs, base);
    QueuedIncreasing(cs, base);
    QueuedAll(cs, base);
  }

  /** Queued splits as the queue of all but the last course, then the last
      course's position when it has prerequisites. */
  lemma QueuedLast(cs: seq<Course>, base: int)
    requires cs != []
    ensures Queued(cs, base) ==
      Queued(cs[..|cs| - 1], base) + if |cs[|cs| - 1].prerequisites| > 0 then [base + |cs| - 1] else []
  {
  }

  lemma {:induction false} QueuedRange(cs: seq<Course>, base: int)
    ensures forall i :: 0 <= i < |Queued(cs, base)| ==>
      base <= Queued(cs, base)[i] < base + |cs| && |cs[Queued(cs, base)[i] - base].prerequisites| > 0
  {
    if cs != [] {
      var init := cs[..|cs| - 1];
      QueuedRange(init, base);
      QueuedLast(cs, base);
      var q, qi := Queued(cs, base), Queued(init, base);
      forall i | 0 <= i < |q|
        ensures base <= q[i] < base + |cs| && |cs[q[i] - base].prerequisites| > 0
      {
        if i < |qi| {
          assert q[i] == qi[i] && cs[qi[i] - base] == init[qi[i] - base];
        }
      }
    }
  }

  lemma {:induction false} QueuedIncreasing(cs: seq<Course>, base: int)
    ensures forall i, j :: 0 <= i < j < |Queued(cs, base)| ==> Queued(cs, base)[i] < Queued(cs, base)[j]
  {
    if cs != [] {
      var init := cs[..|cs| - 1];
      QueuedIncreasing(init, base);
      QueuedRange(init, base);
      QueuedLast(cs, base);
      var q, qi := Queued(cs, base), Queued(init, base);
      forall i, j | 0 <= i < j < |q| ensures q[i] < q[j] {
        if j < |qi| {
          assert q[i] == qi[i] && q[j] == qi[j];
        } else {
          assert q[i] == qi[i] && q[j] == base + |cs| - 1;
        }
      }
    }
  }

  lemma {:induction false} QueuedAll(cs: seq<Course>, base: int)
    ensures forall k :: 0 <= k < |cs| && |cs[k].prerequisites| > 0 ==> base + k in Queued(cs, base)
  {
    if cs != [] {
      var init := cs[..|cs| - 1];
      QueuedAll(init, base);
      QueuedLast(cs, base);
      var q, qi := Queued(cs, base), Queued(init, base);
      forall k | 0 <= k < |cs| && |cs[k].prerequisites| > 0
        ensures base + k in q
      {
        if k < |init| {
          assert cs[k] == init[k] && base + k in qi;
        } else {
          assert q[|q| - 1] == base + k;
        }
      }
    }
  }

  /** Every id in ps is the key of some node of the tree. */
  ghost predicate AllFound(nodes: seq<NodeRec>, t: Tree, ps: seq<string>)
  {
    forall p :: p in ps ==> HasKey(nodes, t, p)
  }

  lemma AllFoundSnoc(nodes: seq<NodeRec>, t: Tree, ps: seq<string>, i: int)
    requires 0 <= i < |ps| && AllFound(nodes, t, ps[..i]) && HasKey(nodes, t, ps[i])
    ensures AllFound(nodes, t, ps[..i + 1])
  {
    assert ps[..i + 1] == ps[..i] + [ps[i]];
  }

  /** The queue q can be validated on this tree: its entries are distinct
      nodes of the tree, each with at least one prerequisite. The queue
      addCourseToTree builds is one (see AddCourseToTree). */
  ghost predicate SafeQueue(nodes: seq<NodeRec>, t: Tree, q: seq<int>)
  {
    && (forall i :: 0 <= i < |q| ==>
          q[i] in Handles(t) && 0 <= q[i] < |nodes| && |nodes[q[i]].course.prerequisites| > 0)
    && (forall i, j :: 0 <= i < j < |q| ==> q[i] != q[j])
  }

  lemma SafeQueueSuffix(nodes: seq<NodeRec>, t: Tree, q: seq<int>, k: int)
    requires SafeQueue(nodes, t, q) && 0 <= k <= |q|
    ensures SafeQueue(nodes, t, q[k..])
    ensures q != [] && k > 0 ==> q[0] !in q[k..]
    ensures forall x :: x in q[k..] ==> x in q
  {
    if q != [] && k > 0 {
      forall x | x in q[k..] ensures x != q[0] {
        var j :| 0 <= j < |q[k..]| && q[k..][j] == x;
        assert q[k + j] == x;
      }
    }
  }

  /** Evicting a node that has at most one child and is not queued keeps
      the queue valid for the shape without that node, and the removal is
      one the relinking handles. For the root the shape remove leaves is
      the old one (RootRemovalKeepsShape), so this is used for other nodes
      only. */
  lemma RemovalKeepsSafeQueue(nodes: seq<NodeRec>, t: Tree, n: int, q: seq<int>)
    requires InArena(nodes) && Linked(nodes, t)
    requires n in Handles(t) && 0 <= n < |nodes| && Sparse(nodes, n)
    requires SafeQueue(nodes, t, q) && n !in q
    ensures SplicableAt(t, n)
    ensures SafeQueue(Removed(nodes, t, n), Pruned(t, n), q)
  {
    SplicableFromArena(nodes, t, n);
    PrunedHandles(nodes, t, n);
    HandlesInArena(nodes, t);
    UnlinkedFrame(nodes, n, Successor(t, n));
    assert forall i :: 0 <= i < |q| ==> q[i] != n;
  }

  /** Adding a course keeps the queue valid, with the new node queued
      when the course has prerequisites. */
  lemma QueueGrows(nodes: seq<NodeRec>, t: Tree, q: seq<int>, c: Course)
    requires Linked(nodes, t) && SafeQueue(nodes, t, q)
    ensures var h := |nodes|;
      SafeQueue(Grafted(nodes, t, c), Grow(nodes, t, h, c.id), q + if |c.prerequisites| > 0 then [h] else [])
  {
    GrowHandles(nodes, t, |nodes|, c.id);
  }

  /** Each evicted node j was removed for reasons[j]: one of its
      prerequisites that no node of the tree has as key. */
  ghost predicate Evicted(nodes: seq<NodeRec>, t: Tree, evicted: seq<int>, reasons: seq<string>)
  {
    && |reasons| == |evicted|
    && forall j :: 0 <= j < |evicted| ==>
         reasons[j] in CourseAt(nodes, evicted[j]).prerequisites && !HasKey(nodes, t, reasons[j])
  }

  /** Every id held by a node of (nodes, t) was held by a node of the
      starting tree (n0, t0): the pass only takes nodes away. */
  ghost predicate Shrunk(nodes: seq<NodeRec>, t: Tree, n0: seq<NodeRec>, t0: Tree)
  {
    forall x :: HasKey(nodes, t, x) ==> HasKey(n0, t0, x)
  }

  /** What validateCourses has done so far, on values: the courses are
      those of the starting arena n0, every node examined came from the
      starting queue q0, every evicted node was examined, the listing is
      the starting one (that of t0) without the evicted nodes (gone), each
      evicted node misses the prerequisite recorded for it, and no id was
      added. */
  ghost predicate Progress(nodes: seq<NodeRec>, t: Tree, n0: seq<NodeRec>, t0: Tree, q0: seq<int>,
                           examined: seq<int>, evicted: seq<int>, gone: set<int>, reasons: seq<string>)
  {
    && |nodes| == |n0| && (forall k :: 0 <= k < |n0| ==> nodes[k].course == n0[k].course)
    && (forall k :: k in examined ==> k in q0)
    && (forall k :: k in evicted ==> k in examined)
    && (forall k :: k in gone <==> k in evicted)
    && InOrder(t) == Without(InOrder(t0), gone)
    && Evicted(nodes, t, evicted, reasons)
    && Shrunk(nodes, t, n0, t0)
  }

  /** Some prerequisite of c is not the key of any node of the tree. */
  ghost predicate MissesPrerequisite(nodes: seq<NodeRec>, t: Tree, c: Course)
  {
    exists p :: p in c.prerequisites && !HasKey(nodes, t, p)
  }

  /** Every examined node that misses a prerequisite in the starting tree
      (n0, t0) was evicted. */
  ghost predicate Caught(n0: seq<NodeRec>, t0: Tree, examined: seq<int>, evicted: seq<int>)
  {
    forall k :: k in examined && MissesPrerequisite(n0, t0, CourseAt(n0, k)) ==> k in evicted
  }

  /** A node checked and kept. When its check looked at every
      prerequisite (complete), all of them are in the tree, hence in the
      starting tree, so the node misses none there. */
  lemma KeepStep(nodes: seq<NodeRec>, t: Tree, n0: seq<NodeRec>, t0: Tree, q0: seq<int>,
                 examined: seq<int>, evicted: seq<int>, gone: set<int>, reasons: seq<string>, n: int, complete: bool)
    requires Progress(nodes, t, n0, t0, q0, examined, evicted, gone, reasons) && n in q0
    requires complete ==> Caught(n0, t0, examined, evicted) && AllFound(nodes, t, CourseAt(nodes, n).prerequisites)
    ensures Progress(nodes, t, n0, t0, q0, examined + [n], evicted, gone, reasons)
    ensures complete ==> Caught(n0, t0, examined + [n], evicted)
  {
    if complete {
      assert CourseAt(nodes, n) == CourseAt(n0, n);
      forall p | p in CourseAt(n0, n).prerequisites ensures HasKey(n0, t0, p) {
        assert HasKey(nodes, t, p);
      }
    }
  }

  /** A node checked and removed for a missing prerequisite: the courses
      stay, the reason is recorded, the listing loses the node and no id
      is added. */
  lemma EvictionStep(nodes: seq<NodeRec>, t: Tree, n0: seq<NodeRec>, t0: Tree, q0: seq<int>,
                     examined: seq<int>, evicted: seq<int>, gone: set<int>, reasons: seq<string>, n: int, reason: string)
    requires Progress(nodes, t, n0, t0, q0, examined, evicted, gone, reasons) && n in q0
    requires InArena(nodes) && Linked(nodes, t) && Ordered(nodes, t) && ParentLinked(nodes, t, -1)
    requires n in Handles(t) && n != Root(t) && SplicableAt(t, n)
    requires reason in CourseAt(nodes, n).prerequisites && !HasKey(nodes, t, reason)
    ensures Progress(Removed(nodes, t, n), Pruned(t, n), n0, t0, q0, examined + [n], evicted + [n], gone + {n}, reasons + [reason])
    ensures Caught(n0, t0, examined, evicted) ==> Caught(n0, t0, examined + [n], evicted + [n])
  {
    HandlesInArena(nodes, t);
    RemovedValid(nodes, t, n);
    UnlinkedFrame(nodes, n, Successor(t, n));
    var a := Removed(nodes, t, n);
    PrunedKeys(nodes, a, t, n);
    WithoutTwice(InOrder(t0), gone, {n});
    assert forall k :: CourseAt(a, k) == CourseAt(nodes, k);
  }

  /** The reasons recorded witness that each evicted node misses a prerequisite. */
  lemma EvictedWitness(nodes: seq<NodeRec>, t: Tree, evicted: seq<int>, reasons: seq<string>)
    requires Evicted(nodes, t, evicted, reasons)
    ensures forall j :: 0 <= j < |evicted| ==> MissesPrerequisite(nodes, t, CourseAt(nodes, evicted[j]))
  {
    forall j | 0 <= j < |evicted|
      ensures MissesPrerequisite(nodes, t, CourseAt(nodes, evicted[j]))
    {
      var p := reasons[j];
      assert p in CourseAt(nodes, evicted[j]).prerequisites && !HasKey(nodes, t, p);
    }
  }

  /** The pass starts with nothing examined or evicted. */
  lemma ProgressStart(nodes: seq<NodeRec>, t: Tree, q0: seq<int>)
    ensures Progress(nodes, t, nodes, t, q0, [], [], {}, [])
    ensures Caught(nodes, t, [], [])
  {
    WithoutNone(InOrder(t), {});
  }

  /** What validateCourses guarantees on the arena (nodes) and shape (t)
      it leaves: the courses are those it started with (n0), the nodes it
      examined came from its queue (q0), those it evicted were examined,
      the listing is the starting one (that of t0) without the evicted
      nodes, and each evicted node misses a prerequisite. */
  ghost predicate Checked(nodes: seq<NodeRec>, t: Tree, n0: seq<NodeRec>, t0: Tree, q0: seq<int>,
                          examined: seq<int>, evicted: seq<int>)
  {
    && |nodes| == |n0| && (forall k :: 0 <= k < |n0| ==> nodes[k].course == n0[k].course)
    && (forall k :: k in examined ==> k in q0)
    && (forall k :: k in evicted ==> k in examined)
    && InOrder(t) == Without(InOrder(t0), set k | k in evicted)
    && (forall j :: 0 <= j < |evicted| ==> MissesPrerequisite(nodes, t, CourseAt(nodes, evicted[j])))
  }

  /** The record of a finished pass gives what validateCourses guarantees. */
  lemma ProgressChecked(nodes: seq<NodeRec>, t: Tree, n0: seq<NodeRec>, t0: Tree, q0: seq<int>,
                        examined: seq<int>, evicted: seq<int>, gone: set<int>, reasons: seq<string>)
    requires Progress(nodes, t, n0, t0, q0, examined, evicted, gone, reasons)
    ensures Checked(nodes, t, n0, t0, q0, examined, evicted)
  {
    var listed := set k | k in evicted;
    assert forall k :: k in gone <==> k in listed;
    assert gone == listed;
    EvictedWitness(nodes, t, evicted, reasons);
  }

  /** q is what is left of q0 after some entries were taken from its front. */
  ghost predicate Rest(q: seq<int>, q0: seq<int>)
  {
    |q| <= |q0| && q == q0[|q0| - |q|..]
  }

  /** Taking cut entries from the front keeps the queue a suffix of the
      starting one; when the entries taken so far (examined) and the queue
      made up the starting queue and one entry is taken, they still do. */
  lemma Advance(q0: seq<int>, cut: nat, q1: seq<int>, q: seq<int>, examined: seq<int>, one: bool)
    requires Rest(q1, q0) && q1 != [] && 1 <= cut <= |q1| && q == q1[cut..]
    requires one ==> examined + q1 == q0 && cut == 1
    ensures q1[0] in q0 && Rest(q, q0)
    ensures one ==> (examined + [q1[0]]) + q == q0
  {
    assert q1[0] == q0[|q0| - |q1|];
    if one {
      assert q1 == [q1[0]] + q1[1..];
    }
  }

  /** After loading the courses cs into a tree that held the arena n0 with
      handles h0: the new nodes follow the old ones in order, hold cs, and
      are exactly the handles added to the tree. */
  ghost predicate Loaded(nodes: seq<NodeRec>, t: Tree, n0: seq<NodeRec>, h0: set<int>, cs: seq<Course>)
  {
    var base := |n0|;
    && |nodes| == base + |cs|
    && (forall k :: 0 <= k < base ==> nodes[k].course == n0[k].course)
    && (forall j :: 0 <= j < |cs| ==> nodes[base + j].course == cs[j])
    && (forall k :: k in Handles(t) <==> k in h0 || base <= k < base + |cs|)
  }

  lemma LoadedStep(nodes: seq<NodeRec>, t: Tree, n0: seq<NodeRec>, h0: set<int>, cs: seq<Course>, c: Course)
    requires Linked(nodes, t) && Loaded(nodes, t, n0, h0, cs)
    ensures Loaded(Grafted(nodes, t, c), Grow(nodes, t, |nodes|, c.id), n0, h0, cs + [c])
  {
    GrowHandles(nodes, t, |nodes|, c.id);
  }

  /** Appending the position h of the next course c to the queue when c
      has prerequisites keeps it the queue of the courses read so far. */
  lemma QueuedSnoc(q0: seq<int>, cs: seq<Course>, c: Course, base: int, q: seq<int>, q': seq<int>, h: int)
    requires q == q0 + Queued(cs, base) && h == base + |cs|
    requires q' == q + (if |c.prerequisites| > 0 then [h] else [])
    ensures q' == q0 + Queued(cs + [c], base)
  {
    assert (cs + [c])[..|cs|] == cs;
    if |c.prerequisites| == 0 {
      assert Queued(cs, base) + [] == Queued(cs, base);
    }
  }

  /** The arena and the shape after adding the courses cs, in order, to
      the tree (nodes, t), each as add does it. */
  ghost function Load(nodes: seq<NodeRec>, t: Tree, cs: seq<Course>): (r: (seq<NodeRec>, Tree))
    requires Linked(nodes, t)
    ensures Linked(r.0, r.1) && |r.0| == |nodes| + |cs|
    decreases |cs|
  {
    if cs == [] then (nodes, t)
    else
      var p := Load(nodes, t, cs[..|cs| - 1]);
      var c := cs[|cs| - 1];
      GrowLinked(p.0, p.1, c);
      (Grafted(p.0, p.1, c), Grow(p.0, p.1, |p.0|, c.id))
  }

  lemma LoadSnoc(nodes: seq<NodeRec>, t: Tree, cs: seq<Course>, c: Course)
    requires Linked(nodes, t)
    ensures var p := Load(nodes, t, cs);
      Load(nodes, t, cs + [c]) == (Grafted(p.0, p.1, c), Grow(p.0, p.1, |p.0|, c.id))
  {
    assert (cs + [c])[..|cs|] == cs;
  }

  /** Loading cs keeps the old courses, places cs after them in order and
      makes exactly the new nodes handles of the tree. */
  lemma {:induction false} LoadLoaded(nodes: seq<NodeRec>, t: Tree, cs: seq<Course>)
    requires Linked(nodes, t)
    ensures Loaded(Load(nodes, t, cs).0, Load(nodes, t, cs).1, nodes, Handles(t), cs)
  {
    if cs == [] {
    } else {
      var init := cs[..|cs| - 1];
      var c := cs[|cs| - 1];
      assert init + [c] == cs;
      LoadLoaded(nodes, t, init);
      var p := Load(nodes, t, init);
      LoadedStep(p.0, p.1, nodes, Handles(t), init, c);
      LoadSnoc(nodes, t, init, c);
      assert Load(nodes, t, cs) == (Grafted(p.0, p.1, c), Grow(p.0, p.1, |p.0|, c.id));
    }
  }

  /** The queue entries a pass has taken: the nodes examined, then the
      node it stopped at, if any. */
  function Taken(examined: seq<int>, stopped: bool, stop: int): seq<int>
  {
    if stopped then examined + [stop] else examined
  }

  /** The total of the counts in cuts. */
  function Sum(cuts: seq<nat>): nat
  {
    if cuts == [] then 0 else Sum(cuts[..|cuts| - 1]) + cuts[|cuts| - 1]
  }

  /** How a pass consumed the starting queue q0 in blocks: the i-th node
      examined is the entry after the cuts[0] + ... + cuts[i - 1] entries
      popped before it, and its check popped cuts[i] entries, at least one
      and at most its number of prerequisites (of its course in the arena
      n0); all of them unless it was evicted or it is the last one and the
      queue ran out (overrun). */
  ghost predicate Blocks(q0: seq<int>, n0: seq<NodeRec>, examined: seq<int>, evicted: seq<int>, cuts: seq<nat>, overrun: bool)
  {
    && |cuts| == |examined| && Sum(cuts) <= |q0|
    && forall i :: 0 <= i < |examined| ==>
      && Sum(cuts[..i]) < |q0| && examined[i] == q0[Sum(cuts[..i])]
      && 1 <= cuts[i] <= |CourseAt(n0, examined[i]).prerequisites|
      && (cuts[i] == |CourseAt(n0, examined[i]).prerequisites| || examined[i] in evicted
          || (overrun && i == |examined| - 1))
  }

  /** Checking the entry after the first Sum(cuts) entries, popping cut
      of them, extends the blocks by one. */
  lemma {:induction false} BlocksStep(q0: seq<int>, n0: seq<NodeRec>, examined: seq<int>, evicted: seq<int>, cuts: seq<nat>,
                                      node: int, cut: nat, removed: bool, overrun: bool)
    requires Blocks(q0, n0, examined, evicted, cuts, false) && Sum(cuts) < |q0| && node == q0[Sum(cuts)]
    requires 1 <= cut <= |CourseAt(n0, node).prerequisites| && Sum(cuts) + cut <= |q0|
    requires !removed && !overrun ==> cut == |CourseAt(n0, node).prerequisites|
    ensures Sum(cuts + [cut]) == Sum(cuts) + cut
    ensures Blocks(q0, n0, examined + [node], if removed then evicted + [node] else evicted, cuts + [cut], overrun)
  {
    var cs, ex, ev := cuts + [cut], examined + [node], if removed then evicted + [node] else evicted;
    assert cs[..|cuts|] == cuts;
    forall i | 0 <= i < |ex|
      ensures && Sum(cs[..i]) < |q0| && ex[i] == q0[Sum(cs[..i])]
              && 1 <= cs[i] <= |CourseAt(n0, ex[i]).prerequisites|
              && (cs[i] == |CourseAt(n0, ex[i]).prerequisites| || ex[i] in ev || (overrun && i == |ex| - 1))
    {
      if i < |cuts| {
        assert cs[..i] == cuts[..i];
        assert examined[i] in evicted ==> ex[i] in ev;
      } else {
        assert cs[..i] == cuts;
      }
    }
  }

  /** One turn of the pass, seen from the blocks: the check of the front
      node of the rest q1 of q0 popped cut entries; unless the turn was
      the unsafe eviction that ends the pass, the node joins the blocks
      with cut. */
  lemma {:induction false} BlocksNext(q0: seq<int>, n0: seq<NodeRec>, examined: seq<int>, evicted: seq<int>, cuts: seq<nat>,
                                      q1: seq<int>, node: int, cut: nat, removed: bool, overrun: bool, unsafe: bool,
                                      examined': seq<int>, evicted': seq<int>, queue: seq<int>)
    requires Blocks(q0, n0, examined, evicted, cuts, false) && Sum(cuts) <= |q0| && q1 == q0[Sum(cuts)..]
    requires q1 != [] && node == q1[0] && 1 <= cut <= |q1| && queue == q1[cut..]
    requires cut <= |CourseAt(n0, node).prerequisites|
    requires !removed && !overrun ==> cut == |CourseAt(n0, node).prerequisites|
    requires unsafe ==> !overrun && examined' == examined && evicted' == evicted
    requires !unsafe ==> examined' == examined + [node] && evicted' == if removed then evicted + [node] else evicted
    ensures var cuts' := if unsafe then cuts else cuts + [cut];
      && Blocks(q0, n0, examined', evicted', cuts', overrun)
      && (!unsafe ==> queue == q0[Sum(cuts')..])
      && (unsafe ==> Sum(cuts') < |q0| && node == q0[Sum(cuts')])
  {
    if !unsafe {
      BlocksStep(q0, n0, examined, evicted, cuts, node, cut, removed, overrun);
      assert queue == q0[Sum(cuts) + cut..];
    }
  }

  /** x is the key of one of the nodes hs of the arena n0. */
  ghost predicate Held(n0: seq<NodeRec>, hs: set<int>, x: string)
  {
    exists k :: k in hs && Key(n0, k) == x
  }

  /** Every id in ps is the key of one of the nodes hs. */
  ghost predicate AllHeld(n0: seq<NodeRec>, hs: set<int>, ps: seq<string>)
  {
    forall p :: p in ps ==> Held(n0, hs, p)
  }

  /** The nodes of the starting tree t0 still in the tree once the
      nodes before were checked: those not evicted among them. */
  ghost function Live(t0: Tree, evicted: seq<int>, before: seq<int>): (r: set<int>)
    ensures forall k :: k in r <==> k in Handles(t0) && !(k in evicted && k in before)
  {
    set k | k in Handles(t0) && !(k in evicted && k in before)
  }

  /** The check of node, which popped cut entries, against the tree
      holding the nodes live (of the arena n0): it found the first cut - 1
      prerequisites there, and the node was evicted exactly when the next
      one, the last it looked at, was not there. */
  ghost predicate Verdict(n0: seq<NodeRec>, live: set<int>, node: int, cut: int, evicted: bool)
  {
    var ps := CourseAt(n0, node).prerequisites;
    && 1 <= cut <= |ps|
    && AllHeld(n0, live, ps[..cut - 1])
    && (evicted <==> !Held(n0, live, ps[cut - 1]))
  }

  /** Each examined node was judged (Verdict) against the tree as it stood
      when its turn came: the starting tree t0 without the nodes evicted
      before it. */
  ghost predicate Judged(n0: seq<NodeRec>, t0: Tree, examined: seq<int>, evicted: seq<int>, cuts: seq<nat>)
  {
    && |cuts| == |examined|
    && forall i :: 0 <= i < |examined| ==>
         Verdict(n0, Live(t0, evicted, examined[..i]), examined[i], cuts[i], examined[i] in evicted)
  }

  /** x is in Without(s, X) exactly when it is in s and not in X. */
  lemma {:induction false} WithoutMembers(s: seq<int>, X: set<int>, x: int)
    ensures x in Without(s, X) <==> x in s && x !in X
  {
    if s != [] {
      WithoutMembers(s[1..], X, x);
      assert s == [s[0]] + s[1..];
    }
  }

  /** During the pass, the tree holds an id exactly when one of the live
      nodes of the starting tree does. */
  lemma LiveKeys(nodes: seq<NodeRec>, t: Tree, n0: seq<NodeRec>, t0: Tree, q0: seq<int>,
                 examined: seq<int>, evicted: seq<int>, gone: set<int>, reasons: seq<string>, x: string)
    requires Progress(nodes, t, n0, t0, q0, examined, evicted, gone, reasons)
    ensures HasKey(nodes, t, x) <==> Held(n0, Live(t0, evicted, examined), x)
  {
    InOrderHandles(t);
    InOrderHandles(t0);
    var live := Live(t0, evicted, examined);
    forall k ensures k in Handles(t) <==> k in live {
      WithoutMembers(InOrder(t0), gone, k);
    }
    assert forall k :: Key(nodes, k) == Key(n0, k);
  }

  /** One node checked against the tree of the record (nodes, t): its
      verdict, on the ids it looked at, extends the judgements. */
  lemma {:induction false} JudgedNext(nodes: seq<NodeRec>, t: Tree, n0: seq<NodeRec>, t0: Tree, q0: seq<int>,
                                      examined: seq<int>, evicted: seq<int>, gone: set<int>, reasons: seq<string>,
                                      cuts: seq<nat>, node: int, cut: nat, removed: bool)
    requires Progress(nodes, t, n0, t0, q0, examined, evicted, gone, reasons)
    requires Judged(n0, t0, examined, evicted, cuts) && node !in examined
    requires 1 <= cut <= |CourseAt(n0, node).prerequisites|
    requires var ps := CourseAt(n0, node).prerequisites;
      && (removed ==> !HasKey(nodes, t, ps[cut - 1]) && AllFound(nodes, t, ps[..cut - 1]))
      && (!removed ==> AllFound(nodes, t, ps[..cut]))
    ensures Judged(n0, t0, examined + [node], if removed then evicted + [node] else evicted, cuts + [cut])
  {
    var ps := CourseAt(n0, node).prerequisites;
    var ex, ev, cs := examined + [node], if removed then evicted + [node] else evicted, cuts + [cut];
    var live := Live(t0, evicted, examined);
    forall x ensures HasKey(nodes, t, x) <==> Held(n0, live, x) {
      LiveKeys(nodes, t, n0, t0, q0, examined, evicted, gone, reasons, x);
    }
    assert Verdict(n0, live, node, cut, removed) by {
      if !removed {
        assert ps[cut - 1] in ps[..cut];
        assert forall p :: p in ps[..cut - 1] ==> p in ps[..cut];
      }
    }
    forall i | 0 <= i < |ex|
      ensures Verdict(n0, Live(t0, ev, ex[..i]), ex[i], cs[i], ex[i] in ev)
    {
      if i < |examined| {
        assert ex[..i] == examined[..i] && ex[i] == examined[i] && cs[i] == cuts[i];
        assert Live(t0, ev, ex[..i]) == Live(t0, evicted, examined[..i]);
        assert ex[i] in ev <==> examined[i] in evicted;
      } else {
        assert ex[..i] == examined && ex[i] == node && cs[i] == cut;
        assert Live(t0, ev, ex[..i]) == live;
        assert node in ev <==> removed;
      }
    }
  }

  /** Two checks of the same node against the same tree that both look
      at every prerequisite unless they evict agree: the position of the
      first prerequisite missing fixes both the count and the verdict. */
  lemma VerdictUnique(n0: seq<NodeRec>, live: set<int>, node: int, cut1: int, evicted1: bool, cut2: int, evicted2: bool)
    requires Verdict(n0, live, node, cut1, evicted1) && Verdict(n0, live, node, cut2, evicted2)
    requires !evicted1 ==> cut1 == |CourseAt(n0, node).prerequisites|
    requires !evicted2 ==> cut2 == |CourseAt(n0, node).prerequisites|
    ensures cut1 == cut2 && evicted1 == evicted2
  {
    var ps := CourseAt(n0, node).prerequisites;
    if cut1 < cut2 {
      InTake(ps, cut1 - 1, cut2 - 1);
      assert false;
    } else if cut2 < cut1 {
      InTake(ps, cut2 - 1, cut1 - 1);
      assert false;
    }
  }

  lemma InTake<T>(s: seq<T>, i: int, n: int)
    requires 0 <= i < n <= |s|
    ensures s[i] in s[..n]
  {
    assert s[..n][i] == s[i];
  }

  /** Two records of complete passes over the same queue and tree agree on
      their first i turns. */
  lemma {:induction false} PrefixAgree(q0: seq<int>, n0: seq<NodeRec>, t0: Tree,
                                       examined1: seq<int>, evicted1: seq<int>, cuts1: seq<nat>,
                                       examined2: seq<int>, evicted2: seq<int>, cuts2: seq<nat>, i: nat)
    requires Blocks(q0, n0, examined1, evicted1, cuts1, false) && Judged(n0, t0, examined1, evicted1, cuts1)
    requires Blocks(q0, n0, examined2, evicted2, cuts2, false) && Judged(n0, t0, examined2, evicted2, cuts2)
    requires i <= |examined1| && i <= |examined2|
    ensures examined1[..i] == examined2[..i] && cuts1[..i] == cuts2[..i]
    ensures forall j :: 0 <= j < i ==> (examined1[j] in evicted1 <==> examined2[j] in evicted2)
  {
    if i > 0 {
      var j := i - 1;
      PrefixAgree(q0, n0, t0, examined1, evicted1, cuts1, examined2, evicted2, cuts2, j);
      var node := BlocksAt(q0, n0, examined1, evicted1, cuts1, j);
      var node2 := BlocksAt(q0, n0, examined2, evicted2, cuts2, j);
      var live := Live(t0, evicted1, examined1[..j]);
      LiveSame(t0, evicted1, examined1[..j], evicted2, examined2[..j]);
      JudgedAt(n0, t0, examined1, evicted1, cuts1, j);
      JudgedAt(n0, t0, examined2, evicted2, cuts2, j);
      VerdictUnique(n0, live, node, cuts1[j], node in evicted1, cuts2[j], node in evicted2);
      TakeNext(examined1, j);
      TakeNext(examined2, j);
      TakeNext(cuts1, j);
      TakeNext(cuts2, j);
      assert Sum(cuts1[..j]) == Sum(cuts2[..j]) && node2 == node;
      forall m | 0 <= m < i ensures examined1[m] in evicted1 <==> examined2[m] in evicted2 {
        if m == j {
          assert examined1[m] == node && examined2[m] == node;
        }
      }
    }
  }

  lemma TakeAll<T>(s: seq<T>)
    ensures s[..|s|] == s
  {
  }

  lemma TakeNext<T>(s: seq<T>, i: nat)
    requires i < |s|
    ensures s[..i + 1] == s[..i] + [s[i]]
  {
  }

  /** The i-th examined node is the queue entry after the earlier blocks. */
  lemma BlocksAt(q0: seq<int>, n0: seq<NodeRec>, examined: seq<int>, evicted: seq<int>, cuts: seq<nat>, i: nat)
      returns (node: int)
    requires Blocks(q0, n0, examined, evicted, cuts, false) && i < |examined|
    ensures node == examined[i] == q0[Sum(cuts[..i])]
    ensures cuts[i] == |CourseAt(n0, node).prerequisites| || node in evicted
  {
    node := examined[i];
  }

  /** The i-th verdict of a record. */
  lemma JudgedAt(n0: seq<NodeRec>, t0: Tree, examined: seq<int>, evicted: seq<int>, cuts: seq<nat>, i: nat)
    requires Judged(n0, t0, examined, evicted, cuts) && i < |examined|
    ensures Verdict(n0, Live(t0, evicted, examined[..i]), examined[i], cuts[i], examined[i] in evicted)
  {
  }

  /** Two prefixes of records that agree, position by position, on which
      of their nodes were evicted leave the same nodes live. */
  lemma LiveSame(t0: Tree, evicted1: seq<int>, before1: seq<int>, evicted2: seq<int>, before2: seq<int>)
    requires before1 == before2
    requires forall j :: 0 <= j < |before1| ==> (before1[j] in evicted1 <==> before2[j] in evicted2)
    ensures Live(t0, evicted1, before1) == Live(t0, evicted2, before2)
  {
    forall k ensures (k in evicted1 && k in before1) <==> (k in evicted2 && k in before2) {
      if k in before1 {
        var m :| 0 <= m < |before1| && before1[m] == k;
      }
    }
  }

  /** The record of a pass that ran to the end of the queue q0 without an
      overrun is determined by q0 and the starting tree: which nodes were
      examined, how many entries each popped, and which were evicted. With
      Checked, the tree the pass leaves is determined as well. */
  lemma PassDetermined(q0: seq<int>, n0: seq<NodeRec>, t0: Tree,
                       examined1: seq<int>, evicted1: seq<int>, cuts1: seq<nat>,
                       examined2: seq<int>, evicted2: seq<int>, cuts2: seq<nat>)
    requires Blocks(q0, n0, examined1, evicted1, cuts1, false) && Judged(n0, t0, examined1, evicted1, cuts1)
    requires Blocks(q0, n0, examined2, evicted2, cuts2, false) && Judged(n0, t0, examined2, evicted2, cuts2)
    requires Sum(cuts1) == |q0| && Sum(cuts2) == |q0|
    requires forall k :: k in evicted1 ==> k in examined1
    requires forall k :: k in evicted2 ==> k in examined2
    ensures examined1 == examined2 && cuts1 == cuts2
    ensures forall k :: k in evicted1 <==> k in evicted2
  {
    var n1, n2 := |examined1|, |examined2|;
    if n1 < n2 {
      PrefixAgree(q0, n0, t0, examined1, evicted1, cuts1, examined2, evicted2, cuts2, n1);
      TakeAll(cuts1);
      assert false;
    } else if n2 < n1 {
      PrefixAgree(q0, n0, t0, examined1, evicted1, cuts1, examined2, evicted2, cuts2, n2);
      TakeAll(cuts2);
      assert false;
    }
    PrefixAgree(q0, n0, t0, examined1, evicted1, cuts1, examined2, evicted2, cuts2, n1);
    assert examined1 == examined1[..n1] && examined2 == examined2[..n1];
    assert cuts1 == cuts1[..n1] && cuts2 == cuts2[..n1];
    forall k ensures k in evicted1 <==> k in evicted2 {
      if k in evicted1 {
        var m :| 0 <= m < n1 && examined1[m] == k;
      }
      if k in evicted2 {
        var m :| 0 <= m < n1 && examined2[m] == k;
      }
    }
  }

  /** The pass stopped at the queued node stop, which it found missing a
      prerequisite in the arena last and shape lastShape, and which is the
      root root0 or has two children. */
  ghost predicate Stopped(q0: seq<int>, root0: int, examined: seq<int>, stop: int, last: seq<NodeRec>, lastShape: Tree)
  {
    && stop in q0 && stop !in examined
    && InArena(last) && Linked(last, lastShape) && stop in Handles(lastShape) && 0 <= stop < |last|
    && (stop == root0 || !Sparse(last, stop))
    && MissesPrerequisite(last, lastShape, CourseAt(last, stop))
  }

  /** After n courses were added, starting with the count size0 on a tree
      that was empty or not: add counts every course but the one that
      becomes the root of an empty tree, and the tree is empty only while
      nothing was added to an empty tree. */
  ghost predicate Counted(size0: int, empty: bool, n: nat, size: int, root: int)
  {
    && size == size0 + n - (if empty && n > 0 then 1 else 0)
    && (root == -1 <==> empty && n == 0)
  }

  /** The arena, shape, queue and count readFile's loop reaches from
      (n0, t0, q0, size0) once the lines read so far gave the courses cs. */
  ghost predicate Reached(n0: seq<NodeRec>, t0: Tree, q0: seq<int>, size0: int, empty: bool, cs: seq<Course>,
                          nodes: seq<NodeRec>, shape: Tree, queue: seq<int>, size: int, root: int)
    requires Linked(n0, t0)
  {
    && nodes == Load(n0, t0, cs).0 && shape == Load(n0, t0, cs).1
    && queue == q0 + Queued(cs, |n0|) && Counted(size0, empty, |cs|, size, root)
  }

  /** One more line read: whatever addCourseToTree does with the course
      the line gives, or nothing when it gives none, reaches the state of
      the lines read up to and including it. */
  lemma {:induction false} NextLine(lines: seq<string>, i: int, cs: seq<Course>,
                                    n0: seq<NodeRec>, t0: Tree, q0: seq<int>, size0: int, empty: bool,
                                    nodes: seq<NodeRec>, shape: Tree, queue: seq<int>, size: int, root: int,
                                    nodes': seq<NodeRec>, shape': Tree, queue': seq<int>, size': int, root': int)
      returns (cs': seq<Course>)
    requires 0 <= i < |lines| && cs == Parsed(lines[..i]) && Linked(n0, t0) && Linked(nodes, shape)
    requires Reached(n0, t0, q0, size0, empty, cs, nodes, shape, queue, size, root)
    requires ParseCourse(lines[i]).None? ==>
      nodes' == nodes && shape' == shape && queue' == queue && size' == size && root' == root
    requires ParseCourse(lines[i]).Some? ==> var c := ParseCourse(lines[i]).value;
      && nodes' == Grafted(nodes, shape, c) && shape' == Grow(nodes, shape, |nodes|, c.id)
      && root' != -1 && (root != -1 ==> root' == root) && size' == size + (if root == -1 then 0 else 1)
      && queue' == queue + (if |c.prerequisites| > 0 then [|nodes|] else [])
    ensures cs' == Parsed(lines[..i + 1])
    ensures Reached(n0, t0, q0, size0, empty, cs', nodes', shape', queue', size', root')
  {
    ParsedSnoc(lines, i);
    var r := ParseCourse(lines[i]);
    if r.Some? {
      cs' := cs + [r.value];
      LoadSnoc(n0, t0, cs, r.value);
      QueuedSnoc(q0, cs, r.value, |n0|, queue, queue', |nodes|);
    } else {
      cs' := cs;
    }
  }

  class FileParser {
    /** The tree courses go into. */
    var tree: BSTree
    /** coursesToValidate: handles of added nodes with prerequisites,
        front first. */
    var queue: seq<int>

    constructor (t: BSTree)
      ensures tree == t && queue == []
    {
      tree := t;
      queue := [];
    }

    /** validateCourses can run on the queue q: see SafeQueue. */
    ghost predicate QueueSafe(q: seq<int>)
      reads this`tree, tree
    {
      SafeQueue(tree.nodes, tree.shape, q)
    }

    /** FileParser::addCourseToTree: adds the course and queues its node
        when it has prerequisites. */
    method AddCourseToTree(c: Course)
      requires tree.Valid()
      modifies this, tree
      ensures tree == old(tree) && tree.Valid()
      ensures tree.nodes == Grafted(old(tree.nodes), old(tree.shape), c)
      ensures tree.shape == Grow(old(tree.nodes), old(tree.shape), old(|tree.nodes|), c.id)
      ensures tree.root != -1 && (old(tree.root) != -1 ==> tree.root == old(tree.root))
      ensures tree.size == old(tree.size) + (if old(tree.root) == -1 then 0 else 1)
      ensures queue == old(queue) + if |c.prerequisites| > 0 then [old(|tree.nodes|)] else []
      ensures old(QueueSafe(queue)) ==> QueueSafe(queue)
      ensures old(tree.ParentsConsistent()) ==> tree.ParentsConsistent()
      ensures old(tree.SizeLags()) ==> tree.SizeLags()
    {
      ghost var n0, t0, q0 := tree.nodes, tree.shape, queue;
      var h := tree.Add(c);
      if SafeQueue(n0, t0, q0) {
        QueueGrows(n0, t0, q0, c);
      }
      if |c.prerequisites| > 0 {
        queue := queue + [h];
      }
    }

    /** One pass of the loop of FileParser::readFile: the line is parsed
        and, when it gives a course, the course is added. */
    method ReadLine(line: string)
      requires tree.Valid()
      modifies this, tree
      ensures tree == old(tree) && tree.Valid()
      ensures ParseCourse(line).None? ==>
        && tree.nodes == old(tree.nodes) && tree.shape == old(tree.shape) && queue == old(queue)
        && tree.root == old(tree.root) && tree.size == old(tree.size)
      ensures ParseCourse(line).Some? ==> var c := ParseCourse(line).value;
        && tree.nodes == Grafted(old(tree.nodes), old(tree.shape), c)
        && tree.shape == Grow(old(tree.nodes), old(tree.shape), old(|tree.nodes|), c.id)
        && tree.root != -1 && (old(tree.root) != -1 ==> tree.root == old(tree.root))
        && tree.size == old(tree.size) + (if old(tree.root) == -1 then 0 else 1)
      ensures ParseCourse(line).Some? && |ParseCourse(line).value.prerequisites| == 0 ==> queue == old(queue)
      ensures ParseCourse(line).Some? && |ParseCourse(line).value.prerequisites| > 0 ==> queue == old(queue) + [old(|tree.nodes|)]
      ensures old(QueueSafe(queue)) ==> QueueSafe(queue)
      ensures old(tree.ParentsConsistent()) ==> tree.ParentsConsistent()
      ensures old(tree.SizeLags()) ==> tree.SizeLags()
    {
      var course := ToCourse(line);
      if course.Some? {
        AddCourseToTree(course.value);
      }
    }

    /** The state of readFile's loop once the lines read so far gave the
        courses cs: they were added to the arena n0 and the shape t0 and
        queued after q0, and the count, which started at size0 on a tree
        that was empty or not, was kept as add keeps it. pc, safe and lag
        say which of parent consistency, a valid queue and the lagging
        count held at the start, and so still hold. */
    ghost predicate Loading(n0: seq<NodeRec>, t0: Tree, q0: seq<int>, cs: seq<Course>, size0: int, empty: bool,
                            pc: bool, safe: bool, lag: bool)
      reads this, tree
    {
      && Linked(n0, t0) && tree.Valid()
      && Reached(n0, t0, q0, size0, empty, cs, tree.nodes, tree.shape, queue, tree.size, tree.root)
      && (safe ==> QueueSafe(queue)) && (pc ==> tree.ParentsConsistent()) && (lag ==> tree.SizeLags())
    }

    /** ReadLine on lines[i], stated on the record of the lines read
        before it (see Loading). */
    method ReadNext(lines: seq<string>, i: nat, ghost cs: seq<Course>, ghost n0: seq<NodeRec>, ghost t0: Tree,
                    ghost q0: seq<int>, ghost size0: int, ghost empty: bool, ghost pc: bool, ghost safe: bool, ghost lag: bool)
        returns (ghost cs': seq<Course>)
      requires i < |lines| && cs == Parsed(lines[..i])
      requires Loading(n0, t0, q0, cs, size0, empty, pc, safe, lag)
      modifies this, tree
      ensures tree == old(tree) && cs' == Parsed(lines[..i + 1])
      ensures Loading(n0, t0, q0, cs', size0, empty, pc, safe, lag)
    {
      ghost var nodes, shape, q, size, root := tree.nodes, tree.shape, queue, tree.size, tree.root;
      ReadLine(lines[i]);
      cs' := NextLine(lines, i, cs, n0, t0, q0, size0, empty, nodes, shape, q, size, root,
                      tree.nodes, tree.shape, queue, tree.size, tree.root);
    }

    /** The loop of FileParser::readFile, on the lines already read: each
        line that parses is added, in order, and so is queued when it has
        prerequisites. */
    method LoadCourses(lines: seq<string>)
      requires tree.Valid()
      modifies this, tree
      ensures tree == old(tree) && tree.Valid()
      ensures tree.nodes == Load(old(tree.nodes), old(tree.shape), Parsed(lines)).0
      ensures tree.shape == Load(old(tree.nodes), old(tree.shape), Parsed(lines)).1
      ensures queue == old(queue) + Queued(Parsed(lines), old(|tree.nodes|))
      ensures tree.size == old(tree.size) + |Parsed(lines)| - (if old(tree.root) == -1 && |Parsed(lines)| > 0 then 1 else 0)
      ensures old(QueueSafe(queue)) ==> QueueSafe(queue)
      ensures old(tree.ParentsConsistent()) ==> tree.ParentsConsistent()
      ensures old(tree.SizeLags()) ==> tree.SizeLags()
    {
      ghost var n0, t0, q0 := tree.nodes, tree.shape, queue;
      ghost var pc, safe, lag := tree.ParentsConsistent(), QueueSafe(queue), tree.SizeLags();
      ghost var empty, size0 := tree.root == -1, tree.size;
      ReadLines(lines, n0, t0, q0, size0, empty, pc, safe, lag);
    }

    /** The loop of FileParser::readFile, stated on the record of the lines
        read (see Loading): from the state before any line, every line is
        read in turn. */
    method ReadLines(lines: seq<string>, ghost n0: seq<NodeRec>, ghost t0: Tree, ghost q0: seq<int>, ghost size0: int,
                     ghost empty: bool, ghost pc: bool, ghost safe: bool, ghost lag: bool)
      requires Loading(n0, t0, q0, [], size0, empty, pc, safe, lag)
      modifies this, tree
      ensures tree == old(tree) && Loading(n0, t0, q0, Parsed(lines), size0, empty, pc, safe, lag)
    {
      ghost var cs: seq<Course> := [];
      var i := 0;
      while i < |lines|
        invariant 0 <= i <= |lines| && cs == Parsed(lines[..i])
        invariant tree == old(tree) && Loading(n0, t0, q0, cs, size0, empty, pc, safe, lag)
      {
        cs := ReadNext(lines, i, cs, n0, t0, q0, size0, empty, pc, safe, lag);
        i := i + 1;
      }
      assert lines[..i] == lines;
    }

    /** The inner loop of FileParser::validateCourses for one node with the
        given prerequisites: each prerequisite looked at first pops the
        queue, then looks its id up; the loop stops at the first id the tree
        does not hold. popped counts the pops, which is the number of ids
        looked at. A pop on an empty queue sets overrun and stops. */
    method CheckPrerequisites(prerequisites: seq<string>) returns (missing: bool, overrun: bool, ghost popped: nat, ghost reason: string)
      requires tree.Valid() && queue != [] && |prerequisites| > 0
      modifies this`queue
      ensures 1 <= popped <= |old(queue)| && popped <= |prerequisites| && queue == old(queue)[popped..]
      ensures overrun ==>
        && !missing && popped == |old(queue)| < |prerequisites|
        && AllFound(tree.nodes, tree.shape, prerequisites[..popped])
      ensures missing ==>
        && reason == prerequisites[popped - 1] && !HasKey(tree.nodes, tree.shape, reason)
        && AllFound(tree.nodes, tree.shape, prerequisites[..popped - 1])
      ensures !missing && !overrun ==> popped == |prerequisites| && AllFound(tree.nodes, tree.shape, prerequisites)
    {
      ghost var q1 := queue;
      missing, overrun, popped, reason := false, false, 0, "";
      var i := 0;
      while i < |prerequisites| && !missing && !overrun
        invariant 0 <= i <= |prerequisites| && i <= |q1| && popped == i && queue == q1[i..]
        invariant overrun ==> !missing && i == |q1| < |prerequisites|
        invariant missing ==>
          && i > 0 && reason == prerequisites[i - 1] && !HasKey(tree.nodes, tree.shape, reason)
          && AllFound(tree.nodes, tree.shape, prerequisites[..i - 1])
        invariant !missing ==> AllFound(tree.nodes, tree.shape, prerequisites[..i])
        decreases |prerequisites| - i + (if overrun || missing then 0 else 1)
      {
        if queue == [] {
          overrun := true;
        } else {
          queue := queue[1..];
          var details := tree.GetDetails(prerequisites[i]);
          if details == NotFound {
            missing := true;
            reason := prerequisites[i];
          } else {
            AllFoundSnoc(tree.nodes, tree.shape, prerequisites, i);
          }
          i := i + 1;
          popped := i;
        }
      }
      assert prerequisites[..|prerequisites|] == prerequisites;
    }

    /** One pass of the loop of FileParser::validateCourses: the front
        node's prerequisites are checked (CheckPrerequisites), popping the
        queue once per prerequisite looked at, and the node is removed when
        one of them is not in the tree. cut is the number of entries
        popped, node the front node and reason the missing id. unsafe says
        that the removal was of the root or of a node with two children,
        after which the tree is no longer one the pass can go on with. The
        ghost parameters are the record of the pass so far (see Progress),
        which the pass extends with this node. */
    method ValidateFront(ghost n0: seq<NodeRec>, ghost t0: Tree, ghost q0: seq<int>, ghost examined: seq<int>,
                         ghost evicted: seq<int>, ghost gone: set<int>, ghost reasons: seq<string>)
        returns (overrun: bool, unsafe: bool, node: int, removed: bool, ghost cut: nat, ghost reason: string)
      requires tree.Valid() && tree.ParentsConsistent() && QueueSafe(queue) && queue != []
      requires Progress(tree.nodes, tree.shape, n0, t0, q0, examined, evicted, gone, reasons) && Rest(queue, q0)
      modifies this, tree
      ensures tree == old(tree) && tree.root == old(tree.root)
      ensures node == old(queue)[0] && node in Handles(old(tree.shape)) && 0 <= node < |old(tree.nodes)|
      ensures var ps := CourseAt(old(tree.nodes), node).prerequisites;
        1 <= cut <= |old(queue)| && cut <= |ps|
      ensures queue == old(queue)[cut..] && Rest(queue, q0) && SafeQueue(old(tree.nodes), old(tree.shape), queue)
      ensures node !in queue && forall k :: k in queue ==> k in old(queue)
      ensures var ps := CourseAt(old(tree.nodes), node).prerequisites;
        && (overrun ==> !removed && cut == |old(queue)| < |ps| && AllFound(old(tree.nodes), old(tree.shape), ps[..cut]))
        && (!removed && !overrun ==> cut == |ps| && AllFound(old(tree.nodes), old(tree.shape), ps))
        && (removed ==>
              && reason == ps[cut - 1] && !HasKey(old(tree.nodes), old(tree.shape), reason)
              && AllFound(old(tree.nodes), old(tree.shape), ps[..cut - 1]))
      ensures unsafe <==> removed && (node == old(tree.root) || !Sparse(old(tree.nodes), node))
      ensures !removed ==> tree.nodes == old(tree.nodes) && tree.shape == old(tree.shape) && tree.size == old(tree.size)
      ensures removed ==> tree.nodes == Removed(old(tree.nodes), old(tree.shape), node) && tree.size == old(tree.size) - 1
      ensures !unsafe ==> tree.Valid() && tree.ParentsConsistent() && QueueSafe(queue)
      ensures !unsafe && old(tree.SizeLags()) ==> tree.SizeLags()
      ensures !removed ==> Progress(tree.nodes, tree.shape, n0, t0, q0, examined + [node], evicted, gone, reasons)
      ensures !removed && !overrun && Caught(n0, t0, examined, evicted) ==> Caught(n0, t0, examined + [node], evicted)
      ensures removed && !unsafe ==>
        && SplicableAt(old(tree.shape), node) && tree.shape == Pruned(old(tree.shape), node)
        && InOrder(tree.shape) == Without(old(InOrder(tree.shape)), {node})
        && Progress(tree.nodes, tree.shape, n0, t0, q0, examined + [node], evicted + [node], gone + {node}, reasons + [reason])
        && (Caught(n0, t0, examined, evicted) ==> Caught(n0, t0, examined + [node], evicted + [node]))
      ensures node in q0
      ensures |CourseAt(n0, node).prerequisites| == 1 ==> !overrun && cut == 1
      ensures examined + old(queue) == q0 && cut == 1 ==> (examined + [node]) + queue == q0
    {
      node := queue[0];
      HandlesInArena(tree.nodes, tree.shape);
      var prerequisites := tree.nodes[node].course.prerequisites;
      assert CourseAt(n0, node) == CourseAt(tree.nodes, node);
      ghost var q1, a0, s0 := queue, tree.nodes, tree.shape;
      var missing;
      ghost var popped;
      missing, overrun, popped, reason := CheckPrerequisites(prerequisites);
      cut := popped;
      SafeQueueSuffix(a0, s0, q1, cut);
      removed := missing;
      unsafe := missing && (node == tree.root || (tree.nodes[node].left != -1 && tree.nodes[node].right != -1));
      if missing {
        if !unsafe {
          RemovalKeepsSafeQueue(a0, s0, node, queue);
          EvictionStep(a0, s0, n0, t0, q0, examined, evicted, gone, reasons, node, reason);
        }
        tree.Remove(node);
      } else {
        KeepStep(a0, s0, n0, t0, q0, examined, evicted, gone, reasons, node, !overrun && Caught(n0, t0, examined, evicted));
      }
      Advance(q0, cut, q1, queue, examined, examined + q1 == q0 && cut == 1);
    }

    /** The state of validateCourses' loop, started on the arena n0, the
        shape t0, the queue q0, the root root0 and the count size0: the
        record so far holds (Progress), against the arena and shape last
        and lastShape; the popped entries are examined; while no unsafe
        removal happened, the tree is last and lastShape, still a valid,
        parent-consistent tree with a valid queue and size0 less the
        evictions; after one, the pass stopped at stop. oneEach says that
        every queued node has one prerequisite, lag that the count lagged
        at the start. */
    ghost predicate Passing(n0: seq<NodeRec>, t0: Tree, q0: seq<int>, root0: int, size0: int, lag: bool, oneEach: bool,
                            overrun: bool, unsafe: bool, examined: seq<int>, evicted: seq<int>, gone: set<int>,
                            reasons: seq<string>, stop: int, last: seq<NodeRec>, lastShape: Tree)
      reads this, tree
    {
      && tree.root == root0 && Rest(queue, q0)
      && (overrun ==> queue == [] && !unsafe)
      && Progress(last, lastShape, n0, t0, q0, examined, evicted, gone, reasons)
      && (!overrun ==> Caught(n0, t0, examined, evicted))
      && (forall k :: k in examined ==> k !in queue)
      && (!unsafe ==>
            && tree.nodes == last && tree.shape == lastShape && tree.Valid() && tree.ParentsConsistent()
            && QueueSafe(queue) && tree.size == size0 - |evicted| && (lag ==> tree.SizeLags()))
      && (unsafe ==>
            && Stopped(q0, root0, examined, stop, last, lastShape)
            && tree.nodes == Removed(last, lastShape, stop) && tree.size == size0 - |evicted| - 1)
      && (oneEach ==> !overrun && Taken(examined, unsafe, stop) + queue == q0)
    }

    /** One pass of validateCourses' loop (ValidateFront), with the record
        of the pass (see Passing) brought up to date. */
    method ValidateNext(ghost n0: seq<NodeRec>, ghost t0: Tree, ghost q0: seq<int>, ghost root0: int, ghost size0: int,
                        ghost lag: bool, ghost oneEach: bool, ghost examined: seq<int>, ghost evicted: seq<int>,
                        ghost gone: set<int>, ghost reasons: seq<string>, ghost stop: int, ghost last: seq<NodeRec>,
                        ghost lastShape: Tree)
        returns (overrun: bool, unsafe: bool, ghost examined': seq<int>, ghost evicted': seq<int>, ghost gone': set<int>,
                 ghost reasons': seq<string>, ghost stop': int, ghost last': seq<NodeRec>, ghost lastShape': Tree,
                 ghost node: int, ghost cut: nat, ghost removed: bool)
      requires queue != []
      requires Passing(n0, t0, q0, root0, size0, lag, oneEach, false, false, examined, evicted, gone, reasons, stop, last, lastShape)
      requires oneEach <==> forall k :: k in q0 ==> |CourseAt(n0, k).prerequisites| == 1
      modifies this, tree
      ensures tree == old(tree) && |queue| < old(|queue|)
      ensures tree.root == root0 && Rest(queue, q0)
      ensures overrun ==> queue == [] && !unsafe
      ensures Progress(last', lastShape', n0, t0, q0, examined', evicted', gone', reasons')
      ensures !overrun ==> Caught(n0, t0, examined', evicted')
      ensures forall k :: k in examined' ==> k !in queue
      ensures !unsafe ==> tree.nodes == last' && tree.shape == lastShape'
      ensures !unsafe ==> tree.Valid() && tree.ParentsConsistent()
      ensures !unsafe ==> QueueSafe(queue)
      ensures !unsafe ==> tree.size == size0 - |evicted'|
      ensures !unsafe ==> (lag ==> tree.SizeLags())
      ensures unsafe ==> Stopped(q0, root0, examined', stop', last', lastShape')
      ensures unsafe ==> tree.nodes == Removed(last', lastShape', stop') && tree.size == size0 - |evicted'| - 1
      ensures oneEach ==> !overrun && Taken(examined', unsafe, stop') + queue == q0
      ensures node == old(queue)[0] && 1 <= cut <= old(|queue|) && queue == old(queue)[cut..]
      ensures 1 <= cut <= |CourseAt(n0, node).prerequisites|
      ensures !removed && !overrun ==> cut == |CourseAt(n0, node).prerequisites|
      ensures unsafe ==> stop' == node && examined' == examined && evicted' == evicted
      ensures var ps := CourseAt(n0, node).prerequisites;
        && (removed ==> !HasKey(last, lastShape, ps[cut - 1]) && AllFound(last, lastShape, ps[..cut - 1]))
        && (!removed ==> AllFound(last, lastShape, ps[..cut]))
      ensures !unsafe ==> examined' == examined + [node] && evicted' == if removed then evicted + [node] else evicted
    {
      examined', evicted', gone', reasons', stop', last', lastShape' := examined, evicted, gone, reasons, stop, last, lastShape;
      var front, evict;
      ghost var reason;
      overrun, unsafe, front, evict, cut, reason := ValidateFront(n0, t0, q0, examined, evicted, gone, reasons);
      node, removed := front, evict;
      assert !removed && !overrun ==> CourseAt(n0, node).prerequisites[..cut] == CourseAt(n0, node).prerequisites;
      assert oneEach ==> |CourseAt(n0, node).prerequisites| == 1;
      assert CourseAt(n0, node) == CourseAt(last, node);
      if unsafe {
        stop' := node;
        assert reason in CourseAt(last, stop').prerequisites;
      } else {
        if removed {
          evicted', reasons', gone' := evicted + [node], reasons + [reason], gone + {node};
        }
        examined' := examined + [node];
        last', lastShape' := tree.nodes, tree.shape;
      }
    }

    /** One turn of validateCourses' loop (ValidateNext), with the blocks
        (see Blocks) brought up to date as well. */
    method ValidateTurn(ghost n0: seq<NodeRec>, ghost t0: Tree, ghost q0: seq<int>, ghost root0: int, ghost size0: int,
                        ghost lag: bool, ghost oneEach: bool, ghost examined: seq<int>, ghost evicted: seq<int>,
                        ghost gone: set<int>, ghost reasons: seq<string>, ghost stop: int, ghost last: seq<NodeRec>,
                        ghost lastShape: Tree, ghost cuts: seq<nat>)
        returns (overrun: bool, unsafe: bool, ghost examined': seq<int>, ghost evicted': seq<int>, ghost gone': set<int>,
                 ghost reasons': seq<string>, ghost stop': int, ghost last': seq<NodeRec>, ghost lastShape': Tree,
                 ghost cuts': seq<nat>)
      requires queue != []
      requires Passing(n0, t0, q0, root0, size0, lag, oneEach, false, false, examined, evicted, gone, reasons, stop, last, lastShape)
      requires oneEach <==> forall k :: k in q0 ==> |CourseAt(n0, k).prerequisites| == 1
      requires Blocks(q0, n0, examined, evicted, cuts, false) && queue == q0[Sum(cuts)..]
      requires Judged(n0, t0, examined, evicted, cuts)
      modifies this, tree
      ensures tree == old(tree) && |queue| < old(|queue|)
      ensures Passing(n0, t0, q0, root0, size0, lag, oneEach, overrun, unsafe, examined', evicted', gone', reasons', stop', last', lastShape')
      ensures Blocks(q0, n0, examined', evicted', cuts', overrun)
      ensures !unsafe ==> queue == q0[Sum(cuts')..]
      ensures unsafe ==> Sum(cuts') < |q0| && stop' == q0[Sum(cuts')]
      ensures Judged(n0, t0, examined', evicted', cuts')
    {
      ghost var q1 := queue;
      ghost var node, cut, removed;
      overrun, unsafe, examined', evicted', gone', reasons', stop', last', lastShape', node, cut, removed :=
        ValidateNext(n0, t0, q0, root0, size0, lag, oneEach, examined, evicted, gone, reasons, stop, last, lastShape);
      BlocksNext(q0, n0, examined, evicted, cuts, q1, node, cut, removed, overrun, unsafe, examined', evicted', queue);
      if !unsafe {
        JudgedNext(last, lastShape, n0, t0, q0, examined, evicted, gone, reasons, cuts, node, cut, removed);
      }
      cuts' := if unsafe then cuts else cuts + [cut];
    }

    /** FileParser::validateCourses: checks the front node (ValidateFront)
        until the queue is empty. The queue is popped once per prerequisite
        looked at, whichever node is in front, so with several prerequisites
        per node some queued nodes are never checked. A pop on an empty
        queue ends the pass with overrun set; an eviction of the root or of
        a node with two children (see ValidateFront) ends it with unsafe
        set, stop being that node. examined lists the nodes whose check ran
        and evicted those removed; last and lastShape are the arena and the
        shape before the removal that set unsafe, or the final ones; cuts
        counts the entries each examined node popped (see Blocks). */
    method ValidateCourses() returns (overrun: bool, unsafe: bool, ghost examined: seq<int>, ghost evicted: seq<int>,
                                      ghost stop: int, ghost last: seq<NodeRec>, ghost lastShape: Tree, ghost cuts: seq<nat>)
      requires tree.Valid() && tree.ParentsConsistent() && QueueSafe(queue)
      modifies this, tree
      ensures tree == old(tree) && tree.root == old(tree.root)
      ensures Checked(last, lastShape, old(tree.nodes), old(tree.shape), old(queue), examined, evicted)
      ensures !overrun ==> Caught(old(tree.nodes), old(tree.shape), examined, evicted)
      ensures !unsafe ==>
        && queue == [] && tree.nodes == last && tree.shape == lastShape
        && tree.Valid() && tree.ParentsConsistent() && tree.size == old(tree.size) - |evicted|
      ensures !unsafe && old(tree.SizeLags()) ==> tree.SizeLags()
      ensures unsafe ==>
        && !overrun && Stopped(old(queue), old(tree.root), examined, stop, last, lastShape)
        && tree.nodes == Removed(last, lastShape, stop) && tree.size == old(tree.size) - |evicted| - 1
      ensures (forall k :: k in old(queue) ==> |CourseAt(old(tree.nodes), k).prerequisites| == 1) ==>
        !overrun && Taken(examined, unsafe, stop) + queue == old(queue)
      ensures Blocks(old(queue), old(tree.nodes), examined, evicted, cuts, overrun)
      ensures !unsafe ==> Sum(cuts) == |old(queue)|
      ensures unsafe ==> Sum(cuts) < |old(queue)| && stop == old(queue)[Sum(cuts)]
      ensures Judged(old(tree.nodes), old(tree.shape), examined, evicted, cuts)
    {
      ghost var q0, n0, t0, root0, size0 := queue, tree.nodes, tree.shape, tree.root, tree.size;
      ghost var oneEach := forall k :: k in q0 ==> |CourseAt(n0, k).prerequisites| == 1;
      ghost var lag := tree.SizeLags();
      ghost var reasons: seq<string> := [];
      ghost var gone: set<int> := {};
      overrun, unsafe, examined, evicted, stop, cuts := false, false, [], [], -1, [];
      last, lastShape := tree.nodes, tree.shape;
      ProgressStart(n0, t0, q0);
      while queue != [] && !unsafe
        invariant tree == old(tree)
        invariant Passing(n0, t0, q0, root0, size0, lag, oneEach, overrun, unsafe, examined, evicted, gone, reasons, stop, last, lastShape)
        invariant Blocks(q0, n0, examined, evicted, cuts, overrun)
        invariant !unsafe ==> queue == q0[Sum(cuts)..]
        invariant unsafe ==> Sum(cuts) < |q0| && stop == q0[Sum(cuts)]
        invariant Judged(n0, t0, examined, evicted, cuts)
        decreases |queue|
      {
        overrun, unsafe, examined, evicted, gone, reasons, stop, last, lastShape, cuts :=
          ValidateTurn(n0, t0, q0, root0, size0, lag, oneEach, examined, evicted, gone, reasons, stop, last, lastShape, cuts);
      }
      ProgressChecked(last, lastShape, n0, t0, q0, examined, evicted, gone, reasons);
    }

    /** FileParser::readFile on the lines already read: every line that
        parses is added (LoadCourses), then the prerequisite pass runs
        (ValidateCourses) on the loaded tree and its queue. */
    method ReadFile(lines: seq<string>) returns (overrun: bool, unsafe: bool, ghost examined: seq<int>, ghost evicted: seq<int>,
                                                 ghost stop: int, ghost last: seq<NodeRec>, ghost lastShape: Tree,
                                                 ghost cuts: seq<nat>)
      requires tree.Valid() && tree.ParentsConsistent() && QueueSafe(queue)
      modifies this, tree
      ensures tree == old(tree)
      ensures tree.root == Root(Load(old(tree.nodes), old(tree.shape), Parsed(lines)).1)
      ensures var loaded := Load(old(tree.nodes), old(tree.shape), Parsed(lines));
        var q0 := old(queue) + Queued(Parsed(lines), old(|tree.nodes|));
        && Checked(last, lastShape, loaded.0, loaded.1, q0, examined, evicted)
        && (!overrun ==> Caught(loaded.0, loaded.1, examined, evicted))
        && Blocks(q0, loaded.0, examined, evicted, cuts, overrun)
        && Judged(loaded.0, loaded.1, examined, evicted, cuts)
        && (!unsafe ==> Sum(cuts) == |q0|)
        && (unsafe ==> Sum(cuts) < |q0| && stop == q0[Sum(cuts)])
      ensures var loaded := Load(old(tree.nodes), old(tree.shape), Parsed(lines));
        var q0 := old(queue) + Queued(Parsed(lines), old(|tree.nodes|));
        (forall k :: k in q0 ==> |CourseAt(loaded.0, k).prerequisites| == 1) ==>
          !overrun && Taken(examined, unsafe, stop) + queue == q0
      ensures var size1 := old(tree.size) + |Parsed(lines)| - (if old(tree.root) == -1 && |Parsed(lines)| > 0 then 1 else 0);
        !unsafe ==>
          && queue == [] && tree.nodes == last && tree.shape == lastShape && tree.Valid() && tree.ParentsConsistent()
          && tree.size == size1 - |evicted|
      ensures !unsafe && old(tree.SizeLags()) ==> tree.SizeLags()
      ensures var loaded := Load(old(tree.nodes), old(tree.shape), Parsed(lines));
        var q0 := old(queue) + Queued(Parsed(lines), old(|tree.nodes|));
        var size1 := old(tree.size) + |Parsed(lines)| - (if old(tree.root) == -1 && |Parsed(lines)| > 0 then 1 else 0);
        unsafe ==>
          && !overrun && Stopped(q0, Root(loaded.1), examined, stop, last, lastShape)
          && tree.nodes == Removed(last, lastShape, stop) && tree.size == size1 - |evicted| - 1
    {
      LoadCourses(lines);
      overrun, unsafe, examined, evicted, stop, last, lastShape, cuts := ValidateCourses();
    }
  }

  /** validateCourses pops one queue entry per prerequisite id it looks
      up, whichever course that entry belongs to. When the front node's
      course has two prerequisites and the tree holds both, checking it
      pops the next entry too: that node is never checked and stays in the
      tree, whether or not it misses a prerequisite. */
  method SkipBehindKept(p: FileParser) returns (node: int, overrun: bool, removed: bool)
    requires p.tree.Valid() && p.tree.ParentsConsistent() && p.QueueSafe(p.queue) && |p.queue| >= 2
    requires var ps := CourseAt(p.tree.nodes, p.queue[0]).prerequisites;
      |ps| == 2 && AllFound(p.tree.nodes, p.tree.shape, ps)
    modifies p, p.tree
    ensures node == old(p.queue[0]) && !overrun && !removed && p.queue == old(p.queue[2..])
    ensures p.tree.nodes == old(p.tree.nodes) && p.tree.shape == old(p.tree.shape)
    ensures old(p.queue[1]) in Handles(p.tree.shape)
  {
    ghost var n, s, q := p.tree.nodes, p.tree.shape, p.queue;
    ProgressStart(n, s, q);
    var unsafe;
    ghost var cut, reason;
    overrun, unsafe, node, removed, cut, reason := p.ValidateFront(n, s, q, [], [], {}, []);
  }
}
