/** The node arena behind BSTree and the binary tree its child links
    describe. Nodes live in a sequence of records addressed by index (a
    handle); -1 stands for a null link. The ghost Tree value names, for
    each node of the tree, its handle, so that ordering, parent links and
    the in-order walk can be stated over it. */
module TreeShape {
  import opened Lex
  import opened Courses

  /** One node: the course it owns and its left, right and parent links. */
  datatype NodeRec = NodeRec(course: Course, left: int, right: int, parent: int)

  /** The shape of the tree, by handles. */
  datatype Tree = Nil | Node(left: Tree, h: int, right: Tree)

  function Root(t: Tree): int
  {
    if t.Nil? then -1 else t.h
  }

  function Handles(t: Tree): set<int>
  {
    match t
    case Nil => {}
    case Node(l, h, r) => Handles(l) + {h} + Handles(r)
  }

  /** Left subtree, node, right subtree. */
  function InOrder(t: Tree): seq<int>
  {
    match t
    case Nil => []
    case Node(l, h, r) => InOrder(l) + [h] + InOrder(r)
  }

  function CourseAt(nodes: seq<NodeRec>, k: int): Course
  {
    if 0 <= k < |nodes| then nodes[k].course else Course("", "", [])
  }

  function Key(nodes: seq<NodeRec>, k: int): string
  {
    CourseAt(nodes, k).id
  }

  /** x is a null link or a handle of the arena. */
  predicate Ref(nodes: seq<NodeRec>, x: int)
  {
    -1 <= x < |nodes|
  }

  /** Every link of every record is null or a handle. */
  ghost predicate InArena(nodes: seq<NodeRec>)
  {
    forall k :: 0 <= k < |nodes| ==>
      Ref(nodes, nodes[k].left) && Ref(nodes, nodes[k].right) && Ref(nodes, nodes[k].parent)
  }

  /** The child links of the arena describe exactly the tree t: each node's
      left and right fields name the roots of its subtrees, and no handle
      occurs twice. */
  ghost predicate Linked(nodes: seq<NodeRec>, t: Tree)
  {
    match t
    case Nil => true
    case Node(l, h, r) =>
      && 0 <= h < |nodes|
      && nodes[h].left == Root(l) && nodes[h].right == Root(r)
      && h !in Handles(l) && h !in Handles(r) && Handles(l) !! Handles(r)
      && Linked(nodes, l) && Linked(nodes, r)
  }

  /** The search-tree order: every key in a left subtree is <= the node's
      key, every key in a right subtree is > it (equal keys go left). */
  ghost predicate Ordered(nodes: seq<NodeRec>, t: Tree)
  {
    match t
    case Nil => true
    case Node(l, h, r) =>
      && (forall k :: k in Handles(l) ==> LexLe(Key(nodes, k), Key(nodes, h)))
      && (forall k :: k in Handles(r) ==> Less(Key(nodes, h), Key(nodes, k)))
      && Ordered(nodes, l) && Ordered(nodes, r)
  }

  /** Parent consistency: each node's parent field names the node above it
      in t (p for the top of t). */
  ghost predicate ParentLinked(nodes: seq<NodeRec>, t: Tree, p: int)
  {
    match t
    case Nil => true
    case Node(l, h, r) =>
      0 <= h < |nodes| && nodes[h].parent == p && ParentLinked(nodes, l, h) && ParentLinked(nodes, r, h)
  }

  /** Keys in s never decrease. */
  ghost predicate SortedKeys(nodes: seq<NodeRec>, s: seq<int>)
  {
    forall i, j :: 0 <= i < j < |s| ==> LexLe(Key(nodes, s[i]), Key(nodes, s[j]))
  }

  // ---------------------------------------------------------------------
  // Basic facts

  lemma {:induction false} HandlesInArena(nodes: seq<NodeRec>, t: Tree)
    requires Linked(nodes, t)
    ensures forall k :: k in Handles(t) ==> 0 <= k < |nodes|
  {
    if t.Node? {
      HandlesInArena(nodes, t.left);
      HandlesInArena(nodes, t.right);
    }
  }

  lemma {:induction false} InOrderHandles(t: Tree)
    ensures forall k :: k in InOrder(t) <==> k in Handles(t)
  {
    if t.Node? {
      InOrderHandles(t.left);
      InOrderHandles(t.right);
    }
  }

  /** Linked depends only on the child links of the nodes of t. */
  lemma {:induction false} LinkedFrame(a: seq<NodeRec>, b: seq<NodeRec>, t: Tree)
    requires Linked(a, t)
    requires forall k :: k in Handles(t) ==> 0 <= k < |a| && k < |b| && b[k].left == a[k].left && b[k].right == a[k].right
    ensures Linked(b, t)
  {
    if t.Node? {
      LinkedFrame(a, b, t.left);
      LinkedFrame(a, b, t.right);
    }
  }

  /** Ordered depends only on the keys of the nodes of t. */
  lemma {:induction false} OrderedFrame(a: seq<NodeRec>, b: seq<NodeRec>, t: Tree)
    requires Ordered(a, t)
    requires forall k :: k in Handles(t) ==> Key(b, k) == Key(a, k)
    ensures Ordered(b, t)
  {
    if t.Node? {
      OrderedFrame(a, b, t.left);
      OrderedFrame(a, b, t.right);
    }
  }

  /** ParentLinked depends only on the parent links of the nodes of t. */
  lemma {:induction false} ParentFrame(a: seq<NodeRec>, b: seq<NodeRec>, t: Tree, p: int)
    requires ParentLinked(a, t, p)
    requires forall k :: k in Handles(t) ==> 0 <= k < |a| && k < |b| && b[k].parent == a[k].parent
    ensures ParentLinked(b, t, p)
  {
    if t.Node? {
      ParentFrame(a, b, t.left, t.h);
      ParentFrame(a, b, t.right, t.h);
    }
  }

  /** The in-order walk of an ordered tree lists keys in non-decreasing order. */
  lemma {:induction false} InOrderSorted(nodes: seq<NodeRec>, t: Tree)
    requires Ordered(nodes, t)
    ensures SortedKeys(nodes, InOrder(t))
  {
    if t.Node? {
      var l, h, r := t.left, t.h, t.right;
      InOrderSorted(nodes, l);
      InOrderSorted(nodes, r);
      InOrderHandles(l);
      InOrderHandles(r);
      var a, b := InOrder(l), InOrder(r);
      var s := InOrder(t);
      assert s == a + [h] + b;
      forall i, j | 0 <= i < j < |s|
        ensures LexLe(Key(nodes, s[i]), Key(nodes, s[j]))
      {
        var kh := Key(nodes, h);
        if j < |a| {
          assert s[i] == a[i] && s[j] == a[j];
        } else if i > |a| {
          assert s[i] == b[i - |a| - 1] && s[j] == b[j - |a| - 1];
        } else if i == |a| {
          assert s[j] == b[j - |a| - 1] && s[j] in Handles(r);
          LessLe(kh, Key(nodes, s[j]));
        } else {
          assert s[i] == a[i] && s[i] in Handles(l);
          if j == |a| {
            assert s[j] == h;
          } else {
            assert s[j] == b[j - |a| - 1] && s[j] in Handles(r);
            LessLe(kh, Key(nodes, s[j]));
            LeTrans(Key(nodes, s[i]), kh, Key(nodes, s[j]));
          }
        }
      }
    }
  }

  // ---------------------------------------------------------------------
  // Lookup (BSTree::getDetails)

  /** The handle of the first node on the search path for x whose key is
      x, or -1 when the descent falls off the tree. */
  function FindFirst(nodes: seq<NodeRec>, t: Tree, x: string): (f: int)
    ensures f == -1 || (f in Handles(t) && Key(nodes, f) == x)
  {
    match t
    case Nil => -1
    case Node(l, h, r) =>
      if Key(nodes, h) == x then h
      else if Less(x, Key(nodes, h)) then FindFirst(nodes, l, x)
      else FindFirst(nodes, r, x)
  }

  ghost predicate HasKey(nodes: seq<NodeRec>, t: Tree, x: string)
  {
    exists k :: k in Handles(t) && Key(nodes, k) == x
  }

  /** On an ordered tree the descent finds x exactly when some node has key
      x, and what it finds is such a node. */
  lemma {:induction false} FindFirstCorrect(nodes: seq<NodeRec>, t: Tree, x: string)
    requires Linked(nodes, t) && Ordered(nodes, t)
    ensures var f := FindFirst(nodes, t, x);
      && (f == -1 <==> !HasKey(nodes, t, x))
      && (f != -1 ==> f in Handles(t) && Key(nodes, f) == x)
  {
    if t.Node? {
      var l, h, r := t.left, t.h, t.right;
      var kh := Key(nodes, h);
      FindFirstCorrect(nodes, l, x);
      FindFirstCorrect(nodes, r, x);
      if kh == x {
        assert h in Handles(t);
      } else if Less(x, kh) {
        // nothing on the right: its keys exceed kh, which exceeds x
        forall k | k in Handles(r) ensures Key(nodes, k) != x {
          if Key(nodes, k) == x {
            LessLe(x, kh);
            LeAntisym(x, kh);
          }
        }
        if HasKey(nodes, t, x) {
          var k :| k in Handles(t) && Key(nodes, k) == x;
          assert k in Handles(l);
        }
      } else {
        // nothing on the left: its keys are at most kh, which is below x
        forall k | k in Handles(l) ensures Key(nodes, k) != x {
          if Key(nodes, k) == x {
            LeAntisym(x, kh);
          }
        }
        if HasKey(nodes, t, x) {
          var k :| k in Handles(t) && Key(nodes, k) == x;
          assert k in Handles(r);
        }
      }
    }
  }

  // ---------------------------------------------------------------------
  // Insertion (BSTree::add)

  /** Where add attaches a node with key x: a node with a free slot and
      which slot (left for x <= its key). */
  datatype Slot = Slot(at: int, goLeft: bool)

  function Attach(nodes: seq<NodeRec>, t: Tree, x: string): (s: Slot)
    requires t.Node?
    ensures s.at in Handles(t)
    decreases t
  {
    if LexLe(x, Key(nodes, t.h)) then
      if t.left == Nil then Slot(t.h, true) else Attach(nodes, t.left, x)
    else
      if t.right == Nil then Slot(t.h, false) else Attach(nodes, t.right, x)
  }

  /** The shape after inserting handle h with key x. */
  function Grow(nodes: seq<NodeRec>, t: Tree, h: int, x: string): (g: Tree)
    ensures Handles(g) == Handles(t) + {h}
  {
    match t
    case Nil => Node(Nil, h, Nil)
    case Node(l, k, r) =>
      if LexLe(x, Key(nodes, k)) then Node(Grow(nodes, l, h, x), k, r)
      else Node(l, k, Grow(nodes, r, h, x))
  }

  /** The arena after filling slot s with h and appending the new node. */
  function Fill(nodes: seq<NodeRec>, s: Slot, c: Course): (a: seq<NodeRec>)
    requires 0 <= s.at < |nodes|
    ensures |a| == |nodes| + 1 && a[|nodes|].course == c && a[|nodes|].parent == s.at
    ensures forall k :: 0 <= k < |nodes| ==> a[k].course == nodes[k].course && a[k].parent == nodes[k].parent
  {
    var h := |nodes|;
    var upd := if s.goLeft then nodes[s.at].(left := h) else nodes[s.at].(right := h);
    nodes[s.at := upd] + [NodeRec(c, -1, -1, s.at)]
  }

  /** The arena after BSTree::add(c) on the tree t. */
  ghost function Grafted(nodes: seq<NodeRec>, t: Tree, c: Course): (a: seq<NodeRec>)
    requires Linked(nodes, t)
    ensures |a| == |nodes| + 1 && a[|nodes|].course == c
    ensures forall k :: 0 <= k < |nodes| ==> a[k].course == nodes[k].course
  {
    if t == Nil then nodes + [NodeRec(c, -1, -1, -1)]
    else
      HandlesInArena(nodes, t);
      Fill(nodes, Attach(nodes, t, c.id), c)
  }

  /** Number of nodes whose key is below x: where x enters the walk. */
  function InsertionPoint(nodes: seq<NodeRec>, t: Tree, x: string): nat
  {
    match t
    case Nil => 0
    case Node(l, k, r) =>
      if LexLe(x, Key(nodes, k)) then InsertionPoint(nodes, l, x)
      else |InOrder(l)| + 1 + InsertionPoint(nodes, r, x)
  }

  lemma {:induction false} GrowLinkedAt(nodes: seq<NodeRec>, t: Tree, c: Course, s: Slot)
    requires Linked(nodes, t) && t.Node?
    requires s == Attach(nodes, t, c.id)
    ensures 0 <= s.at < |nodes|
    ensures Linked(Fill(nodes, s, c), Grow(nodes, t, |nodes|, c.id))
  {
    HandlesInArena(nodes, t);
    var a := Fill(nodes, s, c);
    var h := |nodes|;
    var l, k, r := t.left, t.h, t.right;
    var x := c.id;
    assert |a| == h + 1 && a[h] == NodeRec(c, -1, -1, s.at);
    assert forall j :: 0 <= j < h && j != s.at ==> a[j] == nodes[j];
    HandlesInArena(nodes, l);
    HandlesInArena(nodes, r);
    if LexLe(x, Key(nodes, k)) {
      if l == Nil {
        assert s == Slot(k, true);
        LinkedFrame(nodes, a, r);
        assert Linked(a, Node(Nil, h, Nil));
      } else {
        GrowLinkedAt(nodes, l, c, s);
        GrowHandles(nodes, l, h, x);
        LinkedFrame(nodes, a, r);
      }
    } else {
      if r == Nil {
        assert s == Slot(k, false);
        LinkedFrame(nodes, a, l);
        assert Linked(a, Node(Nil, h, Nil));
      } else {
        GrowLinkedAt(nodes, r, c, s);
        GrowHandles(nodes, r, h, x);
        LinkedFrame(nodes, a, l);
      }
    }
  }

  lemma {:induction false} GrowHandles(nodes: seq<NodeRec>, t: Tree, h: int, x: string)
    ensures Handles(Grow(nodes, t, h, x)) == Handles(t) + {h}
    ensures t.Node? ==> Root(Grow(nodes, t, h, x)) == Root(t)
  {
    if t.Node? {
      GrowHandles(nodes, t.left, h, x);
      GrowHandles(nodes, t.right, h, x);
    }
  }

  /** After add, the child links describe the grown shape. */
  lemma GrowLinked(nodes: seq<NodeRec>, t: Tree, c: Course)
    requires Linked(nodes, t)
    ensures Linked(Grafted(nodes, t, c), Grow(nodes, t, |nodes|, c.id))
  {
    if t.Node? {
      GrowLinkedAt(nodes, t, c, Attach(nodes, t, c.id));
    }
  }

  /** add leaves a well-formed search tree: every link stays inside the
      arena, the links describe the grown shape, which is ordered, and
      the root is the old one, or the new node when the tree was empty. */
  lemma GrowValid(nodes: seq<NodeRec>, t: Tree, c: Course)
    requires InArena(nodes) && Linked(nodes, t) && Ordered(nodes, t)
    ensures var a, g := Grafted(nodes, t, c), Grow(nodes, t, |nodes|, c.id);
      && InArena(a) && Linked(a, g) && Ordered(a, g)
      && Root(g) == (if t == Nil then |nodes| else Root(t))
  {
    var a, h := Grafted(nodes, t, c), |nodes|;
    GrowLinked(nodes, t, c);
    HandlesInArena(nodes, t);
    GrowOrdered(nodes, a, t, h, c.id);
    GrowHandles(nodes, t, h, c.id);
    assert forall k :: 0 <= k < h ==>
      a[k].left in {nodes[k].left, h} && a[k].right in {nodes[k].right, h} && a[k].parent == nodes[k].parent;
  }

  /** add keeps the search-tree order, whatever arena supplies the keys,
      as long as it keeps the old keys and gives h the key x. */
  lemma {:induction false} GrowOrdered(nodes: seq<NodeRec>, a: seq<NodeRec>, t: Tree, h: int, x: string)
    requires Ordered(nodes, t)
    requires forall k :: k in Handles(t) ==> Key(a, k) == Key(nodes, k)
    requires Key(a, h) == x
    ensures Ordered(a, Grow(nodes, t, h, x))
  {
    if t.Node? {
      var l, k, r := t.left, t.h, t.right;
      var kk := Key(nodes, k);
      assert Key(a, k) == kk;
      if LexLe(x, kk) {
        var g := Grow(nodes, l, h, x);
        GrowHandles(nodes, l, h, x);
        GrowOrdered(nodes, a, l, h, x);
        OrderedFrame(nodes, a, r);
        assert Grow(nodes, t, h, x) == Node(g, k, r);
        forall j | j in Handles(g) ensures LexLe(Key(a, j), kk) {
          if j != h {
            assert j in Handles(l);
          }
        }
        forall j | j in Handles(r) ensures Less(kk, Key(a, j)) {
          assert Key(a, j) == Key(nodes, j);
        }
      } else {
        var g := Grow(nodes, r, h, x);
        GrowHandles(nodes, r, h, x);
        GrowOrdered(nodes, a, r, h, x);
        OrderedFrame(nodes, a, l);
        assert Grow(nodes, t, h, x) == Node(l, k, g);
        forall j | j in Handles(g) ensures Less(kk, Key(a, j)) {
          if j == h {
            assert Key(a, j) == x;
          } else {
            assert j in Handles(r);
          }
        }
        forall j | j in Handles(l) ensures LexLe(Key(a, j), kk) {
          assert Key(a, j) == Key(nodes, j);
        }
      }
    }
  }

  /** The in-order walk after add is the old walk with h inserted at the
      insertion point: after every key below x, before every key >= x. */
  lemma {:induction false} GrowInOrder(nodes: seq<NodeRec>, t: Tree, h: int, x: string)
    requires Ordered(nodes, t)
    ensures var s, i := InOrder(t), InsertionPoint(nodes, t, x);
      && i <= |s|
      && InOrder(Grow(nodes, t, h, x)) == s[..i] + [h] + s[i..]
      && (forall j :: 0 <= j < i ==> Less(Key(nodes, s[j]), x))
      && (forall j :: i <= j < |s| ==> LexLe(x, Key(nodes, s[j])))
  {
    if t.Node? {
      GrowInOrder(nodes, t.left, h, x);
      GrowInOrder(nodes, t.right, h, x);
      if LexLe(x, Key(nodes, t.h)) {
        GrowInOrderLeft(nodes, t, h, x);
      } else {
        GrowInOrderRight(nodes, t, h, x);
      }
    }
  }

  /** Inserting h at position i of the left part of sl + [k] + sr is
      inserting it at position i of the whole. */
  lemma InsertLeft(sl: seq<int>, k: int, sr: seq<int>, i: nat, h: int)
    requires i <= |sl|
    ensures var s := sl + [k] + sr;
      && s[..i] == sl[..i] && s[i..] == sl[i..] + [k] + sr
      && (sl[..i] + [h] + sl[i..]) + [k] + sr == s[..i] + [h] + s[i..]
  {
    var s := sl + [k] + sr;
    assert s[..i] == sl[..i];
    assert s[i..] == sl[i..] + [k] + sr;
  }

  /** Inserting h at position i of the right part of sl + [k] + sr is
      inserting it at position |sl| + 1 + i of the whole. */
  lemma InsertRight(sl: seq<int>, k: int, sr: seq<int>, i: nat, h: int)
    requires i <= |sr|
    ensures var s, m := sl + [k] + sr, |sl| + 1 + i;
      && s[..m] == sl + [k] + sr[..i] && s[m..] == sr[i..]
      && sl + [k] + (sr[..i] + [h] + sr[i..]) == s[..m] + [h] + s[m..]
  {
    var s, m := sl + [k] + sr, |sl| + 1 + i;
    assert s[..m] == sl + [k] + sr[..i];
    assert s[m..] == sr[i..];
  }

  lemma GrowInOrderLeft(nodes: seq<NodeRec>, t: Tree, h: int, x: string)
    requires Ordered(nodes, t) && t.Node? && LexLe(x, Key(nodes, t.h))
    requires var s, i := InOrder(t.left), InsertionPoint(nodes, t.left, x);
      && i <= |s|
      && InOrder(Grow(nodes, t.left, h, x)) == s[..i] + [h] + s[i..]
      && (forall j :: 0 <= j < i ==> Less(Key(nodes, s[j]), x))
      && (forall j :: i <= j < |s| ==> LexLe(x, Key(nodes, s[j])))
    ensures var s, i := InOrder(t), InsertionPoint(nodes, t, x);
      && i <= |s|
      && InOrder(Grow(nodes, t, h, x)) == s[..i] + [h] + s[i..]
      && (forall j :: 0 <= j < i ==> Less(Key(nodes, s[j]), x))
      && (forall j :: i <= j < |s| ==> LexLe(x, Key(nodes, s[j])))
  {
    var l, k, r := t.left, t.h, t.right;
    var kk := Key(nodes, k);
    var sl, sr := InOrder(l), InOrder(r);
    var i := InsertionPoint(nodes, l, x);
    var s := sl + [k] + sr;
    assert InOrder(t) == s && InsertionPoint(nodes, t, x) == i;
    assert InOrder(Grow(nodes, t, h, x)) == InOrder(Grow(nodes, l, h, x)) + [k] + sr;
    InsertLeft(sl, k, sr, i, h);
    InOrderHandles(r);
    forall j | i <= j < |s| ensures LexLe(x, Key(nodes, s[j])) {
      if j < |sl| {
        assert s[j] == sl[j];
      } else if j == |sl| {
        assert s[j] == k;
      } else {
        assert s[j] == sr[j - |sl| - 1] && s[j] in Handles(r);
        LessLe(kk, Key(nodes, s[j]));
        LeTrans(x, kk, Key(nodes, s[j]));
      }
    }
    forall j | 0 <= j < i ensures Less(Key(nodes, s[j]), x) {
      assert s[j] == sl[j];
    }
  }

  lemma GrowInOrderRight(nodes: seq<NodeRec>, t: Tree, h: int, x: string)
    requires Ordered(nodes, t) && t.Node? && !LexLe(x, Key(nodes, t.h))
    requires var s, i := InOrder(t.right), InsertionPoint(nodes, t.right, x);
      && i <= |s|
      && InOrder(Grow(nodes, t.right, h, x)) == s[..i] + [h] + s[i..]
      && (forall j :: 0 <= j < i ==> Less(Key(nodes, s[j]), x))
      && (forall j :: i <= j < |s| ==> LexLe(x, Key(nodes, s[j])))
    ensures var s, i := InOrder(t), InsertionPoint(nodes, t, x);
      && i <= |s|
      && InOrder(Grow(nodes, t, h, x)) == s[..i] + [h] + s[i..]
      && (forall j :: 0 <= j < i ==> Less(Key(nodes, s[j]), x))
      && (forall j :: i <= j < |s| ==> LexLe(x, Key(nodes, s[j])))
  {
    var l, k, r := t.left, t.h, t.right;
    var kk := Key(nodes, k);
    var sl, sr := InOrder(l), InOrder(r);
    var i' := InsertionPoint(nodes, r, x);
    var s, i := sl + [k] + sr, |sl| + 1 + i';
    assert InOrder(t) == s && InsertionPoint(nodes, t, x) == i;
    assert InOrder(Grow(nodes, t, h, x)) == sl + [k] + (sr[..i'] + [h] + sr[i'..]);
    InsertRight(sl, k, sr, i', h);
    InOrderHandles(l);
    forall j | 0 <= j < i ensures Less(Key(nodes, s[j]), x) {
      if j < |sl| {
        assert s[j] == sl[j] && s[j] in Handles(l);
        LeLessTrans(Key(nodes, s[j]), kk, x);
      } else if j == |sl| {
        assert s[j] == k;
      } else {
        assert s[j] == sr[j - |sl| - 1];
      }
    }
    KeysAbove(nodes, sl, k, sr, i', x);
  }

  /** Keys at or above x from position i of sr stay so in sl + [k] + sr. */
  lemma KeysAbove(nodes: seq<NodeRec>, sl: seq<int>, k: int, sr: seq<int>, i: nat, x: string)
    requires i <= |sr| && forall j :: i <= j < |sr| ==> LexLe(x, Key(nodes, sr[j]))
    ensures var s := sl + [k] + sr;
      forall j :: |sl| + 1 + i <= j < |s| ==> LexLe(x, Key(nodes, s[j]))
  {
    var s := sl + [k] + sr;
    forall j | |sl| + 1 + i <= j < |s| ensures LexLe(x, Key(nodes, s[j])) {
      assert s[j] == sr[j - |sl| - 1];
    }
  }

  /** add keeps parent links consistent: the new node's parent is the node
      whose slot it filled. */
  lemma {:induction false} GrowParentsAt(nodes: seq<NodeRec>, t: Tree, c: Course, s: Slot, p: int)
    requires Linked(nodes, t) && ParentLinked(nodes, t, p) && t.Node?
    requires s == Attach(nodes, t, c.id)
    ensures 0 <= s.at < |nodes|
    ensures ParentLinked(Fill(nodes, s, c), Grow(nodes, t, |nodes|, c.id), p)
  {
    HandlesInArena(nodes, t);
    var a := Fill(nodes, s, c);
    var h := |nodes|;
    var l, k, r := t.left, t.h, t.right;
    assert forall j :: 0 <= j < h ==> a[j].parent == nodes[j].parent;
    assert a[h].parent == s.at;
    if LexLe(c.id, Key(nodes, k)) {
      if l == Nil {
        assert ParentLinked(a, Node(Nil, h, Nil), k);
      } else {
        GrowParentsAt(nodes, l, c, s, k);
      }
      ParentFrame(nodes, a, r, k);
    } else {
      if r == Nil {
        assert ParentLinked(a, Node(Nil, h, Nil), k);
      } else {
        GrowParentsAt(nodes, r, c, s, k);
      }
      ParentFrame(nodes, a, l, k);
    }
  }

  // ---------------------------------------------------------------------
  // Removal (Node::getSuccessorNode, Node::updateParent, BSTree::remove)

  /** The subtree of t whose top is handle n (Nil when n is not in t). */
  function SubtreeAt(t: Tree, n: int): (st: Tree)
    ensures Handles(st) <= Handles(t)
    ensures st.Node? ==> st.h == n
  {
    match t
    case Nil => Nil
    case Node(l, h, r) =>
      if h == n then t else if n in Handles(l) then SubtreeAt(l, n) else SubtreeAt(r, n)
  }

  /** The node reached from the top of t by following left links. */
  function LeftMost(t: Tree): (k: int)
    requires t.Node?
    ensures k in Handles(t)
  {
    if t.left == Nil then t.h else LeftMost(t.left)
  }

  /** getSuccessorNode for the node at the top of st: none for a leaf, the
      only child for a node with one child, and the left-most node of the
      right subtree for a node with two. */
  function SuccessorOf(st: Tree): (s: int)
    requires st.Node?
    ensures s == -1 || s in Handles(st.left) + Handles(st.right)
  {
    if st.left == Nil && st.right == Nil then -1
    else if st.left != Nil && st.right == Nil then Root(st.left)
    else if st.left == Nil && st.right != Nil then Root(st.right)
    else LeftMost(st.right)
  }

  function Successor(t: Tree, n: int): int
  {
    var st := SubtreeAt(t, n);
    if st.Nil? then -1 else SuccessorOf(st)
  }

  /** Node::updateParent: the parent's child link that names n (the left
      one if it does, otherwise the right one) now names s. */
  function Unhook(nodes: seq<NodeRec>, n: int, s: int): (a: seq<NodeRec>)
    requires 0 <= n < |nodes| && Ref(nodes, nodes[n].parent)
    ensures |a| == |nodes| && forall k :: 0 <= k < |nodes| && k != nodes[n].parent ==> a[k] == nodes[k]
    ensures forall k :: 0 <= k < |nodes| ==> a[k].course == nodes[k].course && a[k].parent == nodes[k].parent
  {
    var p := nodes[n].parent;
    if p == -1 then nodes
    else if nodes[p].left == n then nodes[p := nodes[p].(left := s)]
    else nodes[p := nodes[p].(right := s)]
  }

  /** BSTree::remove's relinking, given the successor s that remove
      computed before changing anything: updateParent, then s takes n's
      parent and, when n had two children, n's left child and (unless s is
      n's right child) n's right child. */
  function Unlinked(nodes: seq<NodeRec>, n: int, s: int): (a: seq<NodeRec>)
    requires 0 <= n < |nodes| && Ref(nodes, nodes[n].parent) && Ref(nodes, s)
    ensures |a| == |nodes| && forall k :: 0 <= k < |nodes| ==> a[k].course == nodes[k].course
  {
    var p, left, right := nodes[n].parent, nodes[n].left, nodes[n].right;
    var a := Unhook(nodes, n, s);
    if s == -1 then a
    else
      var b := a[s := a[s].(parent := p)];
      if left != -1 && right != -1 then
        var c := b[s := b[s].(left := left)];
        if c[n].right != s then c[s := c[s].(right := right)] else c
      else b
  }

  /** The arena after BSTree::remove(n) on the tree t. */
  ghost function Removed(nodes: seq<NodeRec>, t: Tree, n: int): (a: seq<NodeRec>)
    requires InArena(nodes) && Linked(nodes, t) && n in Handles(t)
    ensures |a| == |nodes| && forall k :: 0 <= k < |nodes| ==> a[k].course == nodes[k].course
  {
    HandlesInArena(nodes, t);
    Unlinked(nodes, n, Successor(t, n))
  }

  /** The removals the relinking handles correctly: at most one child, or
      a right child without a left child. */
  ghost predicate Splicable(st: Tree)
  {
    st.Node? && (st.left == Nil || st.right == Nil || st.right.left == Nil)
  }

  ghost predicate SplicableAt(t: Tree, n: int)
  {
    match t
    case Nil => true
    case Node(l, h, r) => (h == n ==> Splicable(t)) && SplicableAt(l, n) && SplicableAt(r, n)
  }

  /** The subtree that takes the place of st when its top node is removed. */
  function Promote(st: Tree): Tree
    requires Splicable(st)
  {
    if st.left == Nil then st.right
    else if st.right == Nil then st.left
    else Node(st.left, st.right.h, st.right.right)
  }

  /** The shape after removing n. */
  function Pruned(t: Tree, n: int): Tree
    requires SplicableAt(t, n)
  {
    match t
    case Nil => Nil
    case Node(l, h, r) => if h == n then Promote(t) else Node(Pruned(l, n), h, Pruned(r, n))
  }

  /** s without the handles in X, order kept. */
  function Without(s: seq<int>, X: set<int>): seq<int>
  {
    if s == [] then [] else (if s[0] in X then [] else [s[0]]) + Without(s[1..], X)
  }

  lemma {:induction false} WithoutAppend(a: seq<int>, b: seq<int>, X: set<int>)
    ensures Without(a + b, X) == Without(a, X) + Without(b, X)
  {
    if a != [] {
      WithoutAppend(a[1..], b, X);
      assert (a + b)[0] == a[0];
      assert (a + b)[1..] == a[1..] + b;
    } else {
      assert a + b == b;
    }
  }

  lemma {:induction false} WithoutNone(a: seq<int>, X: set<int>)
    requires forall i :: 0 <= i < |a| ==> a[i] !in X
    ensures Without(a, X) == a
  {
    if a != [] {
      WithoutNone(a[1..], X);
      assert a == [a[0]] + a[1..];
    }
  }

  lemma {:induction false} WithoutTwice(a: seq<int>, X: set<int>, Y: set<int>)
    ensures Without(Without(a, X), Y) == Without(a, X + Y)
  {
    if a != [] {
      WithoutTwice(a[1..], X, Y);
      var head := if a[0] in X then [] else [a[0]];
      WithoutAppend(head, Without(a[1..], X), Y);
    }
  }

  lemma {:induction false} SubtreeAtLinked(nodes: seq<NodeRec>, t: Tree, n: int)
    requires Linked(nodes, t) && n in Handles(t)
    ensures var st := SubtreeAt(t, n);
      st.Node? && st.h == n && Linked(nodes, st) && (Ordered(nodes, t) ==> Ordered(nodes, st))
  {
    var l, h, r := t.left, t.h, t.right;
    if h != n {
      if n in Handles(l) {
        SubtreeAtLinked(nodes, l, n);
      } else {
        SubtreeAtLinked(nodes, r, n);
      }
    }
  }

  /** The node's parent field is the parent of its subtree, and that
      parent is outside the subtree. */
  lemma {:induction false} SubtreeAtParent(nodes: seq<NodeRec>, t: Tree, p: int, n: int)
    requires Linked(nodes, t) && ParentLinked(nodes, t, p) && p !in Handles(t) && n in Handles(t)
    ensures 0 <= n < |nodes|
    ensures ParentLinked(nodes, SubtreeAt(t, n), nodes[n].parent)
    ensures nodes[n].parent !in Handles(SubtreeAt(t, n))
    ensures n != Root(t) ==> nodes[n].parent in Handles(t)
  {
    var l, h, r := t.left, t.h, t.right;
    if h != n {
      if n in Handles(l) {
        SubtreeAtParent(nodes, l, h, n);
      } else {
        SubtreeAtParent(nodes, r, h, n);
      }
    }
  }

  lemma {:induction false} LeftMostProps(nodes: seq<NodeRec>, t: Tree)
    requires Linked(nodes, t) && t.Node?
    ensures var m := LeftMost(t);
      && 0 <= m < |nodes| && nodes[m].left == -1
      && |InOrder(t)| > 0 && InOrder(t)[0] == m
      && (Ordered(nodes, t) ==> forall k :: k in Handles(t) ==> LexLe(Key(nodes, m), Key(nodes, k)))
  {
    var l, h, r := t.left, t.h, t.right;
    var m := LeftMost(t);
    if l == Nil {
      if Ordered(nodes, t) {
        forall k | k in Handles(t) ensures LexLe(Key(nodes, m), Key(nodes, k)) {
          if k == h {
            assert LexLe(Key(nodes, h), Key(nodes, h));
          } else {
            LessLe(Key(nodes, h), Key(nodes, k));
          }
        }
      }
    } else {
      LeftMostProps(nodes, l);
      if Ordered(nodes, t) {
        forall k | k in Handles(t) ensures LexLe(Key(nodes, m), Key(nodes, k)) {
          if k !in Handles(l) {
            if k == h {
            } else {
              LessLe(Key(nodes, h), Key(nodes, k));
              LeTrans(Key(nodes, m), Key(nodes, h), Key(nodes, k));
            }
          }
        }
      }
    }
  }

  /** getSuccessorNode: none for a leaf, the only child for a one-child
      node, and for a two-child node the left-most node of the right
      subtree: it has no left child, holds the smallest key there and is the
      first node of that subtree's in-order walk. */
  lemma SuccessorCorrect(nodes: seq<NodeRec>, t: Tree, n: int)
    requires Linked(nodes, t) && Ordered(nodes, t) && n in Handles(t) && 0 <= n < |nodes|
    ensures var st, s, left, right := SubtreeAt(t, n), Successor(t, n), nodes[n].left, nodes[n].right;
      && st.Node? && st.h == n
      && (left == -1 && right == -1 ==> s == -1)
      && (left != -1 && right == -1 ==> s == left)
      && (left == -1 && right != -1 ==> s == right)
      && (left != -1 && right != -1 ==>
            && s in Handles(st.right) && 0 <= s < |nodes| && nodes[s].left == -1
            && s == InOrder(st.right)[0]
            && forall k :: k in Handles(st.right) ==> LexLe(Key(nodes, s), Key(nodes, k)))
  {
    SubtreeAtLinked(nodes, t, n);
    var st := SubtreeAt(t, n);
    if st.left != Nil && st.right != Nil {
      LeftMostProps(nodes, st.right);
    }
  }

  /** What the relinking touches: the parent's record and the successor's,
      never a course. */
  lemma UnlinkedFrame(nodes: seq<NodeRec>, n: int, s: int)
    requires 0 <= n < |nodes| && Ref(nodes, nodes[n].parent) && Ref(nodes, s)
    ensures var a := Unlinked(nodes, n, s);
      && |a| == |nodes|
      && (forall k :: 0 <= k < |nodes| && k != nodes[n].parent && k != s ==> a[k] == nodes[k])
      && (forall k :: 0 <= k < |nodes| ==> a[k].course == nodes[k].course)
      && (forall k :: 0 <= k < |nodes| && k != s ==> a[k].parent == nodes[k].parent)
  {
  }

  /** The relinking rewrites, in n's parent, the child link that named n
      (the left one when it does). */
  lemma UnlinkedParent(nodes: seq<NodeRec>, n: int, s: int)
    requires 0 <= n < |nodes| && 0 <= nodes[n].parent < |nodes| && Ref(nodes, s) && s != nodes[n].parent
    ensures var p := nodes[n].parent;
      Unlinked(nodes, n, s)[p] == if nodes[p].left == n then nodes[p].(left := s) else nodes[p].(right := s)
  {
  }

  /** The relinking only writes null links or handles. */
  lemma UnlinkedInArena(nodes: seq<NodeRec>, n: int, s: int)
    requires InArena(nodes) && 0 <= n < |nodes| && Ref(nodes, s)
    ensures InArena(Unlinked(nodes, n, s))
  {
    var a := Unlinked(nodes, n, s);
    var p, left, right := nodes[n].parent, nodes[n].left, nodes[n].right;
    assert |a| == |nodes|;
    forall k | 0 <= k < |a|
      ensures Ref(a, a[k].left) && Ref(a, a[k].right) && Ref(a, a[k].parent)
    {
      assert a[k].left in {nodes[k].left, s, left};
      assert a[k].right in {nodes[k].right, s, right};
      assert a[k].parent in {nodes[k].parent, p};
    }
  }

  lemma {:induction false} PrunedAbsent(t: Tree, n: int)
    requires n !in Handles(t)
    ensures SplicableAt(t, n) && Pruned(t, n) == t
  {
    if t.Node? {
      PrunedAbsent(t.left, n);
      PrunedAbsent(t.right, n);
    }
  }

  lemma {:induction false} PrunedHandles(nodes: seq<NodeRec>, t: Tree, n: int)
    requires Linked(nodes, t) && SplicableAt(t, n)
    ensures Handles(Pruned(t, n)) == Handles(t) - {n}
    ensures t.Node? && t.h != n ==> Root(Pruned(t, n)) == t.h
  {
    if t.Node? {
      PrunedHandles(nodes, t.left, n);
      PrunedHandles(nodes, t.right, n);
    }
  }

  /** Removing n when st is the subtree on top of it: the promoted subtree
      is linked in the new arena and its top is the successor. */
  lemma PromoteLinked(nodes: seq<NodeRec>, st: Tree, s: int)
    requires st.Node? && Splicable(st) && InArena(nodes) && Linked(nodes, st)
    requires 0 <= st.h < |nodes| && nodes[st.h].parent !in Handles(st)
    requires s == SuccessorOf(st) && Ref(nodes, s)
    ensures Root(Promote(st)) == s
    ensures Linked(Unlinked(nodes, st.h, s), Promote(st))
  {
    var n, l, r := st.h, st.left, st.right;
    var a := Unlinked(nodes, n, s);
    UnlinkedFrame(nodes, n, s);
    HandlesInArena(nodes, st);
    if l == Nil {
      LinkedFrame(nodes, a, r);
    } else if r == Nil {
      LinkedFrame(nodes, a, l);
    } else {
      var rr := r.right;
      assert s == r.h;
      assert a[s].left == nodes[n].left == Root(l);
      assert a[s].right == nodes[s].right == Root(rr);
      LinkedFrame(nodes, a, l);
      LinkedFrame(nodes, a, rr);
    }
  }

  /** Removing a non-root node whose subtree is splicable: the new arena's
      child links describe the pruned shape. */
  lemma {:induction false} PrunedLinked(nodes: seq<NodeRec>, t: Tree, n: int, p: int, s: int)
    requires InArena(nodes) && Linked(nodes, t) && ParentLinked(nodes, t, p) && p !in Handles(t)
    requires n in Handles(t) && n != Root(t) && SplicableAt(t, n)
    requires 0 <= n < |nodes| && s == Successor(t, n) && Ref(nodes, s)
    ensures Linked(Unlinked(nodes, n, s), Pruned(t, n))
    decreases t, 1
  {
    if n in Handles(t.left) {
      PrunedLinkedLeft(nodes, t, n, p, s);
    } else {
      PrunedLinkedRight(nodes, t, n, p, s);
    }
  }

  lemma {:induction false} PrunedLinkedLeft(nodes: seq<NodeRec>, t: Tree, n: int, p: int, s: int)
    requires InArena(nodes) && Linked(nodes, t) && ParentLinked(nodes, t, p) && p !in Handles(t)
    requires t.Node? && n in Handles(t.left) && SplicableAt(t, n)
    requires 0 <= n < |nodes| && s == Successor(t, n) && Ref(nodes, s)
    ensures Linked(Unlinked(nodes, n, s), Pruned(t, n))
    decreases t, 0
  {
    var l, h, r := t.left, t.h, t.right;
    var a := Unlinked(nodes, n, s);
    HandlesInArena(nodes, t);
    UnlinkedFrame(nodes, n, s);
    PrunedAbsent(r, n);
    assert SubtreeAt(t, n) == SubtreeAt(l, n);
    SubtreeAtParent(nodes, l, h, n);
    var st := SubtreeAt(l, n);
    SubtreeAtLinked(nodes, l, n);
    assert Handles(st) == Handles(st.left) + {n} + Handles(st.right);
    assert s == -1 || s in Handles(l);
    assert nodes[n].parent == h || nodes[n].parent in Handles(l);
    LinkedFrame(nodes, a, r);
    if n == Root(l) {
      assert nodes[n].parent == h;
      PromoteLinked(nodes, l, s);
      UnlinkedParent(nodes, n, s);
    } else {
      PrunedLinked(nodes, l, n, h, s);
      PrunedHandles(nodes, l, n);
      assert a[h] == nodes[h];
    }
  }

  lemma {:induction false} PrunedLinkedRight(nodes: seq<NodeRec>, t: Tree, n: int, p: int, s: int)
    requires InArena(nodes) && Linked(nodes, t) && ParentLinked(nodes, t, p) && p !in Handles(t)
    requires t.Node? && n in Handles(t.right) && SplicableAt(t, n)
    requires 0 <= n < |nodes| && s == Successor(t, n) && Ref(nodes, s)
    ensures Linked(Unlinked(nodes, n, s), Pruned(t, n))
    decreases t, 0
  {
    var l, h, r := t.left, t.h, t.right;
    var a := Unlinked(nodes, n, s);
    HandlesInArena(nodes, t);
    UnlinkedFrame(nodes, n, s);
    PrunedAbsent(l, n);
    assert SubtreeAt(t, n) == SubtreeAt(r, n);
    SubtreeAtParent(nodes, r, h, n);
    var st := SubtreeAt(r, n);
    SubtreeAtLinked(nodes, r, n);
    assert Handles(st) == Handles(st.left) + {n} + Handles(st.right);
    assert s == -1 || s in Handles(r);
    assert nodes[n].parent == h || nodes[n].parent in Handles(r);
    LinkedFrame(nodes, a, l);
    if n == Root(r) {
      assert nodes[n].parent == h;
      PromoteLinked(nodes, r, s);
      assert nodes[h].left != n;
      UnlinkedParent(nodes, n, s);
    } else {
      PrunedLinked(nodes, r, n, h, s);
      PrunedHandles(nodes, r, n);
      assert a[h] == nodes[h];
    }
  }

  lemma WithoutAbsent(t: Tree, n: int)
    requires n !in Handles(t)
    ensures Without(InOrder(t), {n}) == InOrder(t)
  {
    InOrderHandles(t);
    WithoutNone(InOrder(t), {n});
  }

  /** Removing the top node of t from the walk leaves the walk of the
      subtree promoted in its place. */
  lemma PrunedInOrderTop(nodes: seq<NodeRec>, t: Tree, n: int)
    requires Linked(nodes, t) && t.Node? && t.h == n && Splicable(t)
    ensures InOrder(Promote(t)) == Without(InOrder(t), {n})
  {
    var l, r, X := t.left, t.right, {n};
    var a, b := InOrder(l), InOrder(r);
    assert InOrder(t) == (a + [n]) + b;
    WithoutAppend(a + [n], b, X);
    WithoutAppend(a, [n], X);
    assert Without([n], X) == [];
    WithoutAbsent(l, n);
    WithoutAbsent(r, n);
    assert Without(a + [n], X) == a;
    if l != Nil && r != Nil {
      assert InOrder(Promote(t)) == a + ([r.h] + InOrder(r.right));
    }
  }

  /** The in-order walk after a splicable removal is the old walk without n. */
  lemma {:induction false} PrunedInOrder(nodes: seq<NodeRec>, t: Tree, n: int)
    requires Linked(nodes, t) && SplicableAt(t, n)
    ensures InOrder(Pruned(t, n)) == Without(InOrder(t), {n})
  {
    if t.Node? {
      var l, h, r := t.left, t.h, t.right;
      if h == n {
        PrunedInOrderTop(nodes, t, n);
      } else {
        var X := {n};
        WithoutAppend(InOrder(l) + [h], InOrder(r), X);
        WithoutAppend(InOrder(l), [h], X);
        assert Without([h], X) == [h];
        PrunedInOrder(nodes, l, n);
        PrunedInOrder(nodes, r, n);
        assert Pruned(t, n) == Node(Pruned(l, n), h, Pruned(r, n));
      }
    }
  }

  /** A splicable removal keeps the search-tree order. */
  lemma {:induction false} PrunedOrdered(nodes: seq<NodeRec>, t: Tree, n: int)
    requires Linked(nodes, t) && Ordered(nodes, t) && SplicableAt(t, n)
    ensures Ordered(nodes, Pruned(t, n))
  {
    if t.Node? {
      var l, h, r := t.left, t.h, t.right;
      if h == n {
        if l != Nil && r != Nil {
          var kn, kr := Key(nodes, n), Key(nodes, r.h);
          forall k | k in Handles(l) ensures LexLe(Key(nodes, k), kr) {
            LeLessTrans(Key(nodes, k), kn, kr);
            LessLe(Key(nodes, k), kr);
          }
        }
      } else {
        PrunedOrdered(nodes, l, n);
        PrunedOrdered(nodes, r, n);
        PrunedHandles(nodes, l, n);
        PrunedHandles(nodes, r, n);
      }
    }
  }

  /** Removing the top of st when it has at most one child: the promoted
      subtree hangs from q with consistent parent links. */
  lemma PromoteParents(nodes: seq<NodeRec>, st: Tree, s: int, q: int)
    requires st.Node? && (st.left == Nil || st.right == Nil)
    requires InArena(nodes) && Linked(nodes, st) && ParentLinked(nodes, st, q) && q !in Handles(st)
    requires s == SuccessorOf(st) && Ref(nodes, s)
    ensures Splicable(st) && ParentLinked(Unlinked(nodes, st.h, s), Promote(st), q)
  {
    var n := st.h;
    var a := Unlinked(nodes, n, s);
    UnlinkedFrame(nodes, n, s);
    HandlesInArena(nodes, st);
    var c := if st.left == Nil then st.right else st.left;
    assert Promote(st) == c;
    if c.Node? {
      assert s == c.h && a[s].parent == q;
      ParentFrame(nodes, a, c.left, s);
      ParentFrame(nodes, a, c.right, s);
    }
  }

  /** Removing a non-root node with at most one child keeps every parent
      link consistent with the pruned shape. */
  lemma {:induction false} PrunedParents(nodes: seq<NodeRec>, t: Tree, n: int, p: int, s: int)
    requires InArena(nodes) && Linked(nodes, t) && ParentLinked(nodes, t, p) && p !in Handles(t)
    requires n in Handles(t) && n != Root(t) && 0 <= n < |nodes|
    requires nodes[n].left == -1 || nodes[n].right == -1
    requires SplicableAt(t, n) && s == Successor(t, n) && Ref(nodes, s)
    ensures ParentLinked(Unlinked(nodes, n, s), Pruned(t, n), p)
    decreases t, 1
  {
    if n in Handles(t.left) {
      PrunedParentsSide(nodes, t, n, p, s, true);
    } else {
      PrunedParentsSide(nodes, t, n, p, s, false);
    }
  }

  lemma {:induction false} PrunedParentsSide(nodes: seq<NodeRec>, t: Tree, n: int, p: int, s: int, onLeft: bool)
    requires InArena(nodes) && Linked(nodes, t) && ParentLinked(nodes, t, p) && p !in Handles(t)
    requires t.Node? && n in Handles(if onLeft then t.left else t.right) && 0 <= n < |nodes|
    requires nodes[n].left == -1 || nodes[n].right == -1
    requires SplicableAt(t, n) && s == Successor(t, n) && Ref(nodes, s)
    ensures ParentLinked(Unlinked(nodes, n, s), Pruned(t, n), p)
    decreases t, 0
  {
    var l, h, r := t.left, t.h, t.right;
    var side, other := if onLeft then l else r, if onLeft then r else l;
    var a := Unlinked(nodes, n, s);
    HandlesInArena(nodes, t);
    UnlinkedFrame(nodes, n, s);
    PrunedAbsent(other, n);
    assert SubtreeAt(t, n) == SubtreeAt(side, n);
    SubtreeAtParent(nodes, side, h, n);
    SubtreeAtLinked(nodes, side, n);
    var st := SubtreeAt(side, n);
    assert Handles(st) == Handles(st.left) + {n} + Handles(st.right);
    assert s == -1 || s in Handles(side);
    assert nodes[n].parent == h || nodes[n].parent in Handles(side);
    assert Handles(side) !! Handles(other) && h !in Handles(side);
    assert forall k :: k in Handles(other) ==> 0 <= k < |nodes| && k != s;
    ParentFrame(nodes, a, other, h);
    if n == Root(side) {
      PromoteParents(nodes, side, s, h);
    } else {
      PrunedParents(nodes, side, n, h, s);
    }
    if onLeft {
      assert Pruned(t, n) == Node(Pruned(l, n), h, r);
    } else {
      assert Pruned(t, n) == Node(l, h, Pruned(r, n));
    }
  }

  /** Removing the root when it has at most one child leaves every child
      link as it was: remove never moves the tree's root, so the shape, and
      the removed node in it, stay. */
  lemma RootRemovalKeepsShape(nodes: seq<NodeRec>, t: Tree, s: int)
    requires t.Node? && InArena(nodes) && Linked(nodes, t) && ParentLinked(nodes, t, -1)
    requires nodes[t.h].left == -1 || nodes[t.h].right == -1
    requires s == Successor(t, t.h) && Ref(nodes, s)
    ensures var a := Unlinked(nodes, t.h, s);
      && Linked(a, t)
      && (forall k :: 0 <= k < |nodes| ==> a[k].left == nodes[k].left && a[k].right == nodes[k].right)
  {
    var a := Unlinked(nodes, t.h, s);
    HandlesInArena(nodes, t);
    LinkedFrame(nodes, a, t);
  }

  /** Removing a node with two children leaves its old left child's parent
      field naming the removed node. */
  lemma TwoChildStaleParent(nodes: seq<NodeRec>, t: Tree, n: int)
    requires InArena(nodes) && Linked(nodes, t) && ParentLinked(nodes, t, -1) && n in Handles(t)
    requires 0 <= n < |nodes| && nodes[n].left != -1 && nodes[n].right != -1
    ensures Ref(nodes, Successor(t, n))
    ensures Unlinked(nodes, n, Successor(t, n))[nodes[n].left].parent == n
  {
    HandlesInArena(nodes, t);
    SubtreeAtLinked(nodes, t, n);
    SubtreeAtParent(nodes, t, -1, n);
    var st := SubtreeAt(t, n);
    var s := Successor(t, n);
    var left := nodes[n].left;
    assert left == st.left.h && left !in Handles(st.right);
    UnlinkedFrame(nodes, n, s);
    assert nodes[left].parent == n;
  }

  /** The parent of the left-most node of t, when t has a left subtree. */
  function LeftMostParent(t: Tree): (q: int)
    requires t.Node? && t.left.Node?
    ensures q in Handles(t)
  {
    if t.left.left == Nil then t.h else LeftMostParent(t.left)
  }

  lemma {:induction false} LeftMostParentProps(nodes: seq<NodeRec>, t: Tree)
    requires Linked(nodes, t) && t.Node? && t.left.Node?
    ensures var q := LeftMostParent(t);
      && 0 <= q < |nodes| && nodes[q].left == LeftMost(t) && q != LeftMost(t)
      && LeftMost(t) in Handles(t.left)
  {
    if t.left.left != Nil {
      LeftMostParentProps(nodes, t.left);
    }
  }

  /** Removing a node with two children whose successor lies deeper than
      its right child: the successor's old parent still names it as left
      child, while the successor now takes the removed node's right child as
      its own right child, so the successor's new right subtree contains
      the successor itself. */
  lemma DeepSuccessorLeavesCycle(nodes: seq<NodeRec>, t: Tree, n: int)
    requires InArena(nodes) && Linked(nodes, t) && ParentLinked(nodes, t, -1) && n in Handles(t)
    requires var st := SubtreeAt(t, n);
      st.Node? && st.left.Node? && st.right.Node? && st.right.left.Node?
    ensures var st := SubtreeAt(t, n);
      var s, q := LeftMost(st.right), LeftMostParent(st.right);
      && 0 <= n < |nodes| && 0 <= q < |nodes| && 0 <= s < |nodes|
      && s == Successor(t, n) && q in Handles(st.right) && q != s
      && var a := Unlinked(nodes, n, s);
      && a[q].left == s
      && a[s].left == nodes[n].left && a[s].right == nodes[n].right
      && (forall k :: k in Handles(st.right) && 0 <= k < |nodes| && k != s ==> a[k].left == nodes[k].left && a[k].right == nodes[k].right)
  {
    HandlesInArena(nodes, t);
    SubtreeAtLinked(nodes, t, n);
    SubtreeAtParent(nodes, t, -1, n);
    var st := SubtreeAt(t, n);
    var s, q, p := LeftMost(st.right), LeftMostParent(st.right), nodes[n].parent;
    LeftMostParentProps(nodes, st.right);
    assert s == Successor(t, n);
    assert Handles(st) == Handles(st.left) + {n} + Handles(st.right);
    assert s in Handles(st.right) && q in Handles(st.right) && p !in Handles(st);
    assert nodes[n].right == st.right.h && s != st.right.h;
    UnlinkedFrame(nodes, n, s);
    UnlinkedTwoChildren(nodes, n, s);
  }

  /** Removing a node with two children whose successor lies deeper than
      its right child leaves that right child's parent field naming the
      removed node as well: only the successor's parent field is set. */
  lemma DeepSuccessorStaleRight(nodes: seq<NodeRec>, t: Tree, n: int)
    requires InArena(nodes) && Linked(nodes, t) && ParentLinked(nodes, t, -1) && n in Handles(t)
    requires var st := SubtreeAt(t, n);
      st.Node? && st.left.Node? && st.right.Node? && st.right.left.Node?
    ensures 0 <= n < |nodes| && 0 <= nodes[n].right < |nodes| && Ref(nodes, Successor(t, n))
    ensures Unlinked(nodes, n, Successor(t, n))[nodes[n].right].parent == n
  {
    HandlesInArena(nodes, t);
    SubtreeAtLinked(nodes, t, n);
    SubtreeAtParent(nodes, t, -1, n);
    var st := SubtreeAt(t, n);
    var s, r := LeftMost(st.right), nodes[n].right;
    LeftMostParentProps(nodes, st.right);
    assert s == Successor(t, n);
    assert r == st.right.h && s != r;
    assert nodes[r].parent == n;
    UnlinkedFrame(nodes, n, s);
  }

  /** The relinking of a node n with two children, whose successor s is
      neither n's right child nor n's parent: s takes n's parent and both
      of n's children. */
  lemma UnlinkedTwoChildren(nodes: seq<NodeRec>, n: int, s: int)
    requires 0 <= n < |nodes| && Ref(nodes, nodes[n].parent) && 0 <= s < |nodes|
    requires s != n && s != nodes[n].parent && n != nodes[n].parent
    requires nodes[n].left != -1 && nodes[n].right != -1 && nodes[n].right != s
    ensures Unlinked(nodes, n, s)[s] == nodes[s].(parent := nodes[n].parent, left := nodes[n].left, right := nodes[n].right)
  {
    var a := Unhook(nodes, n, s);
    assert a[s] == nodes[s] && a[n] == nodes[n];
  }

  /** A node with at most one child. */
  ghost predicate Sparse(nodes: seq<NodeRec>, k: int)
    requires 0 <= k < |nodes|
  {
    nodes[k].left == -1 || nodes[k].right == -1
  }

  /** Removing a node with at most one child, whose parent names it as a
      child, leaves every other node with at most one child as it was. */
  lemma SparseKept(nodes: seq<NodeRec>, n: int)
    requires InArena(nodes) && 0 <= n < |nodes| && Sparse(nodes, n)
    requires var p := nodes[n].parent; p == -1 || nodes[p].left == n || nodes[p].right == n
    ensures var s := if nodes[n].left == -1 then nodes[n].right else nodes[n].left;
      var a := Unlinked(nodes, n, s);
      |a| == |nodes| && forall k :: 0 <= k < |nodes| && k != n && Sparse(nodes, k) ==> Sparse(a, k)
  {
  }

  /** A node with at most one child, or whose right child has no left
      child, is a splice the relinking handles. */
  lemma {:induction false} SplicableFromArena(nodes: seq<NodeRec>, t: Tree, n: int)
    requires Linked(nodes, t) && n in Handles(t) && 0 <= n < |nodes|
    requires Sparse(nodes, n) || (0 <= nodes[n].right < |nodes| && nodes[nodes[n].right].left == -1)
    ensures SplicableAt(t, n)
  {
    HandlesInArena(nodes, t);
    var l, h, r := t.left, t.h, t.right;
    if h == n {
      PrunedAbsent(l, n);
      PrunedAbsent(r, n);
      if l != Nil && r != Nil {
        HandlesInArena(nodes, r);
        assert nodes[n].right == r.h;
      }
    } else if n in Handles(l) {
      SplicableFromArena(nodes, l, n);
      PrunedAbsent(r, n);
    } else {
      SplicableFromArena(nodes, r, n);
      PrunedAbsent(l, n);
    }
  }

  lemma {:induction false} PrunedSize(nodes: seq<NodeRec>, t: Tree, n: int)
    requires Linked(nodes, t) && SplicableAt(t, n) && n in Handles(t)
    ensures |InOrder(Pruned(t, n))| == |InOrder(t)| - 1
  {
    var l, h, r := t.left, t.h, t.right;
    if h != n {
      if n in Handles(l) {
        PrunedSize(nodes, l, n);
        PrunedAbsent(r, n);
      } else {
        PrunedSize(nodes, r, n);
        PrunedAbsent(l, n);
      }
    }
  }

  /** BSTree::remove of a non-root node whose splice the relinking handles,
      in a tree with consistent parent links: the result is a search tree
      of the same root whose in-order walk is the old one without n, one
      node shorter; with at most one child removed, parent links stay
      consistent. */
  lemma RemovedValid(nodes: seq<NodeRec>, t: Tree, n: int)
    requires InArena(nodes) && Linked(nodes, t) && Ordered(nodes, t) && ParentLinked(nodes, t, -1)
    requires n in Handles(t) && n != Root(t) && SplicableAt(t, n)
    ensures var a, pt := Removed(nodes, t, n), Pruned(t, n);
      && InArena(a) && Linked(a, pt) && Ordered(a, pt) && Root(pt) == Root(t)
      && InOrder(pt) == Without(InOrder(t), {n})
      && |InOrder(pt)| == |InOrder(t)| - 1
      && (0 <= n < |nodes| && Sparse(nodes, n) ==> ParentLinked(a, pt, -1))
  {
    HandlesInArena(nodes, t);
    var s := Successor(t, n);
    var a, pt := Removed(nodes, t, n), Pruned(t, n);
    UnlinkedFrame(nodes, n, s);
    UnlinkedInArena(nodes, n, s);
    PrunedLinked(nodes, t, n, -1, s);
    PrunedOrdered(nodes, t, n);
    PrunedHandles(nodes, t, n);
    OrderedFrame(nodes, a, pt);
    PrunedInOrder(nodes, t, n);
    PrunedSize(nodes, t, n);
    if Sparse(nodes, n) {
      PrunedParents(nodes, t, n, -1, s);
    }
  }

  /** Below the top, a node's parent names it as one of its children. */
  lemma {:induction false} ParentNamesChild(nodes: seq<NodeRec>, t: Tree, p: int, n: int)
    requires Linked(nodes, t) && ParentLinked(nodes, t, p) && n in Handles(t) && n != Root(t)
    ensures 0 <= n < |nodes| && 0 <= nodes[n].parent < |nodes|
    ensures nodes[nodes[n].parent].left == n || nodes[nodes[n].parent].right == n
  {
    var l, h, r := t.left, t.h, t.right;
    if n in Handles(l) {
      if n != Root(l) {
        ParentNamesChild(nodes, l, h, n);
      }
    } else {
      if n != Root(r) {
        ParentNamesChild(nodes, r, h, n);
      }
    }
  }

  /** Removing a node with at most one child leaves every other node that
      had at most one child with at most one child. */
  lemma RemovedKeepsSparse(nodes: seq<NodeRec>, t: Tree, n: int)
    requires InArena(nodes) && Linked(nodes, t) && Ordered(nodes, t) && ParentLinked(nodes, t, -1)
    requires n in Handles(t) && 0 <= n < |nodes| && Sparse(nodes, n)
    ensures var a := Removed(nodes, t, n);
      |a| == |nodes| && forall k :: 0 <= k < |nodes| && k != n && Sparse(nodes, k) ==> Sparse(a, k)
  {
    SuccessorCorrect(nodes, t, n);
    if n != Root(t) {
      ParentNamesChild(nodes, t, -1, n);
    }
    SparseKept(nodes, n);
  }

  /** Removal only takes keys away. */
  lemma PrunedKeys(nodes: seq<NodeRec>, a: seq<NodeRec>, t: Tree, n: int)
    requires Linked(nodes, t) && SplicableAt(t, n)
    requires |a| == |nodes| && forall k :: 0 <= k < |nodes| ==> a[k].course == nodes[k].course
    ensures forall x :: HasKey(a, Pruned(t, n), x) ==> HasKey(nodes, t, x)
  {
    PrunedHandles(nodes, t, n);
    forall x | HasKey(a, Pruned(t, n), x) ensures HasKey(nodes, t, x) {
      var k :| k in Handles(Pruned(t, n)) && Key(a, k) == x;
      assert Key(nodes, k) == x;
    }
  }
}
