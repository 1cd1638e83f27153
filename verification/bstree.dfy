/** BSTree: the unbalanced binary search tree of courses, keyed by course
    id. The nodes live in an arena (see TreeShape); the ghost field shape
    names the tree the child links describe. */
module CourseTree {
  import opened Lex
  import opened Courses
  import opened TreeShape

  /** What getDetails answers for an id that is not in the tree. */
  const NotFound: string := "Course not found\n"

  /** What print writes for node k: its text, then the newline of endl. */
  function Line(nodes: seq<NodeRec>, k: int): string
  {
    Text(CourseAt(nodes, k)) + "\n"
  }

  /** Lines for a, n's line, lines for b are the lines for a + [n] + b. */
  lemma LinesConcat(nodes: seq<NodeRec>, a: seq<int>, n: int, b: seq<int>, x: seq<string>, y: seq<string>)
    requires |x| == |a| && forall i :: 0 <= i < |a| ==> x[i] == Line(nodes, a[i])
    requires |y| == |b| && forall i :: 0 <= i < |b| ==> y[i] == Line(nodes, b[i])
    ensures var out, s := x + [Line(nodes, n)] + y, a + [n] + b;
      |out| == |s| && forall i :: 0 <= i < |out| ==> out[i] == Line(nodes, s[i])
  {
    var out, s := x + [Line(nodes, n)] + y, a + [n] + b;
    forall i | 0 <= i < |out| ensures out[i] == Line(nodes, s[i]) {
      if i < |a| {
        assert out[i] == x[i] && s[i] == a[i];
      } else if i == |a| {
        assert out[i] == Line(nodes, n) && s[i] == n;
      } else {
        assert out[i] == y[i - |a| - 1] && s[i] == b[i - |a| - 1];
      }
    }
  }

  /** The line of node k begins with its id. */
  lemma LineStartsWithId(nodes: seq<NodeRec>, k: int)
    ensures var x, line := Key(nodes, k), Line(nodes, k);
      |x| < |line| && line[..|x|] == x
  {
    var c := CourseAt(nodes, k);
    var m := |c.id| + |c.name| + 3;
    assert Line(nodes, k)[..m] == Text(c)[..m];
    assert Line(nodes, k)[..m][..|c.id|] == c.id;
  }

  class BSTree {
    /** The node arena; handles are indices. */
    var nodes: seq<NodeRec>
    /** The root handle, -1 for an empty tree. */
    var root: int
    /** The count add and remove maintain. */
    var size: int
    /** The tree the child links describe. */
    ghost var shape: Tree

    /** The child links describe shape, which is a search tree, and root is
        its top. */
    ghost predicate Valid()
      reads this
    {
      InArena(nodes) && Linked(nodes, shape) && Ordered(nodes, shape) && root == Root(shape)
    }

    /** Every parent field names the node above it (none for the root). */
    ghost predicate ParentsConsistent()
      reads this
    {
      ParentLinked(nodes, shape, -1)
    }

    /** The count lags the number of nodes by one once the tree is non-empty:
        the first add does not count its node. */
    ghost predicate SizeLags()
      reads this
    {
      size == if shape == Nil then 0 else |InOrder(shape)| - 1
    }

    constructor ()
      ensures nodes == [] && root == -1 && size == 0 && shape == Nil
      ensures Valid() && ParentsConsistent() && SizeLags()
    {
      nodes := [];
      root := -1;
      size := 0;
      shape := Nil;
    }

    /** BSTree::add: walks down from the root, left when the new id is <=
        the node's id, and hangs the new node in the first free slot. An
        empty tree takes the node as its root and leaves size alone. */
    method Add(c: Course) returns (h: int)
      requires Valid()
      modifies this
      ensures h == old(|nodes|)
      ensures nodes == Grafted(old(nodes), old(shape), c)
      ensures shape == Grow(old(nodes), old(shape), h, c.id)
      ensures root == (if old(root) == -1 then h else old(root))
      ensures size == (if old(root) == -1 then old(size) else old(size) + 1)
      ensures Valid()
      ensures old(ParentsConsistent()) ==> ParentsConsistent()
      ensures old(SizeLags()) ==> SizeLags()
      ensures var s, i := old(InOrder(shape)), InsertionPoint(old(nodes), old(shape), c.id);
        i <= |s| && InOrder(shape) == s[..i] + [h] + s[i..]
    {
      ghost var n0, t0 := nodes, shape;
      h := |nodes|;
      HandlesInArena(n0, t0);
      GrowInOrder(n0, t0, h, c.id);
      GrowHandles(n0, t0, h, c.id);
      GrowValid(n0, t0, c);
      if root == -1 {
        nodes := nodes + [NodeRec(c, -1, -1, -1)];
        root := h;
        shape := Node(Nil, h, Nil);
        return;
      }
      var x := c.id;
      var cur := root;
      ghost var sub := t0;
      ghost var slot := Attach(n0, t0, x);
      while cur != -1
        invariant shape == t0 && root == old(root) && size == old(size) && h == |n0|
        invariant cur != -1 ==> nodes == n0 && sub.Node? && cur == sub.h && Linked(n0, sub) && Attach(n0, sub, x) == slot
        invariant cur == -1 ==> 0 <= slot.at < |n0| && nodes == Fill(n0, slot, c)
        decreases if cur == -1 then 0 else 1, sub
      {
        var key := nodes[cur].course.id;
        if LexLe(x, key) && nodes[cur].left != -1 {
          cur := nodes[cur].left;
          sub := sub.left;
        } else if !LexLe(x, key) && nodes[cur].right != -1 {
          cur := nodes[cur].right;
          sub := sub.right;
        } else if LexLe(x, key) && nodes[cur].left == -1 {
          nodes := nodes[cur := nodes[cur].(left := h)] + [NodeRec(c, -1, -1, cur)];
          cur := -1;
        } else {
          nodes := nodes[cur := nodes[cur].(right := h)] + [NodeRec(c, -1, -1, cur)];
          cur := -1;
        }
      }
      shape := Grow(n0, t0, h, x);
      size := size + 1;
      if ParentLinked(n0, t0, -1) {
        GrowParentsAt(n0, t0, c, slot, -1);
      }
    }

    /** Node::getSuccessorNode, for the node n of the tree. */
    method SuccessorNode(n: int) returns (s: int)
      requires Valid() && n in Handles(shape)
      ensures s == Successor(shape, n)
    {
      HandlesInArena(nodes, shape);
      SubtreeAtLinked(nodes, shape, n);
      ghost var st := SubtreeAt(shape, n);
      var left, right := nodes[n].left, nodes[n].right;
      if left == -1 && right == -1 {
        s := -1;
      } else if left != -1 && right == -1 {
        s := left;
      } else if left == -1 && right != -1 {
        s := right;
      } else {
        s := right;
        ghost var sub := st.right;
        while nodes[s].left != -1
          invariant sub.Node? && s == sub.h && Linked(nodes, sub) && LeftMost(sub) == LeftMost(st.right)
          decreases sub
        {
          s := nodes[s].left;
          sub := sub.left;
        }
      }
    }

    /** Node::updateParent: the parent of n (if any) takes n's successor in
        the child slot that named n. */
    method UpdateParent(n: int)
      requires Valid() && n in Handles(shape)
      modifies this
      ensures 0 <= n < |old(nodes)|
      ensures nodes == Unhook(old(nodes), n, Successor(old(shape), n))
      ensures shape == old(shape) && root == old(root) && size == old(size)
    {
      HandlesInArena(nodes, shape);
      var p := nodes[n].parent;
      if p == -1 {
        return;
      }
      var s := SuccessorNode(n);
      if nodes[p].left == n {
        nodes := nodes[p := nodes[p].(left := s)];
      } else {
        nodes := nodes[p := nodes[p].(right := s)];
      }
    }

    /** BSTree::remove: splices the node n out of the tree through its
        parent and its successor, and counts one node less. The root handle
        never changes. When n is not the root and the splice is one the
        relinking handles (at most one child, or a right child with no left
        child), the result is the search tree without n; when n is the root
        with at most one child, every child link stays as it was. */
    method Remove(n: int)
      requires Valid() && n in Handles(shape)
      modifies this
      ensures 0 <= n < |old(nodes)|
      ensures nodes == Removed(old(nodes), old(shape), n)
      ensures root == old(root) && size == old(size) - 1
      ensures old(ParentsConsistent()) && n != root && SplicableAt(old(shape), n) ==>
        && shape == Pruned(old(shape), n) && Valid()
        && InOrder(shape) == Without(old(InOrder(shape)), {n})
        && (old(SizeLags()) ==> SizeLags())
      ensures old(ParentsConsistent()) && n != root && Sparse(old(nodes), n) ==> ParentsConsistent()
      ensures old(ParentsConsistent()) && n == root && Sparse(old(nodes), n) ==> shape == old(shape) && Valid()
    {
      ghost var n0, t0 := nodes, shape;
      HandlesInArena(nodes, shape);
      var parent, left, right := nodes[n].parent, nodes[n].left, nodes[n].right;
      var successor := SuccessorNode(n);
      UpdateParent(n);
      if successor != -1 {
        nodes := nodes[successor := nodes[successor].(parent := parent)];
        if left != -1 && right != -1 {
          nodes := nodes[successor := nodes[successor].(left := left)];
          if nodes[n].right != successor {
            nodes := nodes[successor := nodes[successor].(right := right)];
          }
        }
      }
      size := size - 1;
      RemoveShape(n0, t0, n);
    }

    /** The ghost shape after Remove, with the facts Remove promises. */
    ghost method RemoveShape(n0: seq<NodeRec>, t0: Tree, n: int)
      requires InArena(n0) && Linked(n0, t0) && Ordered(n0, t0) && n in Handles(t0) && 0 <= n < |n0|
      requires nodes == Removed(n0, t0, n) && root == Root(t0)
      modifies this`shape
      ensures ParentLinked(n0, t0, -1) && n != root && SplicableAt(t0, n) ==>
        && shape == Pruned(t0, n) && Valid()
        && InOrder(shape) == Without(InOrder(t0), {n})
        && |InOrder(shape)| == |InOrder(t0)| - 1
      ensures ParentLinked(n0, t0, -1) && n != root && Sparse(n0, n) ==> ParentsConsistent()
      ensures ParentLinked(n0, t0, -1) && n == root && Sparse(n0, n) ==> shape == t0 && Valid()
      ensures !(ParentLinked(n0, t0, -1) && n != root && SplicableAt(t0, n)) ==> shape == t0
    {
      HandlesInArena(n0, t0);
      var s := Successor(t0, n);
      UnlinkedFrame(n0, n, s);
      if Sparse(n0, n) {
        SplicableFromArena(n0, t0, n);
      }
      if ParentLinked(n0, t0, -1) && n != root && SplicableAt(t0, n) {
        shape := Pruned(t0, n);
        RemovedValid(n0, t0, n);
      } else {
        shape := t0;
        if ParentLinked(n0, t0, -1) && n == root && Sparse(n0, n) {
          RootRemovalKeepsShape(n0, t0, s);
          OrderedFrame(n0, nodes, t0);
        }
      }
    }

    /** BSTree::getDetails: descends from the root, stopping at the first
        node whose id is x, left when x is below the node's id and right
        otherwise. Answers that node's text, or the not-found message: the
        message comes back exactly when no node of the tree has id x. */
    method GetDetails(x: string) returns (r: string)
      requires Valid()
      ensures var f := FindFirst(nodes, shape, x);
        r == if f == -1 then NotFound else Text(CourseAt(nodes, f))
      ensures r == NotFound <==> !HasKey(nodes, shape, x)
      ensures r != NotFound ==> exists k :: k in Handles(shape) && Key(nodes, k) == x && r == Text(CourseAt(nodes, k))
    {
      FindFirstCorrect(nodes, shape, x);
      HandlesInArena(nodes, shape);
      var cur := root;
      ghost var sub := shape;
      while cur != -1
        invariant cur == Root(sub) && Linked(nodes, sub)
        invariant FindFirst(nodes, sub, x) == FindFirst(nodes, shape, x)
        decreases sub
      {
        var key := nodes[cur].course.id;
        if key == x {
          r := ToString(nodes[cur].course);
          TextHasTab(nodes[cur].course);
          return;
        } else if Less(x, key) {
          cur := nodes[cur].left;
          sub := sub.left;
        } else {
          cur := nodes[cur].right;
          sub := sub.right;
        }
      }
      r := NotFound;
    }

    /** BSTree::printPreorder on the node n at the top of sub: the left
        subtree's lines, n's line, then the right subtree's lines. */
    function PrintPreorder(n: int, ghost sub: Tree): (out: seq<string>)
      reads this
      requires Valid() && sub.Node? && n == sub.h && Linked(nodes, sub)
      ensures |out| == |InOrder(sub)|
      ensures forall i :: 0 <= i < |out| ==> out[i] == Line(nodes, InOrder(sub)[i])
      decreases sub
    {
      var left, right := nodes[n].left, nodes[n].right;
      HandlesInArena(nodes, sub.left);
      HandlesInArena(nodes, sub.right);
      assert left == -1 <==> sub.left == Nil;
      assert right == -1 <==> sub.right == Nil;
      var before := if left != -1 then PrintPreorder(left, sub.left) else [];
      var after := if right != -1 then PrintPreorder(right, sub.right) else [];
      LinesConcat(nodes, InOrder(sub.left), n, InOrder(sub.right), before, after);
      before + [Line(nodes, n)] + after
    }

    /** BSTree::print: every course's text, in the in-order walk, which on
        the search tree lists the ids in ascending order. */
    function Print(): (out: seq<string>)
      reads this
      requires Valid()
      ensures |out| == |InOrder(shape)|
      ensures forall i :: 0 <= i < |out| ==> out[i] == Line(nodes, InOrder(shape)[i])
    {
      if root == -1 then [] else PrintPreorder(root, shape)
    }

    /** What print lists is in ascending order of id: line i begins with the
        id of the i-th node of the walk, and those ids never decrease. */
    lemma PrintSorted()
      requires Valid()
      ensures var out, s := Print(), InOrder(shape);
        && |out| == |s|
        && (forall i :: 0 <= i < |s| ==> |Key(nodes, s[i])| < |out[i]| && out[i][..|Key(nodes, s[i])|] == Key(nodes, s[i]))
        && (forall i, j :: 0 <= i < j < |s| ==> LexLe(Key(nodes, s[i]), Key(nodes, s[j])))
    {
      InOrderSorted(nodes, shape);
      var out, s := Print(), InOrder(shape);
      forall i | 0 <= i < |s|
        ensures |Key(nodes, s[i])| < |out[i]| && out[i][..|Key(nodes, s[i])|] == Key(nodes, s[i])
      {
        LineStartsWithId(nodes, s[i]);
      }
    }

    /** BSTree::getSize: the count, one below the number of nodes once the
        tree is non-empty when only add has run. */
    method GetSize() returns (r: int)
      ensures r == size
      ensures SizeLags() && shape != Nil ==> r == |InOrder(shape)| - 1
    {
      r := size;
    }
  }
}
