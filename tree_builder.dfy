/**
 The tree builder: owns the root of a binary search tree of student nodes keyed
 by bNumber, adds nodes (merging on a repeated bNumber), looks students up,
 removes single courses, and dumps the nodes in ascending bNumber order into a
 results accumulator.
 */
module Util {
  import CourseTree
  import MyTree

  /** The accumulator the dump appends its lines to. */
  class Results {
    var lines: seq<string>

    constructor ()
      ensures lines == []
    {
      lines := [];
    }

    method StoreNewResult(line: string)
      modifies this
      ensures lines == old(lines) + [line]
    {
      lines := lines + [line];
    }
  }

  class TreeBuilder {
    var rootNode: MyTree.Node?
    /** This builder and every node of its tree. */
    ghost var Repr: set<object>

    ghost predicate Valid()
      reads this, Repr
    {
      && this in Repr
      && (rootNode != null ==> rootNode in Repr && rootNode.Repr <= Repr && rootNode.Valid())
    }

    /** The tree's current value. */
    ghost function Tree(): CourseTree.Tree
      reads this, Repr
      requires Valid()
    {
      MyTree.Abs(rootNode)
    }

    /** A builder starts with no root. */
    constructor ()
      ensures Valid() && Repr == {this} && rootNode == null
      ensures Tree() == CourseTree.Nil
    {
      rootNode := null;
      Repr := {this};
    }

    method SetRootNode(rootNode: MyTree.Node?)
      requires rootNode != null ==> rootNode.Valid()
      modifies this
      ensures Valid() && this.rootNode == rootNode
      ensures Repr == {this} + (if rootNode == null then {} else rootNode.Repr)
      ensures Tree() == MyTree.Abs(rootNode)
    {
      this.rootNode := rootNode;
      Repr := {this} + (if rootNode == null then {} else rootNode.Repr);
    }

    /**
     Adds a node. The root is handed to TraverseAndAdd and what it returns is
     dropped, so on an empty tree the node is built into nothing and the tree
     stays empty; on a non-empty tree the descent links or merges in place.
     */
    method AddNode(node: MyTree.Node)
      requires Valid() && node.Valid()
      requires rootNode != null ==> rootNode.Repr !! node.Repr
      modifies Repr
      ensures Valid() && rootNode == old(rootNode) && Repr <= old(Repr) + node.Repr
      ensures old(rootNode) == null ==> Tree() == CourseTree.Nil
      ensures old(rootNode) != null ==> Tree() == CourseTree.TraverseAndAdd(old(Tree()), old(MyTree.Abs(node)))
    {
      var discarded := TraverseAndAdd(rootNode, node, Tree(), MyTree.Abs(node));
      if rootNode != null {
        Repr := Repr + rootNode.Repr;
      }
    }

    /**
     Descends from `root` by bNumber: below a greater key to the left, below a
     smaller key to the right, hanging `nodeToAdd` into the empty slot reached;
     on an equal key the found node merges `nodeToAdd`'s courses. Returns the
     root of the resulting subtree.
     */
    method TraverseAndAdd(root: MyTree.Node?, nodeToAdd: MyTree.Node, ghost t: CourseTree.Tree, ghost added: CourseTree.Tree)
      returns (r: MyTree.Node)
      requires root != null ==> root.Valid() && root.Repr !! nodeToAdd.Repr
      requires nodeToAdd.Valid()
      requires t == MyTree.Abs(root) && added == MyTree.Abs(nodeToAdd)
      modifies if root == null then {} else root.Repr
      decreases if root == null then {} else root.Repr
      ensures r.Valid()
      ensures root == null ==> r == nodeToAdd
      ensures root != null ==> r == root && r.Repr <= old(root.Repr) + nodeToAdd.Repr
      ensures MyTree.Abs(r) == CourseTree.TraverseAndAdd(t, added)
    {
      if root == null {
        return nodeToAdd;
      }
      if nodeToAdd.bNumber < root.bNumber {
        var l := TraverseAndAdd(root.left, nodeToAdd, t.left, added);
        root.SetLeftNode(l);
      } else if nodeToAdd.bNumber > root.bNumber {
        var rr := TraverseAndAdd(root.right, nodeToAdd, t.right, added);
        root.SetRightNode(rr);
      } else {
        root.Merge(nodeToAdd);
        CoursesReplaced(root);
      }
      r := root;
    }

    /** Only the course set of `n` has changed: `n` is still a tree, with the same subtrees. */
    twostate lemma CoursesReplaced(n: MyTree.Node)
      requires old(n.Valid())
      requires unchanged(old(n.Repr) - {n})
      requires n.left == old(n.left) && n.right == old(n.right) && n.Repr == old(n.Repr)
      ensures n.Valid()
      ensures MyTree.Abs(n) == CourseTree.Node(n.bNumber, n.courses, old(MyTree.Abs(n.left)), old(MyTree.Abs(n.right)))
    {
    }

    /** Removes `course` from the student `bNumber`; nothing happens when the lookup finds no such student. */
    method Delete(bNumber: int, course: string)
      requires Valid()
      modifies Repr
      ensures Valid() && rootNode == old(rootNode) && Repr == old(Repr)
      ensures Tree() == CourseTree.Delete(old(Tree()), bNumber, course)
    {
      var node := Lookup(rootNode, bNumber);
      if node != null {
        node.RemoveCourse(course);
        RemoveCourseInPlace((rootNode, bNumber, course));
      } else {
        CourseTree.DeleteAbsent(Tree(), bNumber, course);
      }
    }

    /** The node holding `bNumber` on the search path from `rootNode`, or `null` when the descent falls off the tree. */
    function Lookup(rootNode: MyTree.Node?, bNumber: int): (r: MyTree.Node?)
      requires rootNode != null ==> rootNode.Valid()
      reads if rootNode == null then {} else rootNode.Repr
      decreases if rootNode == null then {} else rootNode.Repr
      ensures r != null ==> rootNode != null && r in rootNode.Repr && r.bNumber == bNumber
      ensures r == null <==> CourseTree.Find(MyTree.Abs(rootNode), bNumber).None?
      ensures r != null ==> CourseTree.Find(MyTree.Abs(rootNode), bNumber) == CourseTree.Some(r.courses)
    {
      if rootNode == null then null
      else if rootNode.bNumber == bNumber then rootNode
      else if rootNode.bNumber > bNumber then Lookup(rootNode.left, bNumber)
      else Lookup(rootNode.right, bNumber)
    }

    /**
     For `removal` = (n, k, course): after the node that the lookup of `k`
     finds in `n` has lost `course`, and nothing else in the subtree has
     changed, the subtree is still a tree and its value is that of the course
     deletion. (The three arguments travel as one tuple.)
     */
    twostate lemma RemoveCourseInPlace(removal: (MyTree.Node, int, string))
      requires old(removal.0.Valid())
      requires var x := old(Lookup(removal.0, removal.1));
               && x != null
               && unchanged(old(removal.0.Repr) - {x})
               && x.left == old(x.left) && x.right == old(x.right) && x.Repr == old(x.Repr)
               && x.courses == old(x.courses) - {removal.2}
      ensures removal.0.Valid()
      ensures MyTree.Abs(removal.0) == CourseTree.Delete(old(MyTree.Abs(removal.0)), removal.1, removal.2)
      decreases old(removal.0.Repr)
    {
      var (n, k, course) := removal;
      if n.bNumber == k {
      } else if n.bNumber > k {
        RemoveCourseInPlace((n.left, k, course));
      } else {
        RemoveCourseInPlace((n.right, k, course));
      }
    }

    /** Appends the dump of the whole tree to `results`; writing them out is not part of this model. */
    method PrintNodes(results: Results)
      requires Valid()
      modifies results
      ensures results.lines == old(results.lines) + CourseTree.Dump(old(Tree()))
    {
      PrintInAscendingOrder(rootNode, results, Tree());
    }

    /** In-order walk: the left subtree's lines, then this node's line, then the right subtree's. */
    method PrintInAscendingOrder(node: MyTree.Node?, result: Results, ghost t: CourseTree.Tree)
      requires node != null ==> node.Valid()
      requires t == MyTree.Abs(node)
      modifies result
      decreases if node == null then {} else node.Repr
      ensures result.lines == old(result.lines) + CourseTree.Dump(t)
    {
      if node == null {
        return;
      }
      ghost var before := result.lines;
      PrintInAscendingOrder(node.left, result, t.left);
      ghost var afterLeft := result.lines;
      var line := node.ToString();
      result.StoreNewResult(line);
      PrintInAscendingOrder(node.right, result, t.right);
      CourseTree.DumpSteps(t, before, afterLeft, line, result.lines);
    }
  }
}
