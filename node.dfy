/**
 A tree node: one student's bNumber, the courses registered for that student,
 and links to the left and right subtrees. The bNumber never changes once the
 node exists; the course set grows by merge and shrinks by course removal.
 */
module MyTree {
  import CourseTree
  import Rendering

  class Node {
    const bNumber: int
    var courses: set<string>
    var left: Node?
    var right: Node?
    /** The nodes of the subtree rooted here, this one included. */
    ghost var Repr: set<Node>

    /** The links below this node form a tree: no cycles and no node reachable twice. */
    ghost predicate Valid()
      reads this, Repr
      decreases Repr
    {
      && this in Repr
      && (left != null ==>
            left in Repr && left.Repr <= Repr && this !in left.Repr && left.Valid())
      && (right != null ==>
            right in Repr && right.Repr <= Repr && this !in right.Repr && right.Valid())
      && (left != null && right != null ==> left.Repr !! right.Repr)
    }

    /** A node for one student with the given courses and no children. */
    constructor (bNumber: int, courses: set<string>)
      ensures Valid() && Repr == {this}
      ensures Abs(this) == CourseTree.Leaf(bNumber, courses)
    {
      this.bNumber := bNumber;
      this.courses := courses;
      left := null;
      right := null;
      Repr := {this};
    }

    /**
     Hangs `l` below this node on the left. The right subtree must already be
     a tree apart from `l`.
     */
    method SetLeftNode(l: Node)
      requires l.Valid() && this !in l.Repr
      requires this in Repr
      requires right != null ==>
                 right in Repr && right.Repr <= Repr && this !in right.Repr && right.Valid() && l.Repr !! right.Repr
      modifies this`left, this`Repr
      ensures left == l && Repr == old(Repr) + l.Repr
      ensures Valid()
      ensures Abs(this) == CourseTree.Node(bNumber, courses, Abs(l), old(Abs(right)))
    {
      left, Repr := l, Repr + l.Repr;
    }

    /** Hangs `r` below this node on the right; the mirror image of SetLeftNode. */
    method SetRightNode(r: Node)
      requires r.Valid() && this !in r.Repr
      requires this in Repr
      requires left != null ==>
                 left in Repr && left.Repr <= Repr && this !in left.Repr && left.Valid() && r.Repr !! left.Repr
      modifies this`right, this`Repr
      ensures right == r && Repr == old(Repr) + r.Repr
      ensures Valid()
      ensures Abs(this) == CourseTree.Node(bNumber, courses, old(Abs(left)), Abs(r))
    {
      right, Repr := r, Repr + r.Repr;
    }

    /** Union of the other node's courses into this node's. */
    method Merge(other: Node)
      modifies this`courses
      ensures courses == old(courses) + old(other.courses)
    {
      courses := courses + other.courses;
    }

    /** Removal of one course; a course that is not there is ignored. */
    method RemoveCourse(course: string)
      modifies this`courses
      ensures courses == old(courses) - {course}
    {
      courses := courses - {course};
    }

    /**
     The line this node contributes to the dump: its bNumber can be read back
     before the first colon, and its courses, sorted and space-separated, follow.
     */
    function ToString(): (line: string)
      reads this
      ensures Rendering.ParseInt(Rendering.KeyField(line)) == bNumber
      ensures Rendering.CoursesField(line) == Rendering.Join(Rendering.SortedCourses(courses))
    {
      Rendering.RenderFields(bNumber, courses);
      Rendering.Render(bNumber, courses)
    }
  }

  /** The value of the subtree rooted at `n`; `null` is the empty tree. */
  ghost function Abs(n: Node?): CourseTree.Tree
    requires n != null ==> n.Valid()
    reads if n == null then {} else n.Repr
    decreases if n == null then {} else n.Repr
  {
    if n == null then CourseTree.Nil
    else CourseTree.Node(n.bNumber, n.courses, Abs(n.left), Abs(n.right))
  }
}
