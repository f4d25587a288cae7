# Student course backup tree

A model of `TreeBuilder`, the in-memory index of the student course backup
program. The index is an unbalanced binary search tree keyed by a student's
`bNumber`. Each node holds the set of courses that student is registered for.
The builder supports these operations:

- setting the root;
- adding a node, which descends by `bNumber` and merges course sets when the
  key is already present;
- looking a student up;
- removing one course from a student, which keeps the student's node even when
  no course is left;
- dumping every node, one line `<bNumber>:<course> <course> ...` per student,
  in ascending `bNumber` order into a results accumulator.

The project has four modules:

- `Util` (`tree_builder.dfy`) holds the imperative model. `TreeBuilder` is a
  class with the `rootNode` field. Its methods update the nodes in place the way
  the Java code does. `Results` is the accumulator: a sequence of lines that
  `StoreNewResult` appends to. Every method is specified against the value of
  the tree before and after the call.
- `MyTree` (`node.dfy`) holds the `Node` class: a constant `bNumber`, a mutable
  course set, and left and right links. It also holds the ghost function `Abs`,
  which reads the linked nodes as a `CourseTree.Tree` value. The Java `Node`
  class is not part of this model. Its `merge`, `removeCourse`,
  `setLeftNode`/`setRightNode` and `toString` are modelled from how
  `TreeBuilder` uses them: set union, removal of one element, re-linking a
  child, and rendering the line.
- `CourseTree` (`course_tree.dfy`) holds the value-level tree. It has one pure
  function per operation (`TraverseAndAdd`, `Find`, `Delete`, `Dump`). It also
  has the abstractions the properties are stated in: the key set, the map from
  student to courses, the node count, and the in-order listing. The lemmas about
  insertion, deletion and the dump live here.
- `Rendering` (`rendering.dfy`) holds the line layout. The key is written in
  decimal. Courses follow a colon, in lexicographic order, separated by single
  spaces. The key can be read back from a rendered line, so lines in ascending
  key order carry ascending keys.

`addNode` passes the root to `traverseAndAdd` and ignores what comes back. On an
empty tree the new node is therefore never attached, and the tree stays empty.
A tree gets its first node only through `setRootNode`. The model keeps this
behaviour, and `Util.TreeBuilder.AddNode` states it.

## Model

| member | source | states |
|---|---|---|
| `Util.TreeBuilder.SetRootNode` | studentCoursesBackup/src/studentCoursesBackup/util/TreeBuilder.java:14-16 | afterwards the builder's root is exactly the given node (or null), and the tree is that node's subtree |
| `Util.TreeBuilder.AddNode` | studentCoursesBackup/src/studentCoursesBackup/util/TreeBuilder.java:22-24 | the root never changes; on an empty tree the tree stays empty because the descent's result is dropped; otherwise the tree becomes the pure insertion of the node into the old tree, and it is still a well-formed tree |
| `Util.TreeBuilder.TraverseAndAdd` | studentCoursesBackup/src/studentCoursesBackup/util/TreeBuilder.java:32-48 | on a null root the added node itself is returned; otherwise the same root is returned, its subtree is still a tree, it gained no nodes other than the added ones, and its value is the pure insertion (left of a greater key, right of a smaller one, merge on an equal key) |
| `MyTree.Node.SetLeftNode` | studentCoursesBackup/src/studentCoursesBackup/util/TreeBuilder.java:40 | after re-linking, the node is a tree again whose value has the new left subtree and the old right subtree |
| `MyTree.Node.SetRightNode` | studentCoursesBackup/src/studentCoursesBackup/util/TreeBuilder.java:42 | after re-linking, the node is a tree again whose value has the old left subtree and the new right subtree |
| `MyTree.Node.Merge` | studentCoursesBackup/src/studentCoursesBackup/util/TreeBuilder.java:44 | the node's courses become the union of its own and the other node's courses |
| `Util.TreeBuilder.CoursesReplaced` | studentCoursesBackup/src/studentCoursesBackup/util/TreeBuilder.java:43-45 | when only a node's course set changed in place, the node is still a tree with the same subtrees and the new courses |
| `CourseTree.TraverseAndAdd` | studentCoursesBackup/src/studentCoursesBackup/util/TreeBuilder.java:32-48 | afterwards a lookup of the added key finds the old courses united with the added ones when the key was present, and exactly the added courses when it was absent |
| `CourseTree.TraverseAndAddKeys` | studentCoursesBackup/src/studentCoursesBackup/util/TreeBuilder.java:32-48 | insertion keeps the key set when the descent meets an equal key; otherwise it adds exactly the keys of the added subtree |
| `CourseTree.AddKeepsOrder` | studentCoursesBackup/src/studentCoursesBackup/util/TreeBuilder.java:39-42 | inserting a single node into a search-ordered tree leaves it search-ordered (smaller keys left, greater keys right, no repeated key) |
| `CourseTree.AddUpdatesCourses` | studentCoursesBackup/src/studentCoursesBackup/util/TreeBuilder.java:34-45 | on an ordered tree the student-to-courses map changes only at the added key: a present key gets the union of old and new courses, and an absent key gets exactly the new courses |
| `CourseTree.AddNodeCount` | studentCoursesBackup/src/studentCoursesBackup/util/TreeBuilder.java:34-45 | insertion creates a node exactly when the key is new, and otherwise leaves the node count unchanged |
| `CourseTree.AddExistingKey` | studentCoursesBackup/src/studentCoursesBackup/util/TreeBuilder.java:43-45 | inserting a key that is present keeps the key set and node count, and that student's courses become the union |
| `CourseTree.AddFreshKey` | studentCoursesBackup/src/studentCoursesBackup/util/TreeBuilder.java:34-42 | inserting a key that is absent grows the key set by exactly that key and adds one node carrying the new courses |
| `CourseTree.OrderedSizeIsKeyCount` | studentCoursesBackup/src/studentCoursesBackup/util/TreeBuilder.java:39-45 | a search-ordered tree never holds a key twice: it has as many nodes as keys |
| `Util.TreeBuilder.Lookup` | studentCoursesBackup/src/studentCoursesBackup/util/TreeBuilder.java:68-82 | the result is null exactly when the lookup descent finds no node; otherwise it is a node of the tree with the queried bNumber, carrying the courses the descent finds |
| `CourseTree.Find` | studentCoursesBackup/src/studentCoursesBackup/util/TreeBuilder.java:68-82 | a lookup that finds something only finds keys of the tree |
| `CourseTree.FindInOrdered` | studentCoursesBackup/src/studentCoursesBackup/util/TreeBuilder.java:68-82 | on an ordered tree the lookup descent finds a key exactly when the tree holds it, and returns that student's courses |
| `Util.TreeBuilder.Delete` | studentCoursesBackup/src/studentCoursesBackup/util/TreeBuilder.java:55-60 | the root and the node set stay as they were, the tree stays well formed, and its new value is the pure course deletion of its old value |
| `MyTree.Node.RemoveCourse` | studentCoursesBackup/src/studentCoursesBackup/util/TreeBuilder.java:59 | the node's courses lose exactly the given course; an absent course leaves them unchanged |
| `Util.TreeBuilder.RemoveCourseInPlace` | studentCoursesBackup/src/studentCoursesBackup/util/TreeBuilder.java:56-59 | removing the course from the node that lookup found, with nothing else changed, gives a tree whose value is the pure course deletion |
| `CourseTree.Delete` | studentCoursesBackup/src/studentCoursesBackup/util/TreeBuilder.java:55-60 | afterwards a lookup of the key finds its old courses less the one course when it was found, and still finds nothing when it was not |
| `CourseTree.DeleteAbsent` | studentCoursesBackup/src/studentCoursesBackup/util/TreeBuilder.java:55-60 | when the lookup descent finds no node, the deletion changes nothing |
| `CourseTree.DeleteKeepsKeys` | studentCoursesBackup/src/studentCoursesBackup/util/TreeBuilder.java:55-60 | deletion never removes a node: keys and node count are unchanged |
| `CourseTree.DeleteKeepsOrder` | studentCoursesBackup/src/studentCoursesBackup/util/TreeBuilder.java:55-60 | deletion keeps an ordered tree ordered |
| `CourseTree.DeletePresent` | studentCoursesBackup/src/studentCoursesBackup/util/TreeBuilder.java:56-59 | for a student present in an ordered tree, that student loses exactly the one course, keeps their node even when no course is left, and every other student keeps their courses |
| `CourseTree.DeleteRemovesCourse` | studentCoursesBackup/src/studentCoursesBackup/util/TreeBuilder.java:55-60 | on an ordered tree the student-to-courses map loses the course at the key if the key is present, and does not change otherwise |
| `Util.TreeBuilder.PrintNodes` | studentCoursesBackup/src/studentCoursesBackup/util/TreeBuilder.java:88-91 | the results gain exactly the dump of the whole tree after the lines they already held |
| `Util.TreeBuilder.PrintInAscendingOrder` | studentCoursesBackup/src/studentCoursesBackup/util/TreeBuilder.java:98-106 | the results gain the lines of the left subtree, then the node's own line, then the lines of the right subtree; a null subtree adds nothing |
| `MyTree.Node.ToString` | studentCoursesBackup/src/studentCoursesBackup/util/TreeBuilder.java:103 | the node's line reads back as its bNumber before the first colon, followed by its courses, sorted and space-separated |
| `Util.Results.StoreNewResult` | studentCoursesBackup/src/studentCoursesBackup/util/TreeBuilder.java:103 | the accumulator gains the one line at its end |
| `CourseTree.Dump` | studentCoursesBackup/src/studentCoursesBackup/util/TreeBuilder.java:98-106 | the dump has exactly one line per node of the tree |
| `CourseTree.DumpSteps` | studentCoursesBackup/src/studentCoursesBackup/util/TreeBuilder.java:101-105 | appending the left subtree's lines, the node's line and the right subtree's lines, in that order, appends the whole subtree's dump |
| `CourseTree.InOrderEntries` | studentCoursesBackup/src/studentCoursesBackup/util/TreeBuilder.java:98-106 | the in-order listing has one entry per node; every entry carries a key of the tree, and every key of the tree appears |
| `CourseTree.InOrderAscending` | studentCoursesBackup/src/studentCoursesBackup/util/TreeBuilder.java:98-106 | on an ordered tree the in-order listing is strictly ascending by bNumber |
| `CourseTree.InOrderCourses` | studentCoursesBackup/src/studentCoursesBackup/util/TreeBuilder.java:98-106 | on an ordered tree every entry of the in-order listing pairs a student with that student's own courses |
| `CourseTree.DumpRendersInOrder` | studentCoursesBackup/src/studentCoursesBackup/util/TreeBuilder.java:98-106 | line i of the dump is the rendering of the i-th entry of the in-order listing, and there are as many lines as entries |
| `CourseTree.DumpOneLinePerStudentAscending` | studentCoursesBackup/src/studentCoursesBackup/util/TreeBuilder.java:84-106 | the dump of an ordered tree has exactly one line per student; an empty tree dumps nothing; the keys written on the lines are strictly ascending |
| `Rendering.SortedCourses` | studentCoursesBackup/src/studentCoursesBackup/util/TreeBuilder.java:85 | the course list holds every course of the set exactly once, in strictly ascending lexicographic order |
| `Rendering.RenderFields` | studentCoursesBackup/src/studentCoursesBackup/util/TreeBuilder.java:85 | a rendered line reads back as its key before the first colon and its sorted, space-separated courses after it |
| `Rendering.RenderDistinguishesKeys` | studentCoursesBackup/src/studentCoursesBackup/util/TreeBuilder.java:85 | nodes with different keys render to different lines |
| `Rendering.IntRoundTrip` | studentCoursesBackup/src/studentCoursesBackup/util/TreeBuilder.java:85 | the decimal text of a key parses back to that key, negative keys included |

## Left out

- The reading of the backup file and the parsing of its lines happen in
  `FileProcessor`. That is file I/O, and `FileProcessor` is not part of this
  model.
- `Results.writeToFile` (TreeBuilder.java:90) writes the collected lines to a
  file. The dump is modelled up to the sequence of lines in `Results`.
- The `Node` and `Results` classes are not part of this model. Their methods are
  modelled from how `TreeBuilder` calls them.
- Java's rendering of a node lists the courses in whatever order its set
  iterates them. That order depends on the implementation. The model lists them
  in lexicographic order instead. The dump's ordering properties concern keys
  only, so they do not depend on this choice.
- Util.TreeBuilder.AddNode: requires the added node's subtree to share no node
  with the tree. Java accepts overlapping calls too. Re-adding a node that
  already sits in an ordered tree reaches that node, merges it into itself and
  changes nothing. A cycle arises only when the added node's own subtree holds
  an ancestor of the empty slot it is hung into. Calls whose subtree overlaps
  the tree are outside the model.
- Util.TreeBuilder.TraverseAndAdd: requires the same disjointness as `AddNode`,
  for the same reason.
- Util.TreeBuilder.AddNode: the node parameter is non-null, so `addNode(null)`
  is not modelled. In Java that call throws a `NullPointerException` at
  TreeBuilder.java:39 on a non-empty tree, and returns without effect on an
  empty tree.
- Aliasing of returned nodes is not modelled. A caller of `Lookup` could keep
  the node and change it later.
- Keys are unbounded integers. The tree only compares keys and never does
  arithmetic on them, so Java's 32-bit `int` range changes no behaviour that is
  modelled.
- Recursion depth, stack overflow on a degenerate tree, and balancing are not
  modelled.
